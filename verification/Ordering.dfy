/**
 * Python's order on strings, by code point, as `sorted` uses it on ids. `Below` compares character by
 * character; `BeforeExactly` says what that means in terms of the first position at which two strings
 * differ. `SortedList` lists a set in increasing order, and is the only such list. Lower-casing of ids
 * is for ASCII letters only.
 */
module Ordering {

  predicate Below(a: string, b: string) {
    a == "" || (b != "" && (a[0] < b[0] || (a[0] == b[0] && Below(a[1..], b[1..]))))
  }

  predicate Before(a: string, b: string) {
    a != b && Below(a, b)
  }

  lemma {:induction false} BelowTotal(a: string, b: string)
    ensures Below(a, b) || Below(b, a)
    ensures a == b ==> Below(a, b)
  {
    if a != "" && b != "" && a[0] == b[0] { BelowTotal(a[1..], b[1..]); }
  }

  lemma {:induction false} BelowAntisymmetric(a: string, b: string)
    requires Below(a, b) && Below(b, a)
    ensures a == b
  {
    if a != "" && b != "" {
      BelowAntisymmetric(a[1..], b[1..]);
      assert a == [a[0]] + a[1..] && b == [b[0]] + b[1..];
    }
  }

  lemma {:induction false} BelowTransitive(a: string, b: string, c: string)
    requires Below(a, b) && Below(b, c)
    ensures Below(a, c)
  {
    if a != "" && a[0] == b[0] == c[0] { BelowTransitive(a[1..], b[1..], c[1..]); }
  }

  lemma BeforeTransitive(a: string, b: string, c: string)
    requires Before(a, b) && Before(b, c)
    ensures Before(a, c)
  {
    BelowTransitive(a, b, c);
    if a == c { BelowAntisymmetric(a, b); }
  }

  /** At the first difference the smaller character decides; a proper prefix comes first. */
  lemma {:induction false} BeforeExactly(a: string, b: string)
    ensures Before(a, b) <==> a < b || exists i :: 0 <= i < |a| && i < |b| && DiffersAt(a, b, i) && a[i] < b[i]
  {
    if a != "" && b != "" && a[0] == b[0] {
      var x, y := a[1..], b[1..];
      BeforeExactly(x, y);
      assert a == [a[0]] + x && b == [b[0]] + y;
      if i :| 0 <= i < |x| && i < |y| && DiffersAt(x, y, i) && x[i] < y[i] { DiffersLater(a, b, i + 1); }
      if i :| 0 <= i < |a| && i < |b| && DiffersAt(a, b, i) && a[i] < b[i] { DiffersLater(a, b, i); }
    } else if a != "" && b != "" {
      if a[0] < b[0] { assert DiffersAt(a, b, 0); }
      if i :| 0 <= i < |a| && i < |b| && DiffersAt(a, b, i) && a[i] < b[i] {
        assert i > 0 ==> a[..i][0] == b[..i][0];
      }
    }
  }

  lemma DiffersLater(a: string, b: string, i: nat)
    requires 0 < i < |a| && i < |b| && a[0] == b[0]
    ensures DiffersAt(a, b, i) <==> DiffersAt(a[1..], b[1..], i - 1)
  {
    assert a[..i] == [a[0]] + a[1..][..i - 1] && b[..i] == [b[0]] + b[1..][..i - 1];
    assert a[1..][..i - 1] == a[..i][1..] && b[1..][..i - 1] == b[..i][1..];
  }

  /** The strings agree before position `i` and not in it. */
  predicate DiffersAt(a: string, b: string, i: nat)
    requires i < |a| && i < |b|
  {
    a[..i] == b[..i] && a[i] != b[i]
  }

  predicate IsLeast(m: string, s: set<string>) {
    m in s && forall x :: x in s ==> Below(m, x)
  }

  lemma {:induction false} LeastExists(s: set<string>) returns (m: string)
    requires s != {}
    ensures IsLeast(m, s)
    decreases s
  {
    m :| m in s;
    var rest := s - {m};
    BelowTotal(m, m);
    if rest != {} {
      var n := LeastExists(rest);
      BelowTotal(m, n);
      if Below(m, n) {
        forall x | x in rest ensures Below(m, x) { BelowTransitive(m, n, x); }
      } else {
        m := n;
      }
    }
    assert forall x :: x in s ==> x in rest || Below(m, x);
  }

  lemma LeastUnique(m: string, n: string, s: set<string>)
    requires IsLeast(m, s) && IsLeast(n, s)
    ensures m == n
  {
    BelowAntisymmetric(m, n);
  }

  function Least(s: set<string>): (m: string)
    requires s != {}
    ensures IsLeast(m, s)
  {
    assert exists m :: IsLeast(m, s) by { var m := LeastExists(s); }
    assert forall m, n :: IsLeast(m, s) && IsLeast(n, s) ==> m == n by {
      forall m, n | IsLeast(m, s) && IsLeast(n, s) ensures m == n { LeastUnique(m, n, s); }
    }
    var m :| m in s && IsLeast(m, s);
    m
  }

  ghost predicate Increasing(list: seq<string>) {
    forall i, j :: 0 <= i < j < |list| ==> Before(list[i], list[j])
  }

  /** `sorted(list(s))`. */
  function SortedList(s: set<string>): (list: seq<string>)
    ensures Increasing(list)
    ensures forall x :: x in list <==> x in s
    decreases s
  {
    if s == {} then []
    else
      var m := Least(s);
      [m] + SortedList(s - {m})
  }

  lemma {:induction false} SameMembersSameList(a: seq<string>, b: seq<string>)
    requires Increasing(a) && Increasing(b) && forall x :: x in a <==> x in b
    ensures a == b
  {
    assert (a != [] ==> a[0] in a) && (b != [] ==> b[0] in b);
    if a != [] && b != [] {
      FirstIsLeast(a, b[0]);
      FirstIsLeast(b, a[0]);
      BelowAntisymmetric(a[0], b[0]);
      forall x ensures x in a[1..] <==> x in b[1..] {
        RestIsOther(a, x);
        RestIsOther(b, x);
      }
      SameMembersSameList(a[1..], b[1..]);
    }
  }

  lemma FirstIsLeast(list: seq<string>, x: string)
    requires Increasing(list) && x in list
    ensures Below(list[0], x)
  {
    BelowTotal(x, x);
    var i :| 0 <= i < |list| && list[i] == x;
    if i > 0 { assert Before(list[0], list[i]); }
  }

  lemma RestIsOther(list: seq<string>, x: string)
    requires Increasing(list) && list != []
    ensures x in list[1..] <==> x in list && x != list[0]
  {
    if x in list[1..] {
      var i :| 0 <= i < |list| - 1 && list[1..][i] == x;
      assert Before(list[0], list[i + 1]);
    }
    assert list == [list[0]] + list[1..];
  }

  // Lower-casing ----------------------------------------------------------------------------------

  function LowerChar(c: char): (l: char)
    ensures !('A' <= l <= 'Z')
    ensures !('A' <= c <= 'Z') ==> l == c
  {
    if 'A' <= c <= 'Z' then (c as int + 32) as char else c
  }

  /** Letter by letter. */
  lemma LowerLetters(k: nat)
    requires k < 26
    ensures LowerChar("ABCDEFGHIJKLMNOPQRSTUVWXYZ"[k]) == "abcdefghijklmnopqrstuvwxyz"[k]
  {
    assert "ABCDEFGHIJKLMNOPQRSTUVWXYZ"[k] as int == 65 + k;
    assert "abcdefghijklmnopqrstuvwxyz"[k] as int == 97 + k;
  }

  function Lower(s: string): (l: string)
    ensures IsLower(l)
    ensures IsLower(s) ==> l == s
  {
    if s == "" then "" else [LowerChar(s[0])] + Lower(s[1..])
  }

  ghost predicate IsLower(s: string) {
    forall i :: 0 <= i < |s| ==> !('A' <= s[i] <= 'Z')
  }

  function LowerAll(ids: seq<string>): (l: seq<string>)
    ensures |l| == |ids|
    ensures forall i :: 0 <= i < |ids| ==> l[i] == Lower(ids[i])
  {
    seq(|ids|, i requires 0 <= i < |ids| => Lower(ids[i]))
  }
}
