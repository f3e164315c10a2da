/** What several components share: outcomes, bytes, lists of names and blank strings. */
module Common {

  datatype Option<+T> = None | Some(value: T)

  datatype Result<+T, +E> = Ok(value: T) | Err(error: E)

  /** One octet, kept as a bounded integer so that the little-endian codecs are plain arithmetic. */
  type byte = b: int | 0 <= b < 256

  /** No element occurs twice. */
  ghost predicate Distinct<T>(s: seq<T>) {
    forall i, j :: 0 <= i < j < |s| ==> s[i] != s[j]
  }

  ghost function NameSet(names: seq<string>): set<string> {
    set n | n in names
  }

  /** `strip` leaves nothing of `s` (ASCII white space). */
  predicate Blank(s: string) {
    forall c :: c in s ==> c in [' ', '\t', '\n', '\r', '\U{0B}', '\U{0C}']
  }
}
