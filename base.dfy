/** Small shared vocabulary: optional values, bytes, and Go's byte length of a string. */
module Base {

  datatype Option<+T> = None | Some(value: T)

  /** A Go `byte`. */
  type Byte = b: int | 0 <= b < 256

  /** Number of bytes that character `c` takes in UTF-8. */
  function Utf8Width(c: char): (n: nat)
    ensures 1 <= n <= 4
    ensures n == 1 <==> c as int < 0x80
  {
    if c as int < 0x80 then 1
    else if c as int < 0x800 then 2
    else if c as int < 0x10000 then 3
    else 4
  }

  /**
   * Go's `len(s)` on a string: the number of bytes of its UTF-8 encoding.
   * Every character takes at least one and at most four bytes, and a string of
   * ASCII characters has exactly as many bytes as characters.
   */
  function Utf8Length(s: string): (n: nat)
    ensures |s| <= n <= 4 * |s|
    ensures (forall i :: 0 <= i < |s| ==> s[i] as int < 0x80) ==> n == |s|
  {
    if s == [] then 0 else Utf8Width(s[0]) + Utf8Length(s[1..])
  }
}
