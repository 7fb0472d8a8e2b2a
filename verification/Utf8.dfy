/** What `String::from_utf8` accepts: the well-formed octet sequences of section 4 of RFC 3629. */
module Utf8 {
  import opened Bytes

  predicate Tail(b: byte) {
    0x80 <= b <= 0xBF
  }

  /** Length of the well-formed character at the front of `b`, or 0. */
  function CharLen(b: Bytes): (n: nat)
    ensures n <= |b|
  {
    if b == [] then 0
    else if b[0] <= 0x7F then 1
    else if |b| < 2 || !Tail(b[1]) then 0
    else if 0xC2 <= b[0] <= 0xDF then 2
    else if |b| < 3 || !Tail(b[2]) then 0
    else if (b[0] == 0xE0 && b[1] >= 0xA0) || (b[0] == 0xED && b[1] <= 0x9F)
         || 0xE1 <= b[0] <= 0xEC || 0xEE <= b[0] <= 0xEF then 3
    else if |b| < 4 || !Tail(b[3]) then 0
    else if (b[0] == 0xF0 && b[1] >= 0x90) || 0xF1 <= b[0] <= 0xF3
         || (b[0] == 0xF4 && b[1] <= 0x8F) then 4
    else 0
  }

  predicate Valid(b: Bytes)
    decreases |b|
  {
    b == [] || (CharLen(b) > 0 && Valid(b[CharLen(b)..]))
  }
}
