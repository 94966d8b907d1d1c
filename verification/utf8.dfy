/** Well-formed UTF-8 as defined in section 4 of RFC 3629, which is what
    Rust's `str::from_utf8` accepts. A descriptor record's name is kept as
    its UTF-8 bytes; this predicate is the check the decoder makes on them. */
module Utf8 {
  import opened Bytes

  predicate IsTail(b: byte) {
    0x80 <= b <= 0xBF
  }

  /** Length of the well-formed sequence that starts `s`, or 0 when `s`
      does not start with one. */
  function LeadWidth(s: seq<byte>): (w: nat)
    ensures w <= |s|
    ensures w <= 4
  {
    if |s| == 0 then 0
    else if s[0] <= 0x7F then 1
    else if 0xC2 <= s[0] <= 0xDF then
      if |s| >= 2 && IsTail(s[1]) then 2 else 0
    else if 0xE0 <= s[0] <= 0xEF then
      if |s| < 3 || !IsTail(s[2]) then 0
      else if s[0] == 0xE0 then (if 0xA0 <= s[1] <= 0xBF then 3 else 0)
      else if s[0] == 0xED then (if 0x80 <= s[1] <= 0x9F then 3 else 0)
      else if IsTail(s[1]) then 3 else 0
    else if 0xF0 <= s[0] <= 0xF4 then
      if |s| < 4 || !IsTail(s[2]) || !IsTail(s[3]) then 0
      else if s[0] == 0xF0 then (if 0x90 <= s[1] <= 0xBF then 4 else 0)
      else if s[0] == 0xF4 then (if 0x80 <= s[1] <= 0x8F then 4 else 0)
      else if IsTail(s[1]) then 4 else 0
    else 0
  }

  predicate ValidUtf8(s: seq<byte>)
    decreases |s|
  {
    |s| == 0 || (LeadWidth(s) > 0 && ValidUtf8(s[LeadWidth(s)..]))
  }
}
