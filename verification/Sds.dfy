/** The parts of the dynamic string library the other components lean on. */
module Sds {

  const SDS_MAX_PREALLOC := 1024 * 1024

  /** Free space after making room for `addlen` more bytes in a string of `len` bytes. */
  function MakeRoomFor(len: nat, avail: nat, addlen: nat): (avail': nat)
    ensures addlen <= avail'
    ensures addlen <= avail ==> avail' == avail
    ensures addlen > avail && len + addlen < 1048576 ==> len + avail' == 2 * (len + addlen)
    ensures addlen > avail && len + addlen >= 1048576 ==> len + avail' == len + addlen + 1048576
  {
    if addlen <= avail then avail
    else
      var newlen := len + addlen;
      (if newlen < SDS_MAX_PREALLOC then 2 * newlen else newlen + SDS_MAX_PREALLOC) - len
  }

  /** A position counted from the front; negative ones count from the end. */
  function Position(i: int, len: nat): int {
    if i < 0 then len + i else i
  }

  /**
   The substring from `start` to `end`, both included. What lies beyond either end is
   cut off, except that a range in front of a non-empty string yields its first byte.
   */
  function Range(s: string, start: int, end: int): (r: string)
    ensures s == "" ==> r == ""
    ensures var a, b := Position(start, |s|), Position(end, |s|);
            && (0 <= a <= b < |s| ==> r == s[a..b + 1])
            && (0 <= a <= |s| <= b ==> r == s[a..])
            && (a < 0 <= b < |s| ==> r == s[..b + 1])
            && (a < 0 && |s| <= b ==> r == s)
            && (a >= |s| || (0 < a && b < a) ==> r == "")
            && (a <= 0 && b < 0 && s != "" ==> r == s[..1])
  {
    var len := |s|;
    if len == 0 then ""
    else
      var start := if start < 0 then (if len + start < 0 then 0 else len + start) else start;
      var end := if end < 0 then (if len + end < 0 then 0 else len + end) else end;
      if start > end || start >= len then ""
      else
        var end := if end >= len then len - 1 else end;
        s[start..end + 1]
  }
}
