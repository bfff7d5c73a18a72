/** A single line of text (editor/view/line.rs). In this version a line is a
    plain string indexed by byte offsets: its length is its byte length, and
    `Get` slices bytes, falling back to the empty string whenever Rust's
    checked `str::get` would refuse the range. */
module Lines {
  import opened Wrappers
  import opened Usize
  import opened Bytes

  datatype Line = Line(text: seq<byte>)

  /** A UTF-8 continuation byte (0b10xx_xxxx) never starts a character */
  predicate IsContinuation(b: byte) {
    0x80 <= b < 0xC0
  }

  /** `str::is_char_boundary`: offset `i` starts a character or is the end of
      the string; offsets past the end are not boundaries. */
  predicate IsCharBoundary(s: seq<byte>, i: nat) {
    i == 0 || i == |s| || (i < |s| && !IsContinuation(s[i]))
  }

  /** `str::get(start..end)`: the slice when the range is ordered and both
      ends are character boundaries inside the string, None otherwise. */
  function StrGet(s: seq<byte>, start: nat, end: nat): (r: Option<seq<byte>>)
    ensures r.Some? <==> start <= end && IsCharBoundary(s, start) && IsCharBoundary(s, end)
    ensures r.Some? ==> end <= |s| && r.value == s[start..end]
  {
    if start <= end && IsCharBoundary(s, start) && IsCharBoundary(s, end) then
      Some(s[start..end])
    else
      None
  }

  /** `Line::from`: wraps a copy of the text; the whole line reads it back */
  function From(text: seq<byte>): (line: Line)
    ensures Length(line) == |text|
    ensures Get(line, 0, Length(line)) == text
  {
    Line(text)
  }

  /** `Line::length`: the byte length */
  function Length(line: Line): nat {
    |line.text|
  }

  /** `Line::get(start..end)`: clamps the end to the line's length, then slices;
      any range `str::get` refuses yields the empty string. */
  function Get(line: Line, start: nat, end: nat): (r: seq<byte>)
    ensures var stop := Min(end, Length(line));
      r != [] ==> start < stop && r == line.text[start..stop]
    ensures |r| <= Length(line) && (start <= end ==> |r| <= end - start)
    ensures start > Min(end, Length(line)) ==> r == []
    ensures !IsCharBoundary(line.text, start) || !IsCharBoundary(line.text, Min(end, Length(line))) ==> r == []
    ensures var stop := Min(end, Length(line));
      start <= stop && IsCharBoundary(line.text, start) && IsCharBoundary(line.text, stop) ==>
        r == line.text[start..stop]
  {
    StrGet(line.text, start, Min(end, Length(line))).GetOr([])
  }

  /** Only the end bound is clamped: an end past the line behaves as the line's end */
  lemma GetClampsEnd(line: Line, start: nat, end: nat)
    requires end >= Length(line)
    ensures Get(line, start, end) == Get(line, start, Length(line))
  {
  }

  /** An empty range always reads as the empty string, wherever it lies */
  lemma GetEmptyRange(line: Line, at: nat)
    ensures Get(line, at, at) == []
  {
  }

  /** Two adjacent in-range slices concatenate to the slice spanning both */
  lemma GetAdjacent(line: Line, a: nat, b: nat, c: nat)
    requires a <= b <= c <= Length(line)
    requires IsCharBoundary(line.text, a) && IsCharBoundary(line.text, b) && IsCharBoundary(line.text, c)
    ensures Get(line, a, b) + Get(line, b, c) == Get(line, a, c)
  {
    assert line.text[a..c] == line.text[a..b] + line.text[b..c];
  }
}
