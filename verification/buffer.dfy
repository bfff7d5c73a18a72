/** The text buffer (editor/view/buffer.rs): the lines of a file, in order.
    Loading splits the file's contents the way Rust's `str::lines` does: the
    text is cut after every '\n', the '\n' is removed, and then one '\r'
    directly before it is removed too; a last line without '\n' is kept as is
    (including a trailing '\r'), and a final '\n' does not start a new line. */
module Buffers {
  import opened Wrappers
  import opened Bytes

  datatype Buffer = Buffer(lines: seq<seq<byte>>)

  /** The reason reading the file failed; opaque to the editor */
  datatype IoError = IoError(kind: nat)

  /** `Buffer::default`: no lines */
  function Default(): (b: Buffer)
    ensures IsEmpty(b)
    ensures forall b': Buffer :: IsEmpty(b') ==> b' == b
  {
    Buffer([])
  }

  /** `Buffer::is_empty` */
  predicate IsEmpty(b: Buffer) {
    |b.lines| == 0
  }

  function Last(s: seq<byte>): byte
    requires |s| > 0
  {
    s[|s| - 1]
  }

  /** The number of occurrences of `x` in `s` */
  function Count(s: seq<byte>, x: byte): nat {
    multiset(s)[x]
  }

  /** The position of the first `x` in `s` */
  function FirstIndex(s: seq<byte>, x: byte): (k: nat)
    requires x in s
    ensures k < |s| && s[k] == x && x !in s[..k]
  {
    if s[0] == x then 0 else 1 + FirstIndex(s[1..], x)
  }

  /** Removes one trailing '\r', if any */
  function StripCR(s: seq<byte>): seq<byte> {
    if |s| > 0 && Last(s) == CR then s[..|s| - 1] else s
  }

  /** `str::lines`, collected into a vector */
  function SplitLines(text: seq<byte>): (lines: seq<seq<byte>>)
    ensures forall i :: 0 <= i < |lines| ==> LF !in lines[i]
    ensures |lines| == Count(text, LF) + (if |text| > 0 && Last(text) != LF then 1 else 0)
    decreases |text|
  {
    if |text| == 0 then []
    else if LF !in text then [text]
    else
      var k := FirstIndex(text, LF);
      assert text == text[..k] + [LF] + text[k + 1..];
      [StripCR(text[..k])] + SplitLines(text[k + 1..])
  }

  /** `Buffer::load`, given the outcome of reading the whole file as text: a
      failed read is passed on and no buffer is built; otherwise there is one
      entry per line of the file, none holding a line terminator, and the
      buffer is empty exactly when the file is. */
  function Load(contents: Result<seq<byte>, IoError>): (r: Result<Buffer, IoError>)
    ensures contents.Failure? ==> r == Failure(contents.error)
    ensures contents.Success? ==> r.Success?
    ensures contents.Success? ==> r.value.lines == SplitLines(contents.value)
    ensures contents.Success? ==> (IsEmpty(r.value) <==> |contents.value| == 0)
    ensures contents.Success? ==> forall i :: 0 <= i < |r.value.lines| ==> LF !in r.value.lines[i]
  {
    match contents
    case Failure(e) => Failure(e)
    case Success(text) => Success(Buffer(SplitLines(text)))
  }

  /** Each line followed by "\n" */
  function JoinLF(lines: seq<seq<byte>>): seq<byte> {
    if |lines| == 0 then [] else lines[0] + [LF] + JoinLF(lines[1..])
  }

  /** Each line followed by "\r\n" */
  function JoinCRLF(lines: seq<seq<byte>>): seq<byte> {
    if |lines| == 0 then [] else lines[0] + [CR, LF] + JoinCRLF(lines[1..])
  }

  lemma FirstIndexOfPrefix(line: seq<byte>, rest: seq<byte>)
    requires LF !in line
    ensures FirstIndex(line + [LF] + rest, LF) == |line|
  {
    var s := line + [LF] + rest;
    var k := FirstIndex(s, LF);
    assert forall j :: 0 <= j < |line| ==> s[j] == line[j];
    assert s[|line|] == LF;
  }

  /** The first line of a text is everything up to its first '\n', less one '\r' */
  lemma SplitFirstLine(line: seq<byte>, rest: seq<byte>)
    requires LF !in line
    ensures SplitLines(line + [LF] + rest) == [StripCR(line)] + SplitLines(rest)
  {
    var s := line + [LF] + rest;
    assert s[|line|] == LF;
    FirstIndexOfPrefix(line, rest);
    assert s[..|line|] == line;
    assert s[|line| + 1..] == rest;
  }

  /** A "\r\n" terminator is removed whole */
  lemma CRLFTerminatorRemoved(line: seq<byte>, rest: seq<byte>)
    requires LF !in line
    ensures SplitLines(line + [CR, LF] + rest) == [line] + SplitLines(rest)
  {
    assert line + [CR, LF] + rest == (line + [CR]) + [LF] + rest;
    SplitFirstLine(line + [CR], rest);
    assert StripCR(line + [CR]) == line;
  }

  /** Lines without terminators, each written with "\n", split back into the
      same lines (a line may not end in '\r', which would be taken as part of
      a "\r\n" terminator). */
  lemma {:induction false} SplitJoinLF(lines: seq<seq<byte>>)
    requires forall i :: 0 <= i < |lines| ==> LF !in lines[i]
    requires forall i :: 0 <= i < |lines| ==> |lines[i]| == 0 || Last(lines[i]) != CR
    ensures SplitLines(JoinLF(lines)) == lines
    decreases |lines|
  {
    if |lines| > 0 {
      var first, others := lines[0], lines[1..];
      var rest := JoinLF(others);
      assert JoinLF(lines) == first + [LF] + rest;
      SplitFirstLine(first, rest);
      assert StripCR(first) == first;
      forall i | 0 <= i < |others|
        ensures LF !in others[i] && (|others[i]| == 0 || Last(others[i]) != CR)
      {
        assert others[i] == lines[i + 1];
      }
      SplitJoinLF(others);
      assert lines == [first] + others;
    }
  }

  /** Lines without '\n', each written with "\r\n", split back into the same
      lines, whatever '\r' they hold. */
  lemma {:induction false} SplitJoinCRLF(lines: seq<seq<byte>>)
    requires forall i :: 0 <= i < |lines| ==> LF !in lines[i]
    ensures SplitLines(JoinCRLF(lines)) == lines
    decreases |lines|
  {
    if |lines| > 0 {
      var first, others := lines[0], lines[1..];
      var rest := JoinCRLF(others);
      assert JoinCRLF(lines) == first + [CR, LF] + rest;
      CRLFTerminatorRemoved(first, rest);
      assert forall i :: 0 <= i < |others| ==> LF !in others[i] by {
        forall i | 0 <= i < |others| ensures LF !in others[i] {
          assert others[i] == lines[i + 1];
        }
      }
      SplitJoinCRLF(others);
      assert lines == [first] + others;
    }
  }

  /** No '\r' directly precedes a '\n' */
  predicate NoCRBeforeLF(text: seq<byte>) {
    forall i :: 0 < i < |text| && text[i] == LF ==> text[i - 1] != CR
  }

  /** Splitting at a '\n' keeps the line free of a trailing '\r' and the rest
      free of "\r\n" */
  lemma NoCRBeforeLFParts(line: seq<byte>, rest: seq<byte>)
    requires NoCRBeforeLF(line + [LF] + rest)
    ensures StripCR(line) == line
    ensures NoCRBeforeLF(rest)
  {
    var text := line + [LF] + rest;
    var k := |line|;
    assert text[k] == LF;
    if k > 0 {
      assert Last(line) == text[k - 1];
    }
    forall i | 0 < i < |rest| && rest[i] == LF
      ensures rest[i - 1] != CR
    {
      assert rest[i] == text[k + 1 + i] && rest[i - 1] == text[k + i];
    }
  }

  /** A '\n'-terminated text in which no '\r' precedes a '\n' is rebuilt by
      writing each of its lines followed by "\n". */
  lemma {:induction false} JoinSplitLF(text: seq<byte>)
    requires NoCRBeforeLF(text)
    requires |text| == 0 || Last(text) == LF
    ensures JoinLF(SplitLines(text)) == text
    decreases |text|
  {
    if |text| > 0 {
      var k := FirstIndex(text, LF);
      var line, rest := text[..k], text[k + 1..];
      assert text == line + [LF] + rest;
      SplitFirstLine(line, rest);
      NoCRBeforeLFParts(line, rest);
      if |rest| > 0 {
        assert Last(rest) == Last(text);
      }
      JoinSplitLF(rest);
    }
  }

  /** A final '\n' after a last line not ending in '\r' adds no empty line */
  lemma {:induction false} FinalTerminatorOptional(text: seq<byte>)
    requires |text| > 0 && Last(text) != LF && Last(text) != CR
    ensures SplitLines(text + [LF]) == SplitLines(text)
    decreases |text|
  {
    if LF !in text {
      assert SplitLines(text + [LF]) == [StripCR(text)] + SplitLines([]) by {
        SplitFirstLine(text, []);
        assert text + [LF] + [] == text + [LF];
      }
    } else {
      var k := FirstIndex(text, LF);
      var line, rest := text[..k], text[k + 1..];
      assert text == line + [LF] + rest;
      assert text + [LF] == line + [LF] + (rest + [LF]);
      SplitFirstLine(line, rest);
      SplitFirstLine(line, rest + [LF]);
      assert |rest| > 0 && Last(rest) == Last(text);
      FinalTerminatorOptional(rest);
    }
  }
}
