/** Turning the bytes a modem sent into lines, and the line tests the AT
    engine applies to them. */
module Lines {
  import opened Wrappers

  type byte = x: int | 0 <= x < 256

  /** Every character of s is ASCII. */
  predicate IsAscii(s: string)
  {
    forall i :: 0 <= i < |s| ==> s[i] as int < 128
  }

  /** bytes.decode("ascii", errors='ignore'): bytes 128 and above vanish. */
  function AsciiDecode(buf: seq<byte>): (s: string)
    ensures |s| <= |buf|
    ensures IsAscii(s)
    ensures |buf| == 1 ==> s == (if buf[0] < 128 then [buf[0] as char] else "")
    ensures (forall i :: 0 <= i < |buf| ==> buf[i] < 128) ==> AsciiEncode(s) == Some(buf)
  {
    if |buf| == 0 then ""
    else
      var head, tail := if buf[0] < 128 then [buf[0] as char] else "", AsciiDecode(buf[1..]);
      assert (forall i :: 0 <= i < |buf| ==> buf[i] < 128) ==>
        && (forall i :: 0 <= i < |buf[1..]| ==> buf[1..][i] < 128)
        && (head + tail)[1..] == tail
        && AsciiEncode(head + tail) == Some([buf[0]] + buf[1..])
        && [buf[0]] + buf[1..] == buf;
      head + tail
  }

  /** Decoding works byte by byte: the decoding of a concatenation is the
      concatenation of the decodings, so every ASCII byte is kept in place
      and only bytes from 128 up vanish. */
  lemma {:induction false} AsciiDecodeAppend(a: seq<byte>, b: seq<byte>)
    ensures AsciiDecode(a + b) == AsciiDecode(a) + AsciiDecode(b)
    decreases |a|
  {
    if |a| == 0 {
      assert a + b == b;
    } else {
      assert (a + b)[1..] == a[1..] + b;
      AsciiDecodeAppend(a[1..], b);
    }
  }

  /** str.encode("ascii"): fails on any character above 127. */
  function AsciiEncode(s: string): (r: Option<seq<byte>>)
    ensures r.Some? <==> IsAscii(s)
    ensures r.Some? ==> |r.value| == |s| && forall i :: 0 <= i < |s| ==> r.value[i] == s[i] as int
  {
    if |s| == 0 then Some([])
    else if s[0] as int >= 128 then None
    else match AsciiEncode(s[1..])
      case Some(rest) => Some([s[0] as int] + rest)
      case None => None
  }

  /** The ASCII line boundaries of str.splitlines: LF, CR, VT, FF, FS, GS, RS. */
  predicate IsBoundary(c: char)
  {
    c == '\n' || c == '\r' || c as int == 0x0B || c as int == 0x0C || 0x1C <= c as int <= 0x1E
  }

  /** A single line: no boundary character anywhere. */
  predicate NoBoundary(s: string)
  {
    forall i :: 0 <= i < |s| ==> !IsBoundary(s[i])
  }

  /** Length of the longest boundary-free prefix. */
  function LineEnd(s: string): (k: nat)
    ensures k <= |s| && NoBoundary(s[..k])
    ensures k < |s| ==> IsBoundary(s[k])
  {
    if |s| == 0 || IsBoundary(s[0]) then 0
    else
      var k := 1 + LineEnd(s[1..]);
      assert s[..k] == [s[0]] + s[1..][..k - 1];
      k
  }

  /** str.splitlines() on ASCII text: lines without their terminators, CR LF
      counting as one terminator, and no empty line after a final one. */
  function SplitLines(s: string): (lines: seq<string>)
    ensures forall i :: 0 <= i < |lines| ==> NoBoundary(lines[i])
    ensures |s| > 0 && NoBoundary(s) ==> lines == [s]
    ensures |s| == 0 <==> |lines| == 0
    decreases |s|
  {
    if |s| == 0 then []
    else
      var k := LineEnd(s);
      if k == |s| then [s]
      else
        var next := if s[k] == '\r' && k + 1 < |s| && s[k + 1] == '\n' then k + 2 else k + 1;
        [s[..k]] + SplitLines(s[next..])
  }

  /** A line followed by its terminator starts the split of any text. */
  lemma SplitTerminatedLine(line: string, terminator: string, rest: string)
    requires NoBoundary(line)
    requires terminator == "\r\n" || (|terminator| == 1 && IsBoundary(terminator[0]))
    requires terminator == "\r" ==> |rest| == 0 || rest[0] != '\n'
    ensures SplitLines(line + terminator + rest) == [line] + SplitLines(rest)
  {
    var s := line + terminator + rest;
    assert s[..|line|] == line;
    LineEndOf(line, s);
    var next := |line| + |terminator|;
    assert s[next..] == rest;
  }

  /** A boundary-free prefix followed by a boundary is where the first line
      ends. */
  lemma {:induction false} LineEndOf(line: string, s: string)
    requires NoBoundary(line) && |line| < |s| && s[..|line|] == line && IsBoundary(s[|line|])
    ensures LineEnd(s) == |line|
    decreases |line|
  {
    if |line| > 0 {
      assert !IsBoundary(line[0]);
      LineEndOf(line[1..], s[1..]);
    }
  }

  /** The two line tests the AT engine uses: the whole line, or its start. */
  datatype Matcher = Exact(text: string) | StartsWith(prefix: string)

  /** The callback returns the line itself on a hit, and Python only counts a
      non-empty returned line as a match. */
  predicate Accepts(m: Matcher, line: string)
  {
    |line| > 0 &&
    match m
    case Exact(text) => line == text
    case StartsWith(prefix) => prefix <= line
  }

  /** The callbacks hand the line back and the engine tests the result for
      truth, so an empty line is never an answer, not even to an empty
      prefix, which otherwise accepts every line. */
  lemma EmptyLineIgnored(m: Matcher, line: string)
    ensures |line| == 0 ==> !Accepts(m, line)
    ensures m == StartsWith("") ==> (Accepts(m, line) <==> |line| > 0)
    ensures m.Exact? && Accepts(m, line) ==> line == m.text
  {
  }

  /** The first line the matcher accepts, if any. */
  function FirstMatch(lines: seq<string>, m: Matcher): (r: Option<string>)
    ensures r.Some? ==> r.value in lines && Accepts(m, r.value)
    ensures r.Some? ==> exists i :: 0 <= i < |lines| && lines[i] == r.value &&
                          forall j :: 0 <= j < i ==> !Accepts(m, lines[j])
    ensures r.None? <==> forall i :: 0 <= i < |lines| ==> !Accepts(m, lines[i])
  {
    if |lines| == 0 then None
    else if Accepts(m, lines[0]) then Some(lines[0])
    else
      var r := FirstMatch(lines[1..], m);
      if r.Some? then
        ghost var i :| 0 <= i < |lines[1..]| && lines[1..][i] == r.value &&
          forall j :: 0 <= j < i ==> !Accepts(m, lines[1..][j]);
        assert lines[i + 1] == r.value;
        r
      else r
  }

  /** sub occurs in s starting at position i. */
  predicate OccursAt(s: string, sub: string, i: int)
  {
    0 <= i <= |s| - |sub| && s[i..i + |sub|] == sub
  }

  /** Python's `sub in s`. */
  predicate Contains(s: string, sub: string)
  {
    exists i :: 0 <= i <= |s| && OccursAt(s, sub, i)
  }
}
