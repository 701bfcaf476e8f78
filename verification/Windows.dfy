/** Where the windows of a chunked file lie, told from the options alone, and what text the chunks are made of. */
module ChunkWindows {
  import opened Optionals
  import opened JsText
  import opened Chunker
  import CodeStructure

  // ---------- where windows lie ----------

  lemma NextStart(stride: nat, i: nat)
    ensures (i + 1) * stride == stride + i * stride
  {
  }

  /** The i-th window of a range of lines. */
  predicate IsWindow(span: Span, i: nat, start: nat, end: nat, n: nat, stride: nat) {
    span.from == start + i * stride && span.to == Min(start + i * stride + n, end)
  }

  /** Nothing but white space. */
  predicate Blank(lines: seq<string>, span: Span)
    requires span.from <= span.to <= |lines|
  {
    Trim(Join(lines[span.from..span.to])) == ""
  }

  /**
   * The spans are the windows of lines[start..end]: the next one starts `stride` lines further on, the last one reaches
   * the end, and one that reaches the end is followed by another only in a whole file, when it is blank and the next
   * starts inside the file.
   */
  ghost predicate AreWindows(spans: seq<Span>, lines: seq<string>, start: nat, end: nat, n: nat, stride: nat,
                             wholeFile: bool)
  {
    && spans != [] && Within(spans, |lines|)
    && (forall i :: 0 <= i < |spans| ==> IsWindow(spans[i], i, start, end, n, stride) && spans[i].from < end)
    && spans[|spans| - 1].to == end
    && (forall i :: 0 <= i < |spans| - 1 && spans[i].to == end ==> wholeFile && Blank(lines, spans[i]))
    && (wholeFile && Blank(lines, spans[|spans| - 1]) ==> start + |spans| * stride >= end)
  }

  lemma {:induction false} WindowsAre(lines: seq<string>, start: nat, end: nat, n: nat, stride: nat, wholeFile: bool)
    requires start < end <= |lines| && 1 <= stride <= n
    ensures AreWindows(Windows(lines, start, end, n, stride, wholeFile), lines, start, end, n, stride, wholeFile)
    decreases end - start
  {
    hide Trim, Join, AreWindows;
    var first := Span(start, Min(start + n, end));
    var stops := start + n >= end && !(wholeFile && Blank(lines, first));
    if stops || start + stride >= end {
      OneWindow(lines, start, end, n, stride, wholeFile);
    } else {
      var rest := Windows(lines, start + stride, end, n, stride, wholeFile);
      WindowsAre(lines, start + stride, end, n, stride, wholeFile);
      OneMoreWindow(rest, lines, start, end, n, stride, wholeFile);
    }
  }

  lemma OneWindow(lines: seq<string>, start: nat, end: nat, n: nat, stride: nat, wholeFile: bool)
    requires start < end <= |lines| && 1 <= stride <= n
    requires start + stride >= end || (start + n >= end && !(wholeFile && Blank(lines, Span(start, end))))
    ensures AreWindows([Span(start, Min(start + n, end))], lines, start, end, n, stride, wholeFile)
  {
    hide Blank;
  }

  lemma OneMoreWindow(rest: seq<Span>, lines: seq<string>, start: nat, end: nat, n: nat, stride: nat, wholeFile: bool)
    requires start + stride < end <= |lines| && 1 <= stride <= n
    requires AreWindows(rest, lines, start + stride, end, n, stride, wholeFile)
    requires start + n >= end ==> wholeFile && Blank(lines, Span(start, end))
    ensures AreWindows([Span(start, Min(start + n, end))] + rest, lines, start, end, n, stride, wholeFile)
  {
    hide Blank;
    var spans := [Span(start, Min(start + n, end))] + rest;
    NextStart(stride, |rest|);
    forall i | 0 <= i < |spans|
      ensures IsWindow(spans[i], i, start, end, n, stride) && spans[i].from < end
    {
      if i > 0 {
        NextStart(stride, i - 1);
        assert IsWindow(rest[i - 1], i - 1, start + stride, end, n, stride);
      }
    }
  }

  // ---------- the windows of a file, from its options ----------

  /** The lines of one chunk, and how many of them two windows share. */
  function ChunkLines(domain: Domain, o: Options): nat {
    match domain
    case TextDomain => o.textChunkLines
    case CodeDomain => o.codeChunkLines
  }

  function Overlap(n: nat, o: Options): (v: nat)
    requires n >= 1
    ensures v < n
  {
    if o.overlapLines < n then o.overlapLines else n - 1
  }

  /**
   * A file that is not cut by structure: window i begins at line i * (n - v) and has n lines, or those there are; the
   * last one reaches the end; and two windows in a row share exactly v lines, or those there are.
   */
  lemma WindowsOverlap(lines: seq<string>, domain: Domain, dialect: Option<CodeStructure.Dialect>, o: Options)
    requires lines != [] && ChunkLines(domain, o) >= 1
    requires domain.TextDomain? || !o.codeStructureAware || dialect.None?
    ensures var n := ChunkLines(domain, o);
      var v := Overlap(n, o);
      var spans := FileSpans(lines, domain, dialect, o);
      && AreWindows(spans, lines, 0, |lines|, n, n - v, true)
      && (forall i :: 0 <= i < |spans| - 1 ==> spans[i].to == Min(spans[i + 1].from + v, |lines|))
  {
    var n := ChunkLines(domain, o);
    var v := Overlap(n, o);
    hide Windows, Plan, AreWindows, FileSpans;
    SpansAreWindows(lines, domain, dialect, o);
    WindowsAre(lines, 0, |lines|, n, n - v, true);
    SharedLines(FileSpans(lines, domain, dialect, o), lines, n, v);
  }

  lemma SpansAreWindows(lines: seq<string>, domain: Domain, dialect: Option<CodeStructure.Dialect>, o: Options)
    requires lines != [] && ChunkLines(domain, o) >= 1
    requires domain.TextDomain? || !o.codeStructureAware || dialect.None?
    ensures var n := ChunkLines(domain, o);
      FileSpans(lines, domain, dialect, o) == Windows(lines, 0, |lines|, n, n - Overlap(n, o), true)
  {
    hide Windows, Plan;
  }

  lemma SharedLines(spans: seq<Span>, lines: seq<string>, n: nat, v: nat)
    requires v < n && AreWindows(spans, lines, 0, |lines|, n, n - v, true)
    ensures forall i :: 0 <= i < |spans| - 1 ==> spans[i].to == Min(spans[i + 1].from + v, |lines|)
  {
    hide Blank;
    forall i | 0 <= i < |spans| - 1
      ensures spans[i].to == Min(spans[i + 1].from + v, |lines|)
    {
      NextStart(n - v, i);
      assert IsWindow(spans[i], i, 0, |lines|, n, n - v) && IsWindow(spans[i + 1], i + 1, 0, |lines|, n, n - v);
    }
  }

  // ---------- the windows of an oversized unit ----------

  lemma WindowsWithin(lines: seq<string>, start: nat, end: nat, n: nat, stride: nat)
    requires start < end <= |lines| && 1 <= stride <= n
    ensures forall i :: 0 <= i < |Windows(lines, start, end, n, stride, false)| ==>
      start <= Windows(lines, start, end, n, stride, false)[i].from
        && Windows(lines, start, end, n, stride, false)[i].to <= end
  {
    hide Windows, Blank;
    WindowsAre(lines, start, end, n, stride, false);
    var spans := Windows(lines, start, end, n, stride, false);
    forall i | 0 <= i < |spans|
      ensures start <= spans[i].from && spans[i].to <= end
    {
      assert IsWindow(spans[i], i, start, end, n, stride);
    }
  }

  /** Before and after one unit, the plan stays out of it. */
  ghost predicate Between(spans: seq<Span>, from: nat, to: nat) {
    forall i :: 0 <= i < |spans| ==> from <= spans[i].from && spans[i].to <= to
  }

  lemma EmittedBetween(lines: seq<string>, start: nat, end: nat, from: nat, n: nat, stride: nat)
    requires from <= start < end <= |lines| && 1 <= stride <= n
    ensures Between(Emitted(lines, start, end, from, n, stride), from, end)
    ensures Between(Emitted(lines, start, end, from, n, stride), from, NextFrom(lines, start, end, from, n))
    ensures from <= NextFrom(lines, start, end, from, n)
  {
    hide Windows, Fits;
    WindowsWithin(lines, start, end, n, stride);
  }

  lemma {:induction false} PlanFromOn(lines: seq<string>, starts: seq<nat>, k: nat, from: nat, n: nat, stride: nat)
    requires Starts(starts, |lines|) && k <= |starts| && from <= Edge(starts, |lines|, k) && 1 <= stride <= n
    ensures Between(Plan(lines, starts, k, from, n, stride), from, |lines|)
    decreases |starts| - k
  {
    hide Fits, Windows, Emitted, NextFrom;
    if k < |starts| {
      var start, end := starts[k], Edge(starts, |lines|, k + 1);
      PlanStep(lines, starts, k, from, n, stride);
      var next := NextFrom(lines, start, end, from, n);
      EmittedBetween(lines, start, end, from, n, stride);
      PlanFromOn(lines, starts, k + 1, next, n, stride);
      hide Plan;
      assert Plan(lines, starts, k, from, n, stride) ==
        Emitted(lines, start, end, from, n, stride) + Plan(lines, starts, k + 1, next, n, stride);
    }
  }

  /** The windows of unit j are spans p to q of the plan, and nothing else of the plan touches the unit. */
  ghost predicate HoldsWindows(spans: seq<Span>, p: nat, q: nat, lines: seq<string>, start: nat, end: nat, n: nat,
                               stride: nat)
  {
    && p <= q <= |spans|
    && AreWindows(spans[p..q], lines, start, end, n, stride, false)
    && (forall i :: 0 <= i < p ==> spans[i].to <= start)
    && (forall i :: q <= i < |spans| ==> end <= spans[i].from)
  }

  lemma HoldsLater(front: seq<Span>, spans: seq<Span>, p: nat, q: nat, lines: seq<string>, start: nat, end: nat, n: nat,
                   stride: nat)
    requires HoldsWindows(spans, p, q, lines, start, end, n, stride)
    requires forall i :: 0 <= i < |front| ==> front[i].to <= start
    ensures HoldsWindows(front + spans, |front| + p, |front| + q, lines, start, end, n, stride)
  {
    hide AreWindows;
    assert (front + spans)[|front| + p..|front| + q] == spans[p..q];
  }

  lemma HoldsNow(front: seq<Span>, own: seq<Span>, back: seq<Span>, lines: seq<string>, start: nat, end: nat, n: nat,
                 stride: nat)
    requires AreWindows(own, lines, start, end, n, stride, false)
    requires (forall i :: 0 <= i < |front| ==> front[i].to <= start) && Between(back, end, |lines|)
    ensures HoldsWindows(front + own + back, |front|, |front| + |own|, lines, start, end, n, stride)
  {
    hide AreWindows;
    assert (front + own + back)[|front|..|front| + |own|] == own;
  }

  lemma {:induction false} PlanOfUnit(lines: seq<string>, starts: seq<nat>, k: nat, from: nat, n: nat, stride: nat,
                                      j: nat)
    returns (p: nat, q: nat)
    requires Starts(starts, |lines|) && k <= j < |starts| && from <= Edge(starts, |lines|, k) && 1 <= stride <= n
    requires starts[j] < Edge(starts, |lines|, j + 1) && !Fits(lines, starts[j], Edge(starts, |lines|, j + 1), n)
    ensures HoldsWindows(Plan(lines, starts, k, from, n, stride), p, q, lines, starts[j],
                         Edge(starts, |lines|, j + 1), n, stride)
    decreases |starts| - k
  {
    hide Fits, Windows, Plan, HoldsWindows, AreWindows;
    var start, end := starts[k], Edge(starts, |lines|, k + 1);
    PlanStep(lines, starts, k, from, n, stride);
    EdgesRise(starts, |lines|, k, k + 1);
    var next := NextFrom(lines, start, end, from, n);
    var emitted := Emitted(lines, start, end, from, n, stride);
    if k == j {
      var own := Windows(lines, start, end, n, stride, false);
      WindowsAre(lines, start, end, n, stride, false);
      PlanFromOn(lines, starts, k + 1, end, n, stride);
      HoldsNow(Flushed(from, start), own, Plan(lines, starts, k + 1, end, n, stride), lines, start, end, n, stride);
      p, q := |Flushed(from, start)|, |Flushed(from, start)| + |own|;
    } else {
      EdgesRise(starts, |lines|, k + 1, j);
      EmittedBetween(lines, start, end, from, n, stride);
      p, q := PlanOfUnit(lines, starts, k + 1, next, n, stride, j);
      HoldsLater(emitted, Plan(lines, starts, k + 1, next, n, stride), p, q, lines, starts[j],
                 Edge(starts, |lines|, j + 1), n, stride);
      p, q := |emitted| + p, |emitted| + q;
    }
  }

  /**
   * A file cut by structure: a unit of more than n lines, or of more than 8000 characters, is emitted as its own
   * windows, n lines long and sharing v, from its first line to its last, and no other span touches it.
   */
  lemma OversizedUnitIsWindowed(lines: seq<string>, d: CodeStructure.Dialect, o: Options, j: nat)
    returns (p: nat, q: nat)
    requires lines != [] && o.codeStructureAware && o.codeChunkLines >= 1
    requires j < |CodeStructure.UnitBoundaries(lines, d)|
    requires var (start, end) := Unit(lines, d, j);
      end - start > o.codeChunkLines || |Join(lines[start..end])| >= 8000
    ensures var (start, end) := Unit(lines, d, j);
      HoldsWindows(FileSpans(lines, CodeDomain, Some(d), o), p, q, lines, start, end, o.codeChunkLines,
                   o.codeChunkLines - Overlap(o.codeChunkLines, o))
  {
    hide Fits, Windows, Plan, HoldsWindows, AreWindows, Join;
    CodeStructure.BoundariesPartition(lines, d);
    var starts := CodeStructure.UnitBoundaries(lines, d);
    var (start, end) := Unit(lines, d, j);
    EdgesRise(starts, |lines|, j, j + 1);
    TooLong(lines, start, end, o.codeChunkLines);
    p, q := PlanOfUnit(lines, starts, 0, 0, o.codeChunkLines, o.codeChunkLines - Overlap(o.codeChunkLines, o), j);
  }

  /** The first line of a unit, and the line after its last. */
  function Unit(lines: seq<string>, d: CodeStructure.Dialect, j: nat): (u: (nat, nat))
    requires lines != [] && j < |CodeStructure.UnitBoundaries(lines, d)|
    ensures u.0 < u.1 <= |lines|
  {
    CodeStructure.BoundariesPartition(lines, d);
    var starts := CodeStructure.UnitBoundaries(lines, d);
    (starts[j], if j + 1 < |starts| then starts[j + 1] else |lines|)
  }

  lemma TooLong(lines: seq<string>, start: nat, end: nat, n: nat)
    requires start < end <= |lines|
    ensures Fits(lines, start, end, n) <==> end - start <= n && |Join(lines[start..end])| < 8000
  {
    JoinIsShort(lines[start..end]);
    CharsOfSlice(lines, start, end, end);
  }

  // ---------- the text of a chunk ----------

  /** The i-th piece of a text that is cut every `max` characters. */
  function Piece(text: string, i: nat, max: nat): string {
    if i * max < |text| then Trim(text[i * max..Min(i * max + max, |text|)]) else ""
  }

  /** Those of the first n pieces that are not blank. */
  function Pieces(text: string, n: nat, max: nat): seq<string> {
    if n == 0 then []
    else Pieces(text, n - 1, max) + if Piece(text, n - 1, max) == "" then [] else [Piece(text, n - 1, max)]
  }

  /** What the loop has cut off after n turns, and what is left to cut. */
  lemma {:induction false} SlicesGoOn(text: string, n: nat, max: nat)
    requires max > 0
    ensures Slices(text, max) == Pieces(text, n, max) + Slices(text[Min(n * max, |text|)..], max)
  {
    hide Trim, Slices, Piece;
    if n == 0 {
      SlicesEnds(text, max);
      assert n * max == 0;
    } else {
      SlicesGoOn(text, n - 1, max);
      NextStart(max, n - 1);
      OneTurn(text, n - 1, (n - 1) * max, max);
    }
  }

  lemma OneTurn(text: string, n: nat, i: nat, max: nat)
    requires max > 0 && i == n * max
    ensures var piece := Piece(text, n, max);
      Slices(text[Min(i, |text|)..], max) ==
      (if piece == "" then [] else [piece]) + Slices(text[Min(i + max, |text|)..], max)
  {
    hide Trim, Slices;
    if i < |text| {
      SlicesStep(text, i, max);
    }
  }

  /** A long text is cut into its slices of `max` characters, trimmed, without the blank ones. */
  lemma SlicesArePieces(text: string, n: nat, max: nat)
    requires max > 0 && n * max >= |text|
    ensures Slices(text, max) == Pieces(text, n, max)
  {
    hide Trim, Slices, Pieces;
    SlicesGoOn(text, n, max);
    SlicesEnds(text, max);
  }

  /**
   * The chunks of a span, whose lines are joined and trimmed: nothing if it is blank, one chunk up to 8000 characters,
   * and the pieces of 8000 characters of a longer one.
   */
  lemma ChunksOfSpan(slice: seq<string>, n: nat)
    requires n * 8000 >= |Trim(Join(slice))|
    ensures var text := Trim(Join(slice));
      TextsOf(slice) ==
      if text == "" then [] else if |text| <= 8000 then [text] else Pieces(text, n, 8000)
  {
    SlicesArePieces(Trim(Join(slice)), n, MAX_CHUNK_CHARS);
    hide Trim, Join, Slices, Pieces;
  }

  // ---------- the lines of a text ----------

  /** A text written line by line, each line but the last ended by a newline with or without a carriage return. */
  function Written(lines: seq<string>, crlf: seq<bool>): string
    requires |crlf| == |lines|
  {
    if lines == [] then ""
    else if |lines| == 1 then lines[0]
    else lines[0] + (if crlf[0] then "\r\n" else "\n") + Written(lines[1..], crlf[1..])
  }

  predicate IsLine(line: string) {
    '\n' !in line && (line == "" || line[|line| - 1] != '\r')
  }

  lemma {:induction false} FirstNewlineIs(s: string, at: nat, i: nat)
    requires at <= i < |s| && s[i] == '\n' && forall k :: at <= k < i ==> s[k] != '\n'
    ensures FirstNewline(s, at) == i
    decreases i - at
  {
    if at < i {
      FirstNewlineIs(s, at + 1, i);
    }
  }

  lemma {:induction false} NoNewline(s: string, at: nat)
    requires at <= |s| && forall k :: at <= k < |s| ==> s[k] != '\n'
    ensures FirstNewline(s, at) == |s|
    decreases |s| - at
  {
    if at < |s| {
      NoNewline(s, at + 1);
    }
  }

  /** Whatever the line endings, the lines written are the lines a file is split into. */
  lemma {:induction false} SplitOfWritten(lines: seq<string>, crlf: seq<bool>)
    requires lines != [] && |crlf| == |lines|
    requires forall i :: 0 <= i < |lines| ==> IsLine(lines[i])
    ensures SplitLines(Written(lines, crlf)) == lines
  {
    hide FirstNewline, SplitLines;
    var s := Written(lines, crlf);
    SplitLinesStep(s);
    assert IsLine(lines[0]);
    if |lines| == 1 {
      NoNewline(s, 0);
    } else {
      var rest := Written(lines[1..], crlf[1..]);
      var head := lines[0] + if crlf[0] then "\r" else "";
      assert s == head + "\n" + rest;
      SplitOfWritten(lines[1..], crlf[1..]);
      FirstNewlineIs(s, 0, |head|);
      assert s[|head| + 1..] == rest && s[..|head|] == head && head[..|lines[0]|] == lines[0];
      assert lines[0] != "" ==> s[|lines[0]| - 1] == lines[0][|lines[0]| - 1];
      assert s[..|lines[0]|] == lines[0];
      assert SplitLines(s) == [SplitLines(s)[0]] + SplitLines(s)[1..] && lines == [lines[0]] + lines[1..];
    }
  }

  /** So the text of a span is split into its own lines again. */
  lemma {:induction false} JoinIsWritten(lines: seq<string>, crlf: seq<bool>)
    requires |crlf| == |lines| && forall i :: 0 <= i < |lines| ==> !crlf[i]
    ensures Join(lines) == Written(lines, crlf)
  {
    if |lines| > 1 {
      JoinIsWritten(lines[1..], crlf[1..]);
    }
  }

  lemma SplitOfJoin(lines: seq<string>)
    requires lines != [] && forall i :: 0 <= i < |lines| ==> IsLine(lines[i])
    ensures SplitLines(Join(lines)) == lines
  {
    hide SplitLines, Join, Written, IsLine;
    var crlf := seq(|lines|, i => false);
    JoinIsWritten(lines, crlf);
    SplitOfWritten(lines, crlf);
  }
}
