/** The seams between top-level declarations of a code file. */
module CodeStructure {
  import opened JsText

  /** One language's line tests; the regular expressions themselves are not modelled. */
  datatype Dialect = Dialect(declares: string -> bool, closes: string -> bool, comments: string -> bool,
                             annotates: string -> bool)

  predicate Indented(line: string) {
    line != "" && IsBlank(line[0])
  }

  predicate AttachesDown(line: string, d: Dialect) {
    d.comments(line) || d.annotates(line)
  }

  /** A line that starts a unit: a declaration, or any other top-level line that opens a fresh block. */
  predicate IsAnchor(lines: seq<string>, i: nat, d: Dialect)
    requires i < |lines|
  {
    var trimmed := TrimEnd(lines[i]);
    && i > 0
    && !Indented(lines[i])
    && trimmed != ""
    && !d.closes(trimmed)
    && !d.comments(trimmed)
    && (d.declares(trimmed) || Trim(lines[i - 1]) == "")
  }

  /** A top-level comment or attribute, which belongs to the line below it. */
  predicate IsAttached(line: string, d: Dialect) {
    !Indented(line) && TrimEnd(line) != "" && AttachesDown(TrimEnd(line), d)
  }

  /** The top of the run of attached lines directly above a line; line 0 is never walked onto. */
  function WalkBack(lines: seq<string>, at: nat, d: Dialect): (start: nat)
    requires at < |lines|
    ensures start <= at
    ensures at > 0 ==> start > 0
  {
    if at > 1 && IsAttached(lines[at - 1], d) then WalkBack(lines, at - 1, d) else at
  }

  function Boundaries(lines: seq<string>, d: Dialect): (b: set<nat>) {
    {0} + set a | 0 <= a < |lines| && IsAnchor(lines, a, d) :: WalkBack(lines, a, d)
  }

  /** The members of a set below n, ascending. */
  function Sorted(s: set<nat>, n: nat): (sorted: seq<nat>)
    ensures forall x :: x in sorted <==> x in s && x < n
    ensures forall i :: 0 <= i < |sorted| ==> sorted[i] < n
    ensures forall i, j :: 0 <= i < j < |sorted| ==> sorted[i] < sorted[j]
  {
    if n == 0 then []
    else if n - 1 in s then Sorted(s, n - 1) + [n - 1]
    else Sorted(s, n - 1)
  }

  function UnitBoundaries(lines: seq<string>, d: Dialect): seq<nat> {
    Sorted(Boundaries(lines, d), |lines|)
  }

  method FindUnitBoundaries(lines: seq<string>, d: Dialect) returns (starts: seq<nat>)
    requires lines != []
    ensures starts == UnitBoundaries(lines, d)
  {
    var anchors: seq<nat> := [];
    for i := 1 to |lines|
      invariant forall a :: a in anchors <==> 0 < a < i && IsAnchor(lines, a, d)
      invariant forall j :: 0 <= j < |anchors| ==> 0 < anchors[j] < |lines|
    {
      var line := lines[i];
      if Indented(line) {
        continue;
      }
      var trimmed := TrimEnd(line);
      if trimmed == "" || d.closes(trimmed) || d.comments(trimmed) {
        continue;
      }
      var prevBlank := Trim(lines[i - 1]) == "";
      if !d.declares(trimmed) && !prevBlank {
        continue;
      }
      anchors := anchors + [i];
    }
    var boundaries: set<nat> := {0};
    for k := 0 to |anchors|
      invariant boundaries == {0} + set j | 0 <= j < k :: WalkBack(lines, anchors[j], d)
    {
      assert anchors[k] in anchors;
      var start := anchors[k];
      while start > 1
        invariant 0 < start <= anchors[k]
        invariant WalkBack(lines, start, d) == WalkBack(lines, anchors[k], d)
      {
        var above := TrimEnd(lines[start - 1]);
        if Indented(lines[start - 1]) || above == "" || !AttachesDown(above, d) {
          break;
        }
        start := start - 1;
      }
      assert start == WalkBack(lines, anchors[k], d);
      boundaries := boundaries + {start};
    }
    assert boundaries == Boundaries(lines, d) by {
      forall a | 0 <= a < |lines| && IsAnchor(lines, a, d)
        ensures WalkBack(lines, a, d) in boundaries
      {
        assert a in anchors;
        var j :| 0 <= j < |anchors| && anchors[j] == a;
      }
      forall j | 0 <= j < |anchors|
        ensures WalkBack(lines, anchors[j], d) in Boundaries(lines, d)
      {
        assert anchors[j] in anchors;
      }
    }
    starts := Sorted(boundaries, |lines|);
  }

  /**
   * The boundaries cut the file into whole, non-empty units: they start at 0, rise strictly, and stay inside the
   * file.
   */
  lemma BoundariesPartition(lines: seq<string>, d: Dialect)
    requires lines != []
    ensures var starts := UnitBoundaries(lines, d);
      && starts != [] && starts[0] == 0
      && (forall i, j :: 0 <= i < j < |starts| ==> starts[i] < starts[j])
      && (forall i :: 0 <= i < |starts| ==> starts[i] < |lines|)
      && (forall a :: 0 <= a < |lines| && IsAnchor(lines, a, d) ==> WalkBack(lines, a, d) in starts)
  {
    var starts := UnitBoundaries(lines, d);
    assert 0 in Boundaries(lines, d);
    assert 0 in starts;
    var k :| 0 <= k < |starts| && starts[k] == 0;
    forall a | 0 <= a < |lines| && IsAnchor(lines, a, d)
      ensures WalkBack(lines, a, d) in starts
    {
      assert WalkBack(lines, a, d) in Boundaries(lines, d);
    }
  }

  /** Every line of a run walks back to the top of that run. */
  lemma {:induction false} SameRun(lines: seq<string>, a: nat, x: nat, d: Dialect)
    requires a < |lines| && WalkBack(lines, a, d) <= x <= a
    ensures WalkBack(lines, x, d) == WalkBack(lines, a, d)
  {
    if x < a {
      SameRun(lines, a - 1, x, d);
    }
  }

  /** The run above a line: all attached, and the line above its top is not (or is line 0). */
  lemma {:induction false} RunIsMaximal(lines: seq<string>, a: nat, d: Dialect)
    requires a < |lines|
    ensures var start := WalkBack(lines, a, d);
      && (forall i :: start <= i < a ==> IsAttached(lines[i], d))
      && (start > 1 ==> !IsAttached(lines[start - 1], d))
  {
    if a > 1 && IsAttached(lines[a - 1], d) {
      RunIsMaximal(lines, a - 1, d);
    }
  }

  lemma RunToTop(lines: seq<string>, a: nat, b: nat, d: Dialect)
    requires 0 < b <= a < |lines|
    requires (forall i :: b <= i < a ==> IsAttached(lines[i], d)) && (b > 1 ==> !IsAttached(lines[b - 1], d))
    ensures WalkBack(lines, a, d) == b
    decreases a - b
  {
    if b < a {
      RunToTop(lines, a - 1, b, d);
    }
  }

  /** A line that is not indented, and is a comment or an attribute. */
  predicate IsTopComment(line: string, d: Dialect) {
    && TrimEnd(line) != "" && line[0] != ' ' && line[0] != '\t'
    && (d.comments(TrimEnd(line)) || d.annotates(TrimEnd(line)))
  }

  /** Line a is not indented, blank, a comment or a closing line, and declares something or follows a blank line. */
  predicate OpensUnit(lines: seq<string>, d: Dialect, a: nat)
    requires 0 < a < |lines|
  {
    var text := TrimEnd(lines[a]);
    && text != "" && lines[a][0] != ' ' && lines[a][0] != '\t'
    && !d.closes(text) && !d.comments(text)
    && (d.declares(text) || Trim(lines[a - 1]) == "")
  }

  /** Line b is the first of the comments and attributes directly above line a, or line a itself if there are none. */
  ghost predicate IsHead(lines: seq<string>, d: Dialect, a: nat, b: nat)
    requires 0 < b <= a < |lines|
  {
    && (forall i :: b <= i < a ==> IsTopComment(lines[i], d))
    && (b > 1 ==> !IsTopComment(lines[b - 1], d))
  }

  /** Where units start, by the lines alone: at line 0, and at the head of every later line that opens one. */
  lemma BoundaryIff(lines: seq<string>, d: Dialect, b: nat)
    requires lines != []
    ensures b in UnitBoundaries(lines, d) <==>
      b == 0 || exists a: nat :: 0 < b <= a < |lines| && OpensUnit(lines, d, a) && IsHead(lines, d, a, b)
  {
    hide Boundaries, WalkBack, Sorted, IsTopComment, IsHead, OpensUnit, IsAnchor, UnitBoundaries;
    BoundaryMembers(lines, d, b);
    forall a: nat | 0 < b <= a < |lines|
      ensures WalkBack(lines, a, d) == b <==> IsHead(lines, d, a, b)
      ensures IsAnchor(lines, a, d) <==> OpensUnit(lines, d, a)
    {
      HeadIff(lines, d, a, b);
      OpensIff(lines, d, a);
    }
  }

  lemma OpensIff(lines: seq<string>, d: Dialect, a: nat)
    requires 0 < a < |lines|
    ensures IsAnchor(lines, a, d) <==> OpensUnit(lines, d, a)
  {
  }

  lemma TopCommentIff(line: string, d: Dialect)
    ensures IsTopComment(line, d) <==> IsAttached(line, d)
  {
  }

  lemma HeadIff(lines: seq<string>, d: Dialect, a: nat, b: nat)
    requires 0 < b <= a < |lines|
    ensures WalkBack(lines, a, d) == b <==> IsHead(lines, d, a, b)
  {
    hide WalkBack, IsTopComment, IsAttached;
    forall i | 0 <= i < |lines|
      ensures IsTopComment(lines[i], d) <==> IsAttached(lines[i], d)
    {
      TopCommentIff(lines[i], d);
    }
    RunIsMaximal(lines, a, d);
    if IsHead(lines, d, a, b) {
      RunToTop(lines, a, b, d);
    }
  }

  lemma BoundaryMembers(lines: seq<string>, d: Dialect, b: nat)
    requires lines != []
    ensures b in UnitBoundaries(lines, d) <==>
      b == 0 || exists a: nat :: 0 < b <= a < |lines| && IsAnchor(lines, a, d) && WalkBack(lines, a, d) == b
  {
    hide IsAnchor;
    if b in UnitBoundaries(lines, d) && b != 0 {
      var a :| 0 <= a < |lines| && IsAnchor(lines, a, d) && WalkBack(lines, a, d) == b;
    }
  }

  /**
   * A declaration keeps the comments and attributes above it, even when those are anchors themselves: no boundary falls
   * inside the run above any line that starts a unit, nor between the run and the line.
   */
  lemma AnchorKeepsItsRun(lines: seq<string>, a: nat, b: nat, d: Dialect)
    requires a < |lines| && IsAnchor(lines, a, d)
    requires b in UnitBoundaries(lines, d)
    ensures !(WalkBack(lines, a, d) < b <= a)
  {
    assert b in Boundaries(lines, d);
    if b != 0 && WalkBack(lines, a, d) <= b <= a {
      var other :| 0 <= other < |lines| && IsAnchor(lines, other, d) && WalkBack(lines, other, d) == b;
      SameRun(lines, other, b, d);
      SameRun(lines, a, b, d);
    }
  }
}

/** Cutting a file into chunks: overlapping windows, or whole declarations packed greedily under two budgets. */
module Chunker {
  import opened Optionals
  import opened JsText
  import CodeStructure

  const MAX_CHUNK_CHARS: nat := 8000

  datatype Domain = TextDomain | CodeDomain
  datatype Chunk = Chunk(domain: Domain, text: string, position: nat)

  /** A run of lines that becomes one emission. */
  datatype Span = Span(from: nat, to: nat)

  function Min(a: nat, b: nat): nat {
    if a < b then a else b
  }

  // ---------- text of a span ----------

  function Join(lines: seq<string>): string {
    if lines == [] then ""
    else if |lines| == 1 then lines[0]
    else lines[0] + "\n" + Join(lines[1..])
  }

  /** hardSplit: slices of at most max characters, trimmed, blank ones dropped. */
  function Slices(text: string, max: nat): (pieces: seq<string>)
    requires max > 0
    ensures forall p :: p in pieces ==> 0 < |p| <= max
    decreases |text|
  {
    if text == "" then []
    else
      var cut := Min(|text|, max);
      var piece := Trim(text[..cut]);
      (if piece == "" then [] else [piece]) + Slices(text[cut..], max)
  }

  function HardSplit(text: string, max: nat): seq<string>
    requires max > 0
  {
    if |text| <= max then [text] else Slices(text, max)
  }

  function TextsOf(slice: seq<string>): (texts: seq<string>)
    ensures forall t :: t in texts ==> 0 < |t| <= MAX_CHUNK_CHARS
  {
    var text := Trim(Join(slice));
    if text == "" then [] else HardSplit(text, MAX_CHUNK_CHARS)
  }

  predicate Within(spans: seq<Span>, n: nat) {
    forall i :: 0 <= i < |spans| ==> spans[i].from <= spans[i].to <= n
  }

  function AllTexts(lines: seq<string>, spans: seq<Span>): (texts: seq<string>)
    requires Within(spans, |lines|)
    ensures forall t :: t in texts ==> 0 < |t| <= MAX_CHUNK_CHARS
  {
    if spans == [] then []
    else
      var last := spans[|spans| - 1];
      AllTexts(lines, spans[..|spans| - 1]) + TextsOf(lines[last.from..last.to])
  }

  function Numbered(domain: Domain, texts: seq<string>): (chunks: seq<Chunk>)
    ensures |chunks| == |texts|
    ensures forall i :: 0 <= i < |chunks| ==> chunks[i] == Chunk(domain, texts[i], i)
  {
    seq(|texts|, i requires 0 <= i < |texts| => Chunk(domain, texts[i], i))
  }

  lemma NumberedSnoc(domain: Domain, texts: seq<string>, text: string)
    ensures Numbered(domain, texts + [text]) == Numbered(domain, texts) + [Chunk(domain, text, |texts|)]
  {
  }

  lemma SlicesUnfold(text: string, max: nat)
    requires max > 0 && text != ""
    ensures var cut := Min(|text|, max);
      var piece := Trim(text[..cut]);
      Slices(text, max) == (if piece == "" then [] else [piece]) + Slices(text[cut..], max)
  {
    hide Trim;
  }

  lemma SlicesStep(text: string, i: nat, max: nat)
    requires max > 0 && i < |text|
    ensures var end := Min(i + max, |text|);
      var piece := Trim(text[i..end]);
      Slices(text[i..], max) == (if piece == "" then [] else [piece]) + Slices(text[end..], max)
  {
    hide Trim, Slices;
    var end := Min(i + max, |text|);
    SlicesUnfold(text[i..], max);
    assert text[i..][..end - i] == text[i..end] && text[i..][end - i..] == text[end..];
  }

  lemma SlicesEnds(text: string, max: nat)
    requires max > 0
    ensures Slices(text[0..], max) == Slices(text, max) && Slices(text[|text|..], max) == []
  {
    assert text[0..] == text;
  }

  method SplitHard(text: string, max: nat) returns (pieces: seq<string>)
    requires max > 0
    ensures pieces == HardSplit(text, max)
  {
    hide Slices, Trim;
    if |text| <= max {
      return [text];
    }
    SlicesEnds(text, max);
    pieces := [];
    var i := 0;
    while i < |text|
      invariant 0 <= i <= |text|
      invariant Slices(text, max) == pieces + Slices(text[i..], max)
      decreases |text| - i
    {
      SlicesStep(text, i, max);
      var end := Min(i + max, |text|);
      var piece := Trim(text[i..end]);
      if piece != "" {
        pieces := pieces + [piece];
      }
      i := end;
    }
  }

  /** The `out` array and `position` counter that the emit closures share. */
  class ChunkWriter {
    const domain: Domain
    var out: seq<Chunk>
    var position: nat
    ghost var texts: seq<string>

    ghost predicate Valid()
      reads this
    {
      out == Numbered(domain, texts) && position == |out|
    }

    constructor (domain: Domain)
      ensures Valid() && texts == [] && this.domain == domain
    {
      this.domain := domain;
      out, position, texts := [], 0, [];
    }

    method Emit(slice: seq<string>)
      requires Valid()
      modifies this
      ensures Valid() && texts == old(texts) + TextsOf(slice)
    {
      hide Trim, Join, HardSplit, Numbered;
      var text := Trim(Join(slice));
      if text == "" {
        assert texts + TextsOf(slice) == texts;
        return;
      }
      var pieces := SplitHard(text, MAX_CHUNK_CHARS);
      var k := 0;
      while k < |pieces|
        invariant 0 <= k <= |pieces|
        invariant Valid() && texts == old(texts) + pieces[..k]
      {
        NumberedSnoc(domain, texts, pieces[k]);
        out := out + [Chunk(domain, pieces[k], position)];
        position := position + 1;
        texts := texts + [pieces[k]];
        k := k + 1;
      }
      assert pieces[..k] == pieces;
    }
  }

  // ---------- windows ----------

  /**
   * The windows taken over lines[start..end]. The walk stops at the first window that reaches the end; in a whole file
   * a blank window does not stop it.
   */
  function Windows(lines: seq<string>, start: nat, end: nat, linesPerChunk: nat, stride: nat,
                   wholeFile: bool): (spans: seq<Span>)
    requires start <= end <= |lines| && stride > 0
    ensures Within(spans, |lines|)
    decreases end - start
  {
    if start == end then []
    else
      var span := Span(start, Min(start + linesPerChunk, end));
      var stops := start + linesPerChunk >= end && !(wholeFile && Trim(Join(lines[span.from..span.to])) == "");
      if stops || start + stride >= end then [span]
      else [span] + Windows(lines, start + stride, end, linesPerChunk, stride, wholeFile)
  }

  lemma AllTextsSnoc(lines: seq<string>, spans: seq<Span>, last: Span)
    requires Within(spans, |lines|) && last.from <= last.to <= |lines|
    ensures Within(spans + [last], |lines|)
    ensures AllTexts(lines, spans + [last]) == AllTexts(lines, spans) + TextsOf(lines[last.from..last.to])
  {
    hide TextsOf;
    assert (spans + [last])[..|spans|] == spans;
  }

  lemma {:induction false} AllTextsAppend(lines: seq<string>, a: seq<Span>, b: seq<Span>)
    requires Within(a, |lines|) && Within(b, |lines|)
    ensures Within(a + b, |lines|)
    ensures AllTexts(lines, a + b) == AllTexts(lines, a) + AllTexts(lines, b)
  {
    hide AllTexts, TextsOf;
    if b == [] {
      assert a + b == a;
      NoTexts(lines);
    } else {
      var front, last := b[..|b| - 1], b[|b| - 1];
      AllTextsAppend(lines, a, front);
      AllTextsSnoc(lines, front, last);
      AllTextsSnoc(lines, a + front, last);
      assert front + [last] == b && a + front + [last] == a + b;
    }
  }

  lemma AllTextsOne(lines: seq<string>, span: Span)
    requires span.from <= span.to <= |lines|
    ensures AllTexts(lines, [span]) == TextsOf(lines[span.from..span.to])
  {
    hide TextsOf;
    assert [span][..0] == [];
  }

  lemma WindowsStep(lines: seq<string>, start: nat, end: nat, linesPerChunk: nat, stride: nat, wholeFile: bool)
    requires start < end <= |lines| && stride > 0
    ensures var span := Span(start, Min(start + linesPerChunk, end));
      var slice := lines[span.from..span.to];
      var next := Min(start + stride, end);
      AllTexts(lines, Windows(lines, start, end, linesPerChunk, stride, wholeFile)) ==
      if start + linesPerChunk >= end && !(wholeFile && Trim(Join(slice)) == "") then TextsOf(slice)
      else TextsOf(slice) + AllTexts(lines, Windows(lines, next, end, linesPerChunk, stride, wholeFile))
  {
    hide AllTexts, TextsOf, Trim, Join;
    var span := Span(start, Min(start + linesPerChunk, end));
    AllTextsOne(lines, span);
    NoTexts(lines);
    if start + stride < end {
      AllTextsAppend(lines, [span], Windows(lines, start + stride, end, linesPerChunk, stride, wholeFile));
    }
  }

  method EmitWindows(w: ChunkWriter, lines: seq<string>, from: nat, end: nat, linesPerChunk: nat, stride: nat,
                     wholeFile: bool)
    requires w.Valid() && from <= end <= |lines| && stride > 0
    modifies w
    ensures w.Valid()
    ensures w.texts == old(w.texts) + AllTexts(lines, Windows(lines, from, end, linesPerChunk, stride, wholeFile))
  {
    hide AllTexts, TextsOf, Join, Trim, Windows;
    NoWindows(lines, end, linesPerChunk, stride, wholeFile);
    var start := from;
    while start < end
      invariant w.Valid() && from <= start <= end
      invariant old(w.texts) + AllTexts(lines, Windows(lines, from, end, linesPerChunk, stride, wholeFile))
                == w.texts + AllTexts(lines, Windows(lines, start, end, linesPerChunk, stride, wholeFile))
      decreases end - start
    {
      WindowsStep(lines, start, end, linesPerChunk, stride, wholeFile);
      var slice := lines[start..Min(start + linesPerChunk, end)];
      Regroup(w.texts, TextsOf(slice),
        AllTexts(lines, Windows(lines, Min(start + stride, end), end, linesPerChunk, stride, wholeFile)));
      w.Emit(slice);
      if start + linesPerChunk >= end && !(wholeFile && Trim(Join(slice)) == "") {
        return;
      }
      start := Min(start + stride, end);
    }
  }

  lemma Regroup(a: seq<string>, b: seq<string>, c: seq<string>)
    ensures a + (b + c) == a + b + c && a + [] == a
  {
  }

  lemma NoWindows(lines: seq<string>, end: nat, linesPerChunk: nat, stride: nat, wholeFile: bool)
    requires end <= |lines| && stride > 0
    ensures AllTexts(lines, Windows(lines, end, end, linesPerChunk, stride, wholeFile)) == []
  {
    NoTexts(lines);
  }

  lemma NoTexts(lines: seq<string>)
    ensures AllTexts(lines, []) == []
  {
  }

  // ---------- greedy packing of declarations ----------

  /** The characters of lines[from..to], each with its line break. */
  function Chars(lines: seq<string>, from: nat, to: nat): nat
    requires from <= to <= |lines|
  {
    if from == to then 0 else Chars(lines, from, to - 1) + |lines[to - 1]| + 1
  }

  lemma {:induction false} CharsSplit(lines: seq<string>, from: nat, mid: nat, to: nat)
    requires from <= mid <= to <= |lines|
    ensures Chars(lines, from, to) == Chars(lines, from, mid) + Chars(lines, mid, to)
  {
    if mid < to {
      CharsSplit(lines, from, mid, to - 1);
    }
  }

  predicate Fits(lines: seq<string>, from: nat, to: nat, linesPerChunk: nat)
    requires from <= to <= |lines|
  {
    to - from <= linesPerChunk && Chars(lines, from, to) <= MAX_CHUNK_CHARS
  }

  predicate Starts(starts: seq<nat>, n: nat) {
    && starts != [] && starts[0] == 0
    && (forall i, j :: 0 <= i < j < |starts| ==> starts[i] < starts[j])
    && (forall i :: 0 <= i < |starts| ==> starts[i] < n)
  }

  /** Where unit k starts, or the end of the file after the last unit. */
  function Edge(starts: seq<nat>, n: nat, k: nat): (e: nat)
    requires Starts(starts, n) && k <= |starts|
    ensures e <= n
  {
    if k < |starts| then starts[k] else n
  }

  lemma EdgesRise(starts: seq<nat>, n: nat, j: nat, k: nat)
    requires Starts(starts, n) && j <= k <= |starts|
    ensures Edge(starts, n, j) <= Edge(starts, n, k)
    ensures j < k ==> Edge(starts, n, j) < Edge(starts, n, k)
  {
  }

  lemma FirstEdge(starts: seq<nat>, n: nat)
    requires Starts(starts, n)
    ensures Edge(starts, n, 0) == 0
  {
  }

  function Flushed(from: nat, to: nat): (spans: seq<Span>)
    ensures forall i :: 0 <= i < |spans| ==> spans[i] == Span(from, to) && from < to
  {
    if from < to then [Span(from, to)] else []
  }

  /** The spans emitted from unit k on, while the pack being filled began at line `from`. */
  function Plan(lines: seq<string>, starts: seq<nat>, k: nat, from: nat, linesPerChunk: nat,
                stride: nat): (spans: seq<Span>)
    requires Starts(starts, |lines|) && k <= |starts| && from <= Edge(starts, |lines|, k) && stride > 0
    ensures Within(spans, |lines|)
    decreases |starts| - k
  {
    if k == |starts| then Flushed(from, |lines|)
    else
      EdgesRise(starts, |lines|, k, k + 1);
      var start, end := starts[k], Edge(starts, |lines|, k + 1);
      if !Fits(lines, start, end, linesPerChunk) then
        Flushed(from, start) + Windows(lines, start, end, linesPerChunk, stride, false)
        + Plan(lines, starts, k + 1, end, linesPerChunk, stride)
      else if from < start && !Fits(lines, from, end, linesPerChunk) then
        [Span(from, start)] + Plan(lines, starts, k + 1, start, linesPerChunk, stride)
      else Plan(lines, starts, k + 1, from, linesPerChunk, stride)
  }

  method CountChars(unit: seq<string>) returns (n: nat)
    ensures n == Chars(unit, 0, |unit|)
  {
    n := 0;
    for i := 0 to |unit|
      invariant n == Chars(unit, 0, i)
    {
      n := n + |unit[i]| + 1;
    }
  }

  lemma {:induction false} CharsOfSlice(lines: seq<string>, from: nat, to: nat, upto: nat)
    requires from <= upto <= to <= |lines|
    ensures Chars(lines[from..to], 0, upto - from) == Chars(lines, from, upto)
  {
    if from < upto {
      CharsOfSlice(lines, from, to, upto - 1);
    }
  }

  method Flush(w: ChunkWriter, buf: seq<string>, ghost lines: seq<string>, ghost from: nat, ghost to: nat)
    requires w.Valid() && from <= to <= |lines| && buf == lines[from..to]
    modifies w
    ensures w.Valid() && w.texts == old(w.texts) + AllTexts(lines, Flushed(from, to))
  {
    hide TextsOf, AllTexts;
    if |buf| > 0 {
      AllTextsOne(lines, Span(from, to));
      w.Emit(buf);
    } else {
      NoTexts(lines);
    }
  }

  /** What one unit makes the packer emit at once, and where the pack being filled begins after it. */
  function Emitted(lines: seq<string>, start: nat, end: nat, from: nat, linesPerChunk: nat,
                   stride: nat): (spans: seq<Span>)
    requires from <= start < end <= |lines| && stride > 0
    ensures Within(spans, |lines|)
  {
    if !Fits(lines, start, end, linesPerChunk) then
      Flushed(from, start) + Windows(lines, start, end, linesPerChunk, stride, false)
    else if !Fits(lines, from, end, linesPerChunk) then Flushed(from, start)
    else []
  }

  function NextFrom(lines: seq<string>, start: nat, end: nat, from: nat, linesPerChunk: nat): (next: nat)
    requires from <= start < end <= |lines|
    ensures next <= end
  {
    if !Fits(lines, start, end, linesPerChunk) then end
    else if !Fits(lines, from, end, linesPerChunk) then start
    else from
  }

  lemma PlanStep(lines: seq<string>, starts: seq<nat>, k: nat, from: nat, linesPerChunk: nat, stride: nat)
    requires Starts(starts, |lines|) && k < |starts| && from <= starts[k] && stride > 0
    ensures starts[k] < Edge(starts, |lines|, k + 1)
    ensures var start, end := starts[k], Edge(starts, |lines|, k + 1);
      Plan(lines, starts, k, from, linesPerChunk, stride) ==
      Emitted(lines, start, end, from, linesPerChunk, stride)
      + Plan(lines, starts, k + 1, NextFrom(lines, start, end, from, linesPerChunk), linesPerChunk, stride)
  {
    hide Windows, Fits;
    EdgesRise(starts, |lines|, k, k + 1);
  }

  lemma PlanEnd(lines: seq<string>, starts: seq<nat>, from: nat, linesPerChunk: nat, stride: nat)
    requires Starts(starts, |lines|) && from <= |lines| && stride > 0
    ensures Plan(lines, starts, |starts|, from, linesPerChunk, stride) == Flushed(from, |lines|)
  {
  }

  /** The buffer's budget test is the budget test of the span it would become. */
  lemma BudgetIsFits(lines: seq<string>, from: nat, start: nat, end: nat, linesPerChunk: nat)
    requires from <= start <= end <= |lines|
    ensures Chars(lines, from, end) == Chars(lines, from, start) + Chars(lines, start, end)
    ensures Fits(lines, start, end, linesPerChunk) <==>
            !(end - start > linesPerChunk || Chars(lines, start, end) > MAX_CHUNK_CHARS)
    ensures Fits(lines, from, end, linesPerChunk) <==>
            !((start - from) + (end - start) > linesPerChunk
              || Chars(lines, from, start) + Chars(lines, start, end) > MAX_CHUNK_CHARS)
  {
    CharsSplit(lines, from, start, end);
  }

  /** What a turn emits, and where the next pack begins, by the two budget tests. */
  lemma EmittedTexts(lines: seq<string>, start: nat, end: nat, from: nat, linesPerChunk: nat, stride: nat)
    requires from <= start < end <= |lines| && stride > 0
    ensures var texts := AllTexts(lines, Emitted(lines, start, end, from, linesPerChunk, stride));
      var next := NextFrom(lines, start, end, from, linesPerChunk);
      if !Fits(lines, start, end, linesPerChunk) then
        && next == end
        && texts == AllTexts(lines, Flushed(from, start))
                  + AllTexts(lines, Windows(lines, start, end, linesPerChunk, stride, false))
      else if !Fits(lines, from, end, linesPerChunk) then
        next == start && texts == AllTexts(lines, Flushed(from, start))
      else next == from && texts == []
  {
    hide AllTexts, Windows, Fits, Flushed;
    NoTexts(lines);
    AllTextsAppend(lines, Flushed(from, start), Windows(lines, start, end, linesPerChunk, stride, false));
  }

  /** One turn of the packing loop: the unit [start..end) joins the buffer, or the buffer is flushed first. */
  method PackUnit(w: ChunkWriter, buf: seq<string>, bufChars: nat, lines: seq<string>, start: nat, end: nat,
                  linesPerChunk: nat, stride: nat, ghost from: nat)
    returns (buf': seq<string>, bufChars': nat, ghost from': nat)
    requires w.Valid() && from <= start < end <= |lines| && stride > 0
    requires buf == lines[from..start] && bufChars == Chars(lines, from, start)
    modifies w
    ensures w.Valid()
    ensures from' <= end && buf' == lines[from'..end] && bufChars' == Chars(lines, from', end)
    ensures from' == NextFrom(lines, start, end, from, linesPerChunk)
    ensures w.texts == old(w.texts) + AllTexts(lines, Emitted(lines, start, end, from, linesPerChunk, stride))
  {
    hide AllTexts, Chars, Windows, Fits, Flushed, Emitted, NextFrom;
    NoChars(lines);
    BudgetIsFits(lines, from, start, end, linesPerChunk);
    CharsOfSlice(lines, start, end, end);
    EmittedTexts(lines, start, end, from, linesPerChunk, stride);
    var unit := lines[start..end];
    var unitChars := CountChars(unit);
    buf', bufChars', from' := buf, bufChars, from;
    if |unit| > linesPerChunk || unitChars > MAX_CHUNK_CHARS {
      Flush(w, buf, lines, from, start);
      EmitWindows(w, lines, start, end, linesPerChunk, stride, false);
      return [], 0, end;
    }
    if |buf'| > 0 && (|buf'| + |unit| > linesPerChunk || bufChars' + unitChars > MAX_CHUNK_CHARS) {
      Flush(w, buf', lines, from, start);
      buf', bufChars', from' := [], 0, start;
    }
    buf' := buf' + unit;
    bufChars' := bufChars' + unitChars;
  }

  method ChunkByStructure(lines: seq<string>, starts: seq<nat>, linesPerChunk: nat, stride: nat)
    returns (w: ChunkWriter)
    requires Starts(starts, |lines|) && stride > 0
    ensures w.Valid() && fresh(w) && w.domain == CodeDomain
    ensures w.texts == AllTexts(lines, Plan(lines, starts, 0, 0, linesPerChunk, stride))
  {
    hide AllTexts, Chars, Windows, Plan, Fits, Flushed, Emitted, NextFrom, Starts, Numbered;
    w := new ChunkWriter(CodeDomain);
    var buf: seq<string> := [];
    var bufChars: nat := 0;
    ghost var from: nat := 0;
    ghost var whole := AllTexts(lines, Plan(lines, starts, 0, 0, linesPerChunk, stride));
    NoChars(lines);
    FirstEdge(starts, |lines|);
    var b := 0;
    while b < |starts|
      invariant 0 <= b <= |starts| && from <= Edge(starts, |lines|, b)
      invariant w.Valid() && fresh(w) && w.domain == CodeDomain
      invariant buf == lines[from..Edge(starts, |lines|, b)]
      invariant bufChars == Chars(lines, from, Edge(starts, |lines|, b))
      invariant whole == w.texts + AllTexts(lines, Plan(lines, starts, b, from, linesPerChunk, stride))
    {
      PlanStep(lines, starts, b, from, linesPerChunk, stride);
      var end := if b + 1 < |starts| then starts[b + 1] else |lines|;
      ghost var emitted := Emitted(lines, starts[b], end, from, linesPerChunk, stride);
      ghost var next := NextFrom(lines, starts[b], end, from, linesPerChunk);
      AllTextsAppend(lines, emitted, Plan(lines, starts, b + 1, next, linesPerChunk, stride));
      buf, bufChars, from := PackUnit(w, buf, bufChars, lines, starts[b], end, linesPerChunk, stride, from);
      b := b + 1;
    }
    PlanEnd(lines, starts, from, linesPerChunk, stride);
    Flush(w, buf, lines, from, |lines|);
  }

  lemma NoChars(lines: seq<string>)
    ensures forall at :: 0 <= at <= |lines| ==> Chars(lines, at, at) == 0
  {
  }

  // ---------- the whole file ----------

  datatype Options = Options(textChunkLines: nat, codeChunkLines: nat, overlapLines: nat, maxFileBytes: nat,
                             codeStructureAware: bool)

  function FirstNewline(s: string, at: nat): (i: nat)
    requires at <= |s|
    ensures at <= i <= |s|
    ensures i == |s| || s[i] == '\n'
    decreases |s| - at
  {
    if at == |s| || s[at] == '\n' then at else FirstNewline(s, at + 1)
  }

  /** content.split(/\r?\n/) */
  function SplitLines(s: string): (lines: seq<string>)
    ensures lines != []
    decreases |s|
  {
    var i := FirstNewline(s, 0);
    if i == |s| then [s]
    else [if i > 0 && s[i - 1] == '\r' then s[..i - 1] else s[..i]] + SplitLines(s[i + 1..])
  }

  function LinesPerChunk(domain: Domain, o: Options): nat {
    if domain.CodeDomain? then o.codeChunkLines else o.textChunkLines
  }

  function Stride(linesPerChunk: nat, o: Options): (stride: nat)
    ensures stride >= 1
    ensures linesPerChunk >= 1 ==> stride <= linesPerChunk
  {
    var overlap := Min(o.overlapLines, if linesPerChunk > 0 then linesPerChunk - 1 else 0);
    if linesPerChunk - overlap > 1 then linesPerChunk - overlap else 1
  }

  /** The dialect by which a file is cut, if it is cut by structure. */
  function DialectUsed(domain: Domain, dialect: Option<CodeStructure.Dialect>,
                       o: Options): Option<CodeStructure.Dialect> {
    if domain.CodeDomain? && o.codeStructureAware then dialect else None
  }

  /** Every emission of a file. */
  function FileSpans(lines: seq<string>, domain: Domain, dialect: Option<CodeStructure.Dialect>,
                     o: Options): (spans: seq<Span>)
    requires lines != []
    ensures Within(spans, |lines|)
  {
    var n := LinesPerChunk(domain, o);
    match DialectUsed(domain, dialect, o)
    case None => Windows(lines, 0, |lines|, n, Stride(n, o), true)
    case Some(d) =>
      CodeStructure.BoundariesPartition(lines, d);
      Plan(lines, CodeStructure.UnitBoundaries(lines, d), 0, 0, n, Stride(n, o))
  }

  /** The kind of the file and the dialect of its extension are looked up from its path by the caller. */
  method ChunkFile(kind: Option<Domain>, dialect: Option<CodeStructure.Dialect>, content: string, o: Options)
    returns (out: seq<Chunk>)
    ensures out == if kind.None? || |content| > o.maxFileBytes || content == "" || '\0' in content then []
                   else var lines := SplitLines(content);
                        Numbered(kind.value, AllTexts(lines, FileSpans(lines, kind.value, dialect, o)))
  {
    hide AllTexts, Plan, Windows, Numbered;
    if kind.None? || |content| > o.maxFileBytes || content == "" || '\0' in content {
      return [];
    }
    var domain := kind.value;
    var lines := SplitLines(content);
    var linesPerChunk := LinesPerChunk(domain, o);
    var stride := Stride(linesPerChunk, o);
    match DialectUsed(domain, dialect, o) {
      case Some(d) =>
        var starts := CodeStructure.FindUnitBoundaries(lines, d);
        CodeStructure.BoundariesPartition(lines, d);
        var w := ChunkByStructure(lines, starts, linesPerChunk, stride);
        out := w.out;
      case None =>
        var w := new ChunkWriter(domain);
        EmitWindows(w, lines, 0, |lines|, linesPerChunk, stride, true);
        assert [] + w.texts == w.texts;
        out := w.out;
    }
  }

  // ---------- no text is lost ----------

  function Concat(texts: seq<string>): string {
    if texts == [] then "" else Concat(texts[..|texts| - 1]) + texts[|texts| - 1]
  }

  lemma {:induction false} ConcatAppend(a: seq<string>, b: seq<string>)
    ensures Concat(a + b) == Concat(a) + Concat(b)
  {
    if b == [] {
      assert a + b == a;
    } else {
      var front, last := b[..|b| - 1], b[|b| - 1];
      ConcatAppend(a, front);
      assert (a + b)[..|a + b| - 1] == a + front;
      assert Concat(a) + Concat(front) + last == Concat(a) + (Concat(front) + last);
    }
  }

  function InkLines(lines: seq<string>): string {
    if lines == [] then "" else Ink(lines[0]) + InkLines(lines[1..])
  }

  lemma {:induction false} InkLinesAppend(a: seq<string>, b: seq<string>)
    ensures InkLines(a + b) == InkLines(a) + InkLines(b)
  {
    hide Ink, InkLines;
    InkLinesStep(a);
    if a == [] {
      assert a + b == b;
    } else {
      InkLinesAppend(a[1..], b);
      InkLinesStep(a + b);
      assert (a + b)[0] == a[0] && (a + b)[1..] == a[1..] + b;
      assert Ink(a[0]) + (InkLines(a[1..]) + InkLines(b)) == Ink(a[0]) + InkLines(a[1..]) + InkLines(b);
    }
  }

  lemma InkLinesStep(lines: seq<string>)
    ensures InkLines(lines) == if lines == [] then "" else Ink(lines[0]) + InkLines(lines[1..])
  {
    hide Ink;
  }

  lemma InkOfBreak()
    ensures Ink("\n") == "" && Ink("\r") == "" && Ink("") == ""
  {
  }

  lemma {:induction false} InkOfJoin(lines: seq<string>)
    ensures Ink(Join(lines)) == InkLines(lines)
  {
    InkOfBreak();
    hide Ink;
    if |lines| == 1 {
      assert InkLines(lines) == Ink(lines[0]) + InkLines(lines[1..]);
      assert InkLines(lines[1..]) == "";
    } else if |lines| > 1 {
      InkOfJoin(lines[1..]);
      InkAppend(lines[0] + "\n", Join(lines[1..]));
      InkAppend(lines[0], "\n");
    }
  }

  lemma {:induction false} InkOfSlices(text: string, max: nat)
    requires max > 0
    ensures Ink(Concat(Slices(text, max))) == Ink(text)
    decreases |text|
  {
    hide Ink, Trim, Slices, Concat;
    InkOfBreak();
    ConcatOne("");
    if text == "" {
      SlicesEnds(text, max);
      assert text[|text|..] == text;
    } else {
      var cut := Min(|text|, max);
      var head, tail := text[..cut], text[cut..];
      var first := if Trim(head) == "" then [] else [Trim(head)];
      InkOfTrim(head);
      ConcatOne(Trim(head));
      InkOfSlices(tail, max);
      SlicesUnfold(text, max);
      ConcatAppend(first, Slices(tail, max));
      InkAppend(Concat(first), Concat(Slices(tail, max)));
      InkAppend(head, tail);
      assert head + tail == text;
    }
  }

  lemma ConcatOne(text: string)
    ensures Concat([text]) == text && Concat([]) == ""
  {
    assert [text][..0] == [];
  }

  lemma InkOfTextsOf(slice: seq<string>)
    ensures Ink(Concat(TextsOf(slice))) == InkLines(slice)
  {
    var text := Trim(Join(slice));
    InkOfBreak();
    InkOfTrim(Join(slice));
    InkOfJoin(slice);
    hide Ink, Trim, Join, Slices;
    ConcatOne(text);
    InkOfSlices(text, MAX_CHUNK_CHARS);
  }

  /** The text that a sequence of spans is made of. */
  function SpanInk(lines: seq<string>, spans: seq<Span>): string
    requires Within(spans, |lines|)
  {
    if spans == [] then ""
    else
      var last := spans[|spans| - 1];
      SpanInk(lines, spans[..|spans| - 1]) + InkLines(lines[last.from..last.to])
  }

  lemma {:induction false} SpanInkAppend(lines: seq<string>, a: seq<Span>, b: seq<Span>)
    requires Within(a, |lines|) && Within(b, |lines|)
    ensures SpanInk(lines, a + b) == SpanInk(lines, a) + SpanInk(lines, b)
  {
    hide InkLines;
    if b == [] {
      assert a + b == a;
    } else {
      var front, last := b[..|b| - 1], b[|b| - 1];
      SpanInkAppend(lines, a, front);
      assert (a + b)[..|a + b| - 1] == a + front;
      var ink := InkLines(lines[last.from..last.to]);
      assert SpanInk(lines, a) + SpanInk(lines, front) + ink == SpanInk(lines, a) + (SpanInk(lines, front) + ink);
    }
  }

  /** The chunks of any spans hold exactly the spans' text, whatever trimming and hard splits did. */
  lemma {:induction false} InkOfAllTexts(lines: seq<string>, spans: seq<Span>)
    requires Within(spans, |lines|)
    ensures Ink(Concat(AllTexts(lines, spans))) == SpanInk(lines, spans)
  {
    hide Ink, InkLines, TextsOf;
    if spans == [] {
      InkOfBreak();
    } else {
      var front, last := spans[..|spans| - 1], spans[|spans| - 1];
      var texts := TextsOf(lines[last.from..last.to]);
      InkOfAllTexts(lines, front);
      InkOfTextsOf(lines[last.from..last.to]);
      ConcatAppend(AllTexts(lines, front), texts);
      InkAppend(Concat(AllTexts(lines, front)), Concat(texts));
    }
  }

  lemma {:induction false} InkOfSplit(s: string)
    ensures InkLines(SplitLines(s)) == Ink(s)
    decreases |s|
  {
    hide Ink, SplitLines, FirstNewline, InkLines;
    InkOfBreak();
    SplitLinesStep(s);
    var i := FirstNewline(s, 0);
    InkLinesHead(SplitLines(s));
    if i == |s| {
      InkLinesNone();
      assert Ink(s) + "" == Ink(s);
    } else {
      InkOfSplit(s[i + 1..]);
      var line := if i > 0 && s[i - 1] == '\r' then s[..i - 1] else s[..i];
      InkAppend(s[..i], "\n" + s[i + 1..]);
      InkAppend("\n", s[i + 1..]);
      assert s == s[..i] + ("\n" + s[i + 1..]);
      if line != s[..i] {
        InkAppend(line, "\r");
        assert s[..i] == line + "\r";
      }
    }
  }

  lemma InkLinesNone()
    ensures InkLines([]) == ""
  {
  }

  lemma SplitLinesStep(s: string)
    ensures var i := FirstNewline(s, 0);
      i < |s| ==>
      && SplitLines(s)[0] == (if i > 0 && s[i - 1] == '\r' then s[..i - 1] else s[..i])
      && SplitLines(s)[1..] == SplitLines(s[i + 1..])
    ensures FirstNewline(s, 0) == |s| ==> SplitLines(s)[0] == s && SplitLines(s)[1..] == []
  {
    hide FirstNewline;
  }

  ghost predicate Covered(spans: seq<Span>, i: nat) {
    exists k :: 0 <= k < |spans| && spans[k].from <= i < spans[k].to
  }

  lemma CoveredByPart(a: seq<Span>, b: seq<Span>, i: nat)
    requires Covered(a, i) || Covered(b, i)
    ensures Covered(a + b, i)
  {
    if Covered(a, i) {
      var k :| 0 <= k < |a| && a[k].from <= i < a[k].to;
      assert (a + b)[k] == a[k];
    } else {
      var k :| 0 <= k < |b| && b[k].from <= i < b[k].to;
      assert (a + b)[|a| + k] == b[k];
    }
  }

  lemma {:induction false} WindowsCover(lines: seq<string>, start: nat, end: nat, linesPerChunk: nat, stride: nat,
                                        wholeFile: bool, i: nat)
    requires start <= i < end <= |lines| && 1 <= stride <= linesPerChunk
    ensures Covered(Windows(lines, start, end, linesPerChunk, stride, wholeFile), i)
    decreases end - start
  {
    hide Trim, Join;
    var spans := Windows(lines, start, end, linesPerChunk, stride, wholeFile);
    if i < start + linesPerChunk {
      assert spans[0].from <= i < spans[0].to;
    } else {
      WindowsCover(lines, start + stride, end, linesPerChunk, stride, wholeFile, i);
      CoveredByPart([spans[0]], Windows(lines, start + stride, end, linesPerChunk, stride, wholeFile), i);
    }
  }

  lemma {:induction false} PlanCovers(lines: seq<string>, starts: seq<nat>, k: nat, from: nat, linesPerChunk: nat,
                                      stride: nat, i: nat)
    requires Starts(starts, |lines|) && k <= |starts| && from <= Edge(starts, |lines|, k)
    requires from <= i < |lines| && 1 <= stride <= linesPerChunk
    ensures Covered(Plan(lines, starts, k, from, linesPerChunk, stride), i)
    decreases |starts| - k
  {
    hide Windows, Fits;
    if k == |starts| {
      assert Flushed(from, |lines|)[0].from <= i;
    } else {
      var start, end := starts[k], Edge(starts, |lines|, k + 1);
      PlanStep(lines, starts, k, from, linesPerChunk, stride);
      var next := NextFrom(lines, start, end, from, linesPerChunk);
      var emitted := Emitted(lines, start, end, from, linesPerChunk, stride);
      if i >= next {
        PlanCovers(lines, starts, k + 1, next, linesPerChunk, stride, i);
      } else {
        var flushed, alone := Flushed(from, start), Windows(lines, start, end, linesPerChunk, stride, false);
        if i < start {
          assert flushed[0].from <= i < flushed[0].to;
        } else {
          WindowsCover(lines, start, end, linesPerChunk, stride, false, i);
        }
        if !Fits(lines, start, end, linesPerChunk) {
          CoveredByPart(flushed, alone, i);
        }
      }
      CoveredByPart(emitted, Plan(lines, starts, k + 1, next, linesPerChunk, stride), i);
    }
  }

  lemma InkLinesHead(lines: seq<string>)
    requires lines != []
    ensures InkLines(lines) == Ink(lines[0]) + InkLines(lines[1..])
  {
  }

  lemma SpanInkOne(lines: seq<string>, span: Span)
    requires span.from <= span.to <= |lines|
    ensures SpanInk(lines, [span]) == InkLines(lines[span.from..span.to])
  {
    hide InkLines;
    assert [span][..0] == [];
    assert SpanInk(lines, []) + InkLines(lines[span.from..span.to]) == InkLines(lines[span.from..span.to]);
  }

  /** a is what is left of b when some of its characters are taken out. */
  predicate Subsequence(a: string, b: string) {
    a == "" || (b != "" && ((a[0] == b[0] && Subsequence(a[1..], b[1..])) || Subsequence(a, b[1..])))
  }

  lemma {:induction false} SubsequenceOfItself(a: string)
    ensures Subsequence(a, a)
  {
    if a != "" {
      SubsequenceOfItself(a[1..]);
    }
  }

  lemma {:induction false} SubsequenceOfMore(a: string, x: string, b: string)
    requires Subsequence(a, b)
    ensures Subsequence(a, x + b)
  {
    if x == "" {
      assert x + b == b;
    } else {
      SubsequenceOfMore(a, x[1..], b);
      assert (x + b)[1..] == x[1..] + b;
    }
  }

  lemma {:induction false} SubsequenceAppend(a: string, b: string, c: string, d: string)
    requires Subsequence(a, b) && Subsequence(c, d)
    ensures Subsequence(a + c, b + d)
    decreases |b|
  {
    if a == "" {
      assert a + c == c;
      SubsequenceOfMore(c, b, d);
    } else {
      assert (b + d)[1..] == b[1..] + d && (a + c)[1..] == a[1..] + c;
      if a[0] == b[0] && Subsequence(a[1..], b[1..]) {
        SubsequenceAppend(a[1..], b[1..], c, d);
      } else {
        SubsequenceAppend(a, b[1..], c, d);
      }
    }
  }

  lemma InkLinesSplit(lines: seq<string>, from: nat, mid: nat, to: nat)
    requires from <= mid <= to <= |lines|
    ensures InkLines(lines[from..to]) == InkLines(lines[from..mid]) + InkLines(lines[mid..to])
  {
    hide InkLines;
    InkLinesAppend(lines[from..mid], lines[mid..to]);
    assert lines[from..mid] + lines[mid..to] == lines[from..to];
  }

  lemma WindowsUnfold(lines: seq<string>, start: nat, end: nat, linesPerChunk: nat, stride: nat, wholeFile: bool)
    requires start < end <= |lines| && 1 <= stride <= linesPerChunk
    ensures var span := Span(start, Min(start + linesPerChunk, end));
      var spans := Windows(lines, start, end, linesPerChunk, stride, wholeFile);
      || (spans == [span] && span.to == end)
      || (start + stride < end
          && spans == [span] + Windows(lines, start + stride, end, linesPerChunk, stride, wholeFile))
  {
    hide Trim, Join;
  }

  /**
   * Overlapping windows hold the text of their lines in order: each takes up where the one before it would start
   * again.
   */
  lemma {:induction false} WindowsKeepText(lines: seq<string>, start: nat, end: nat, linesPerChunk: nat, stride: nat,
                                           wholeFile: bool)
    requires start <= end <= |lines| && 1 <= stride <= linesPerChunk
    ensures Subsequence(InkLines(lines[start..end]),
      SpanInk(lines, Windows(lines, start, end, linesPerChunk, stride, wholeFile)))
    decreases end - start
  {
    hide InkLines, SpanInk, Windows, Subsequence;
    if start == end {
      NoTextIsKept(lines, start, linesPerChunk, stride, wholeFile);
    } else {
      var span, next := Span(start, Min(start + linesPerChunk, end)), start + stride;
      WindowsUnfold(lines, start, end, linesPerChunk, stride, wholeFile);
      SpanInkOne(lines, span);
      SubsequenceOfItself(InkLines(lines[start..end]));
      if next < end {
        WindowsKeepText(lines, next, end, linesPerChunk, stride, wholeFile);
        InkLinesSplit(lines, start, next, span.to);
        InkLinesSplit(lines, start, next, end);
        var first, again := InkLines(lines[start..next]), InkLines(lines[next..span.to]);
        var rest := Windows(lines, next, end, linesPerChunk, stride, wholeFile);
        SubsequenceOfItself(first);
        SubsequenceOfMore(InkLines(lines[next..end]), again, SpanInk(lines, rest));
        SubsequenceAppend(first, first, InkLines(lines[next..end]), again + SpanInk(lines, rest));
        SpanInkAppend(lines, [span], rest);
        assert first + (again + SpanInk(lines, rest)) == first + again + SpanInk(lines, rest);
      }
    }
  }

  lemma NoTextIsKept(lines: seq<string>, at: nat, linesPerChunk: nat, stride: nat, wholeFile: bool)
    requires at <= |lines| && stride > 0
    ensures lines[at..at] == [] && InkLines([]) == ""
    ensures Windows(lines, at, at, linesPerChunk, stride, wholeFile) == [] && SpanInk(lines, []) == ""
    ensures forall b: string :: Subsequence("", b)
  {
  }

  /** One turn of the packing loop: what it emits holds the lines up to where the pack being filled now begins. */
  lemma EmittedKeepsText(lines: seq<string>, start: nat, end: nat, from: nat, linesPerChunk: nat, stride: nat)
    requires from <= start < end <= |lines| && 1 <= stride <= linesPerChunk
    ensures var next := NextFrom(lines, start, end, from, linesPerChunk);
      && from <= next
      && Subsequence(InkLines(lines[from..next]),
        SpanInk(lines, Emitted(lines, start, end, from, linesPerChunk, stride)))
  {
    hide InkLines, SpanInk, Windows, Subsequence, Fits, Flushed;
    FlushedInk(lines, from, start);
    SubsequenceOfItself(InkLines(lines[from..start]));
    NoTextIsKept(lines, from, linesPerChunk, stride, false);
    if !Fits(lines, start, end, linesPerChunk) {
      var alone := Windows(lines, start, end, linesPerChunk, stride, false);
      WindowsKeepText(lines, start, end, linesPerChunk, stride, false);
      SpanInkAppend(lines, Flushed(from, start), alone);
      InkLinesSplit(lines, from, start, end);
      SubsequenceAppend(InkLines(lines[from..start]), SpanInk(lines, Flushed(from, start)),
                        InkLines(lines[start..end]), SpanInk(lines, alone));
    }
  }

  lemma {:induction false} PlanKeepsText(lines: seq<string>, starts: seq<nat>, k: nat, from: nat, linesPerChunk: nat,
                                         stride: nat)
    requires Starts(starts, |lines|) && k <= |starts| && from <= Edge(starts, |lines|, k)
    requires 1 <= stride <= linesPerChunk
    ensures Subsequence(InkLines(lines[from..]), SpanInk(lines, Plan(lines, starts, k, from, linesPerChunk, stride)))
    decreases |starts| - k
  {
    hide InkLines, SpanInk, Subsequence, Plan, Emitted, NextFrom, Flushed;
    if k == |starts| {
      PlanEnd(lines, starts, from, linesPerChunk, stride);
      FlushedInk(lines, from, |lines|);
      assert lines[from..|lines|] == lines[from..];
      SubsequenceOfItself(InkLines(lines[from..]));
    } else {
      PlanStep(lines, starts, k, from, linesPerChunk, stride);
      var start, end := starts[k], Edge(starts, |lines|, k + 1);
      var next := NextFrom(lines, start, end, from, linesPerChunk);
      var emitted := Emitted(lines, start, end, from, linesPerChunk, stride);
      var rest := Plan(lines, starts, k + 1, next, linesPerChunk, stride);
      EmittedKeepsText(lines, start, end, from, linesPerChunk, stride);
      PlanKeepsText(lines, starts, k + 1, next, linesPerChunk, stride);
      SpanInkAppend(lines, emitted, rest);
      InkLinesSplit(lines, from, next, |lines|);
      assert lines[from..|lines|] == lines[from..] && lines[next..|lines|] == lines[next..];
      SubsequenceAppend(InkLines(lines[from..next]), SpanInk(lines, emitted), InkLines(lines[next..]),
        SpanInk(lines, rest));
    }
  }

  /**
   * No source text is lost: in window mode and in structure mode alike, the characters of the file that are not white
   * space are, in order and each in its own place, among those of the chunks, and every line is in some emitted span.
   * With chunks of zero lines nothing at all is emitted.
   */
  lemma NoTextLost(content: string, domain: Domain, dialect: Option<CodeStructure.Dialect>, o: Options)
    requires LinesPerChunk(domain, o) >= 1
    ensures var lines := SplitLines(content);
      var spans := FileSpans(lines, domain, dialect, o);
      && Subsequence(Ink(content), Ink(Concat(AllTexts(lines, spans))))
      && forall i :: 0 <= i < |lines| ==> Covered(spans, i)
  {
    hide Ink, InkLines, SpanInk, AllTexts, Plan, Windows, Subsequence, SplitLines, Covered;
    var lines := SplitLines(content);
    var n := LinesPerChunk(domain, o);
    var spans := FileSpans(lines, domain, dialect, o);
    InkOfSplit(content);
    InkOfAllTexts(lines, spans);
    assert lines[0..|lines|] == lines && lines[0..] == lines;
    match DialectUsed(domain, dialect, o) {
      case None => WindowsKeepText(lines, 0, |lines|, n, Stride(n, o), true);
      case Some(d) =>
        CodeStructure.BoundariesPartition(lines, d);
        PlanKeepsText(lines, CodeStructure.UnitBoundaries(lines, d), 0, 0, n, Stride(n, o));
    }
    forall i | 0 <= i < |lines|
      ensures Covered(spans, i)
    {
      LineIsCovered(lines, domain, dialect, o, i);
    }
  }

  lemma LineIsCovered(lines: seq<string>, domain: Domain, dialect: Option<CodeStructure.Dialect>, o: Options, i: nat)
    requires lines != [] && i < |lines| && LinesPerChunk(domain, o) >= 1
    ensures Covered(FileSpans(lines, domain, dialect, o), i)
  {
    hide Plan, Windows, Covered;
    var n := LinesPerChunk(domain, o);
    match DialectUsed(domain, dialect, o) {
      case None => WindowsCover(lines, 0, |lines|, n, Stride(n, o), true, i);
      case Some(d) =>
        CodeStructure.BoundariesPartition(lines, d);
        PlanCovers(lines, CodeStructure.UnitBoundaries(lines, d), 0, 0, n, Stride(n, o), i);
    }
  }

  ghost predicate AllEmpty(spans: seq<Span>) {
    forall k :: 0 <= k < |spans| ==> spans[k].from == spans[k].to
  }

  lemma {:induction false} ZeroWindowsAreEmpty(lines: seq<string>, start: nat, end: nat, stride: nat, wholeFile: bool)
    requires start <= end <= |lines| && stride > 0
    ensures AllEmpty(Windows(lines, start, end, 0, stride, wholeFile))
    decreases end - start
  {
    hide Trim, Join;
    if start + stride < end {
      ZeroWindowsAreEmpty(lines, start + stride, end, stride, wholeFile);
    }
  }

  lemma {:induction false} ZeroPlanIsEmpty(lines: seq<string>, starts: seq<nat>, k: nat, stride: nat)
    requires Starts(starts, |lines|) && k <= |starts| && stride > 0
    ensures AllEmpty(Plan(lines, starts, k, Edge(starts, |lines|, k), 0, stride))
    decreases |starts| - k
  {
    hide Windows;
    if k < |starts| {
      EdgesRise(starts, |lines|, k, k + 1);
      ZeroPlanIsEmpty(lines, starts, k + 1, stride);
      ZeroWindowsAreEmpty(lines, starts[k], Edge(starts, |lines|, k + 1), stride, false);
    }
  }

  lemma NothingSaysNothing()
    ensures TextsOf([]) == []
  {
  }

  lemma {:induction false} EmptySpansSayNothing(lines: seq<string>, spans: seq<Span>)
    requires Within(spans, |lines|) && AllEmpty(spans)
    ensures AllTexts(lines, spans) == []
  {
    NothingSaysNothing();
    hide TextsOf;
    if spans != [] {
      EmptySpansSayNothing(lines, spans[..|spans| - 1]);
      var last := spans[|spans| - 1];
      assert lines[last.from..last.to] == [];
    }
  }

  /** The condition on the options is needed: with zero lines per chunk every file is dropped whole. */
  lemma ZeroLinesDropEverything(lines: seq<string>, domain: Domain, dialect: Option<CodeStructure.Dialect>, o: Options)
    requires lines != [] && LinesPerChunk(domain, o) == 0
    ensures AllTexts(lines, FileSpans(lines, domain, dialect, o)) == []
  {
    hide AllTexts, Plan, Windows;
    var stride := Stride(0, o);
    match DialectUsed(domain, dialect, o) {
      case None => ZeroWindowsAreEmpty(lines, 0, |lines|, stride, true);
      case Some(d) =>
        CodeStructure.BoundariesPartition(lines, d);
        ZeroPlanIsEmpty(lines, CodeStructure.UnitBoundaries(lines, d), 0, stride);
    }
    EmptySpansSayNothing(lines, FileSpans(lines, domain, dialect, o));
  }

  // ---------- structure mode without oversized units ----------

  ghost predicate AllFit(lines: seq<string>, starts: seq<nat>, linesPerChunk: nat)
    requires Starts(starts, |lines|)
  {
    forall k :: 0 <= k < |starts| ==>
      starts[k] <= Edge(starts, |lines|, k + 1) && Fits(lines, starts[k], Edge(starts, |lines|, k + 1), linesPerChunk)
  }

  lemma {:induction false} PlanKeepsInk(lines: seq<string>, starts: seq<nat>, k: nat, from: nat, linesPerChunk: nat,
                                        stride: nat)
    requires Starts(starts, |lines|) && k <= |starts| && from <= Edge(starts, |lines|, k) && stride > 0
    requires AllFit(lines, starts, linesPerChunk)
    ensures SpanInk(lines, Plan(lines, starts, k, from, linesPerChunk, stride)) == InkLines(lines[from..])
    decreases |starts| - k
  {
    hide Windows, Fits, InkLines, SpanInk, Plan, Emitted, NextFrom, Flushed, Within;
    if k == |starts| {
      PlanEnd(lines, starts, from, linesPerChunk, stride);
      FlushedInk(lines, from, |lines|);
      assert lines[from..|lines|] == lines[from..];
    } else {
      var start, end := starts[k], Edge(starts, |lines|, k + 1);
      PlanStep(lines, starts, k, from, linesPerChunk, stride);
      var next := NextFrom(lines, start, end, from, linesPerChunk);
      PlanKeepsInk(lines, starts, k + 1, next, linesPerChunk, stride);
      var emitted := Emitted(lines, start, end, from, linesPerChunk, stride);
      SpanInkAppend(lines, emitted, Plan(lines, starts, k + 1, next, linesPerChunk, stride));
      EmittedInk(lines, start, end, from, linesPerChunk, stride);
      InkLinesSplit(lines, from, next, |lines|);
      assert lines[from..|lines|] == lines[from..] && lines[next..|lines|] == lines[next..];
    }
  }

  /** A unit within budget makes the packer emit exactly the lines up to where the next pack begins. */
  lemma EmittedInk(lines: seq<string>, start: nat, end: nat, from: nat, linesPerChunk: nat, stride: nat)
    requires from <= start < end <= |lines| && stride > 0 && Fits(lines, start, end, linesPerChunk)
    ensures var next := NextFrom(lines, start, end, from, linesPerChunk);
      && from <= next
      && SpanInk(lines, Emitted(lines, start, end, from, linesPerChunk, stride)) == InkLines(lines[from..next])
  {
    hide Windows, Fits, InkLines, SpanInk, Flushed;
    SpanInkNone(lines);
    InkLinesNone();
    assert lines[from..from] == [];
    FlushedInk(lines, from, start);
  }

  lemma SpanInkNone(lines: seq<string>)
    ensures SpanInk(lines, []) == ""
  {
  }

  lemma FlushedInk(lines: seq<string>, from: nat, to: nat)
    requires from <= to <= |lines|
    ensures SpanInk(lines, Flushed(from, to)) == InkLines(lines[from..to])
  {
    if from < to {
      SpanInkOne(lines, Span(from, to));
    }
  }

  /** Every declaration of the file is within the budgets on its own. */
  ghost predicate NoOversizedUnit(lines: seq<string>, d: CodeStructure.Dialect, linesPerChunk: nat)
    requires lines != []
  {
    CodeStructure.BoundariesPartition(lines, d);
    AllFit(lines, CodeStructure.UnitBoundaries(lines, d), linesPerChunk)
  }

  /**
   * Structure mode conserves the file: when no unit is oversized, the characters of the chunks that are not white space
   * are, in order, exactly those of the file.
   */
  lemma StructureConserves(content: string, domain: Domain, d: CodeStructure.Dialect, o: Options)
    requires DialectUsed(domain, Some(d), o) == Some(d)
    requires NoOversizedUnit(SplitLines(content), d, LinesPerChunk(domain, o))
    ensures Ink(Concat(AllTexts(SplitLines(content), FileSpans(SplitLines(content), domain, Some(d), o)))) ==
      Ink(content)
  {
    hide Ink, AllTexts, Plan, AllFit, InkLines;
    var lines := SplitLines(content);
    var n := LinesPerChunk(domain, o);
    var starts := CodeStructure.UnitBoundaries(lines, d);
    CodeStructure.BoundariesPartition(lines, d);
    PlanKeepsInk(lines, starts, 0, 0, n, Stride(n, o));
    InkOfAllTexts(lines, Plan(lines, starts, 0, 0, n, Stride(n, o)));
    InkOfSplit(content);
    assert lines[0..] == lines;
  }

  // ---------- the packs of a run of units that fit ----------

  /** Units j..k, as one span, are within both budgets. */
  predicate UnitsFit(lines: seq<string>, starts: seq<nat>, j: nat, k: nat, linesPerChunk: nat)
    requires Starts(starts, |lines|) && j <= k <= |starts|
  {
    EdgesRise(starts, |lines|, j, k);
    Fits(lines, Edge(starts, |lines|, j), Edge(starts, |lines|, k), linesPerChunk)
  }

  /** The run j..b: every unit fits on its own. */
  ghost predicate EachFits(lines: seq<string>, starts: seq<nat>, j: nat, b: nat, linesPerChunk: nat)
    requires Starts(starts, |lines|) && j <= b <= |starts|
  {
    forall k :: j <= k < b ==> UnitFits(lines, starts, k, linesPerChunk)
  }

  predicate UnitFits(lines: seq<string>, starts: seq<nat>, k: nat, linesPerChunk: nat)
    requires Starts(starts, |lines|) && k < |starts|
  {
    UnitsFit(lines, starts, k, k + 1, linesPerChunk)
  }

  /** The packs the loop makes of units k..b while the open pack began with unit j, flushed at b. */
  function Packs(lines: seq<string>, starts: seq<nat>, j: nat, k: nat, b: nat, linesPerChunk: nat): (packs: seq<Span>)
    requires Starts(starts, |lines|) && j <= k <= b <= |starts|
    decreases b - k
  {
    if k == b then Flushed(Edge(starts, |lines|, j), Edge(starts, |lines|, b))
    else if UnitsFit(lines, starts, j, k + 1, linesPerChunk) then Packs(lines, starts, j, k + 1, b, linesPerChunk)
    else Flushed(Edge(starts, |lines|, j), Edge(starts, |lines|, k)) + Packs(lines, starts, k, k + 1, b, linesPerChunk)
  }

  /** The run up to b contributes its packs, and the loop goes on after it with an empty buffer. */
  lemma {:induction false} PlanOfRun(lines: seq<string>, starts: seq<nat>, j: nat, k: nat, b: nat, linesPerChunk: nat,
                                     stride: nat)
    requires Starts(starts, |lines|) && j <= k <= b <= |starts| && stride > 0
    requires EachFits(lines, starts, k, b, linesPerChunk)
    requires b < |starts| ==> !UnitsFit(lines, starts, b, b + 1, linesPerChunk)
    ensures Edge(starts, |lines|, j) <= Edge(starts, |lines|, k)
    ensures var plan := Plan(lines, starts, k, Edge(starts, |lines|, j), linesPerChunk, stride);
      plan == Packs(lines, starts, j, k, b, linesPerChunk) +
        if b == |starts| then []
        else
          var end := Edge(starts, |lines|, b + 1);
          Windows(lines, starts[b], end, linesPerChunk, stride, false)
          + Plan(lines, starts, b + 1, end, linesPerChunk, stride)
    decreases b - k
  {
    hide Windows, Fits, Plan, Packs, Emitted, NextFrom, Flushed, UnitsFit;
    EdgesRise(starts, |lines|, j, k);
    PacksStep(lines, starts, j, k, b, linesPerChunk);
    if k < b {
      assert UnitFits(lines, starts, k, linesPerChunk);
      PlanStep(lines, starts, k, Edge(starts, |lines|, j), linesPerChunk, stride);
      EmittedInRun(lines, starts, j, k, linesPerChunk, stride);
      if UnitsFit(lines, starts, j, k + 1, linesPerChunk) {
        PlanOfRun(lines, starts, j, k + 1, b, linesPerChunk, stride);
      } else {
        PlanOfRun(lines, starts, k, k + 1, b, linesPerChunk, stride);
      }
    } else if b < |starts| {
      PlanStep(lines, starts, b, Edge(starts, |lines|, j), linesPerChunk, stride);
      EmittedInRun(lines, starts, j, b, linesPerChunk, stride);
    } else {
      PlanEnd(lines, starts, Edge(starts, |lines|, j), linesPerChunk, stride);
    }
  }

  lemma PacksStep(lines: seq<string>, starts: seq<nat>, j: nat, k: nat, b: nat, linesPerChunk: nat)
    requires Starts(starts, |lines|) && j <= k <= b <= |starts|
    ensures Packs(lines, starts, j, k, b, linesPerChunk) ==
            if k == b then Flushed(Edge(starts, |lines|, j), Edge(starts, |lines|, b))
            else if UnitsFit(lines, starts, j, k + 1, linesPerChunk) then
              Packs(lines, starts, j, k + 1, b, linesPerChunk)
            else
              Flushed(Edge(starts, |lines|, j), Edge(starts, |lines|, k))
              + Packs(lines, starts, k, k + 1, b, linesPerChunk)
  {
    hide UnitsFit, Flushed;
  }

  /** What unit k makes the packer emit, with units j.. open, in terms of which units fit together. */
  lemma EmittedInRun(lines: seq<string>, starts: seq<nat>, j: nat, k: nat, linesPerChunk: nat, stride: nat)
    requires Starts(starts, |lines|) && j <= k < |starts| && stride > 0
    ensures Edge(starts, |lines|, j) <= starts[k] < Edge(starts, |lines|, k + 1)
    ensures var from, start, end := Edge(starts, |lines|, j), starts[k], Edge(starts, |lines|, k + 1);
      var emitted := Emitted(lines, start, end, from, linesPerChunk, stride);
      var next := NextFrom(lines, start, end, from, linesPerChunk);
      if !UnitsFit(lines, starts, k, k + 1, linesPerChunk) then
        emitted == Flushed(from, start) + Windows(lines, start, end, linesPerChunk, stride, false) && next == end
      else if !UnitsFit(lines, starts, j, k + 1, linesPerChunk) then emitted == Flushed(from, start) && next == start
      else emitted == [] && next == from
  {
    hide Windows, Fits, Flushed;
    EdgesRise(starts, |lines|, j, k);
    EdgesRise(starts, |lines|, k, k + 1);
  }

  /**
   * A way to cut units into consecutive packs: the unit indices where the packs begin and end, each pack within
   * budget.
   */
  ghost predicate IsCutting(lines: seq<string>, starts: seq<nat>, cuts: seq<nat>, j: nat, b: nat, linesPerChunk: nat)
    requires Starts(starts, |lines|)
  {
    && |cuts| >= 2 && cuts[0] == j && cuts[|cuts| - 1] == b && b <= |starts|
    && (forall i :: 0 <= i < |cuts| ==> cuts[i] <= |starts|)
    && (forall i :: 0 <= i < |cuts| - 1 ==>
      cuts[i] < cuts[i + 1] && UnitsFit(lines, starts, cuts[i], cuts[i + 1], linesPerChunk))
  }

  lemma SubrangeFits(lines: seq<string>, starts: seq<nat>, a: nat, j: nat, k: nat, z: nat, linesPerChunk: nat)
    requires Starts(starts, |lines|) && a <= j <= k <= z <= |starts|
    requires UnitsFit(lines, starts, a, z, linesPerChunk)
    ensures UnitsFit(lines, starts, j, k, linesPerChunk)
  {
    EdgesRise(starts, |lines|, a, j);
    EdgesRise(starts, |lines|, j, k);
    EdgesRise(starts, |lines|, k, z);
    var n := |lines|;
    CharsSplit(lines, Edge(starts, n, a), Edge(starts, n, j), Edge(starts, n, z));
    CharsSplit(lines, Edge(starts, n, j), Edge(starts, n, k), Edge(starts, n, z));
  }

  lemma {:induction false} GreedyStaysAhead(lines: seq<string>, starts: seq<nat>, j: nat, k: nat, b: nat,
                                            cuts: seq<nat>, linesPerChunk: nat)
    requires Starts(starts, |lines|) && j < k <= b <= |starts|
    requires |cuts| >= 2 && IsCutting(lines, starts, cuts, cuts[0], b, linesPerChunk) && cuts[0] <= j
    ensures |Packs(lines, starts, j, k, b, linesPerChunk)| <= |cuts| - 1
    decreases b - k
  {
    hide Fits, UnitsFit;
    if k < b {
      if UnitsFit(lines, starts, j, k + 1, linesPerChunk) {
        GreedyStaysAhead(lines, starts, j, k + 1, b, cuts, linesPerChunk);
      } else {
        if cuts[1] > k {
          SubrangeFits(lines, starts, cuts[0], j, k + 1, cuts[1], linesPerChunk);
        }
        assert cuts[1] <= k;
        GreedyStaysAhead(lines, starts, k, k + 1, b, cuts[1..], linesPerChunk);
      }
    }
  }

  /**
   * Greedy packing is optimal: over any run of units that each fit, no way of cutting the run into consecutive packs
   * within both budgets has fewer packs than the loop flushes.
   */
  lemma GreedyIsOptimal(lines: seq<string>, starts: seq<nat>, j: nat, b: nat, cuts: seq<nat>, linesPerChunk: nat)
    requires Starts(starts, |lines|) && j < b <= |starts|
    requires EachFits(lines, starts, j, b, linesPerChunk)
    requires IsCutting(lines, starts, cuts, j, b, linesPerChunk)
    ensures |Packs(lines, starts, j, j, b, linesPerChunk)| <= |cuts| - 1
  {
    assert UnitFits(lines, starts, j, linesPerChunk);
    hide UnitsFit;
    GreedyStaysAhead(lines, starts, j, j + 1, b, cuts, linesPerChunk);
  }

  /** And the loop's packs are such a cutting, so the least number is attained. */
  lemma {:induction false} PacksAreACutting(lines: seq<string>, starts: seq<nat>, j: nat, k: nat, b: nat,
                                            linesPerChunk: nat)
    returns (cuts: seq<nat>)
    requires Starts(starts, |lines|) && j < k <= b <= |starts|
    requires EachFits(lines, starts, j, b, linesPerChunk) && UnitsFit(lines, starts, j, k, linesPerChunk)
    ensures IsCutting(lines, starts, cuts, j, b, linesPerChunk)
    ensures var packs := Packs(lines, starts, j, k, b, linesPerChunk);
      && |packs| == |cuts| - 1
      && forall i :: 0 <= i < |packs| ==>
           packs[i] == Span(Edge(starts, |lines|, cuts[i]), Edge(starts, |lines|, cuts[i + 1]))
    decreases b - k
  {
    hide UnitsFit;
    EdgesRise(starts, |lines|, j, k);
    if k == b {
      cuts := [j, b];
    } else if UnitsFit(lines, starts, j, k + 1, linesPerChunk) {
      cuts := PacksAreACutting(lines, starts, j, k + 1, b, linesPerChunk);
    } else {
      assert UnitFits(lines, starts, k, linesPerChunk);
      var rest := PacksAreACutting(lines, starts, k, k + 1, b, linesPerChunk);
      cuts := [j] + rest;
    }
  }

  lemma {:induction false} JoinIsShort(slice: seq<string>)
    requires slice != []
    ensures |Join(slice)| + 1 == Chars(slice, 0, |slice|)
  {
    if |slice| > 1 {
      JoinIsShort(slice[1..]);
      CharsSplit(slice, 0, 1, |slice|);
      CharsOfSlice(slice, 1, |slice|, |slice|);
      assert slice[1..|slice|] == slice[1..];
      assert Chars(slice, 0, 1) == Chars(slice, 0, 0) + |slice[0]| + 1;
    }
  }

  /** A pack within budget is one chunk (or none, if blank): it is never cut by the hard split. */
  lemma PackIsOneChunk(lines: seq<string>, from: nat, to: nat, linesPerChunk: nat)
    requires from < to <= |lines| && Fits(lines, from, to, linesPerChunk)
    ensures var text := Trim(Join(lines[from..to]));
      TextsOf(lines[from..to]) == if text == "" then [] else [text]
  {
    JoinIsShort(lines[from..to]);
    CharsOfSlice(lines, from, to, to);
    hide Chars, Join, Slices;
  }
}
