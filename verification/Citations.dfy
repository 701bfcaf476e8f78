/** Whether a cited quote occurs in the cited document: verified, kept as a paraphrase, or dropped. */
module Citations {
  import opened Optionals
  import opened JsText
  import opened WordForms

  datatype Source = Source(text: string, docId: Option<string>, focus: Option<string>)
  datatype Citation = Citation(rank: int, quote: Option<string>)
  datatype Status = Verified | Downgraded | Dropped
  datatype Detail = Detail(rank: int, quote: Option<string>, status: Status)

  const LONG_CAP: nat := 20_000
  const MIN_GROUNDING_FRAGMENT: nat := 20

  // ---------- the two normal forms ----------

  function StrictForm(s: string): string {
    LowerAll(Trim(Squeeze(s)))
  }

  predicate IsQuoteMark(c: char) {
    c == '\'' || c == '\U{2019}' || c == '`' || c == '"' || c == '\U{201C}' || c == '\U{201D}'
  }

  predicate IsAlphanumeric(c: char) {
    'a' <= c <= 'z' || 'A' <= c <= 'Z' || '0' <= c <= '9'
  }

  /** Quote marks are dropped, and other punctuation is read as a space. */
  function ReadAs(c: char): string {
    if IsQuoteMark(c) then "" else if IsAlphanumeric(c) || IsSpace(c) then [c] else " "
  }

  function Unpunctuated(s: string): string {
    if s == "" then "" else ReadAs(s[0]) + Unpunctuated(s[1..])
  }

  function LooseForm(s: string): string {
    LowerAll(Trim(Squeeze(Unpunctuated(s))))
  }

  /** All the model was shown of a source. */
  function Haystack(s: Source): string {
    if s.focus.Some? && s.focus.value != "" && s.focus.value != s.text then s.text + "\n" + s.focus.value else s.text
  }

  // ---------- shared fragments ----------

  /** The two texts have a run of n characters in common, ending at j in x and at i in y. */
  predicate SharedAt(x: string, y: string, j: nat, i: nat, n: nat) {
    n <= j <= |x| && n <= i <= |y| && x[j - n..j] == y[i - n..i]
  }

  ghost predicate Shares(x: string, y: string, n: nat) {
    exists j: nat, i: nat :: n <= j <= |x| && n <= i <= |y| && SharedAt(x, y, j, i, n)
  }

  /** The length of the longest common run that ends at j in x and at i in y. */
  function Ending(x: string, y: string, j: nat, i: nat): (n: nat)
    requires j <= |x| && i <= |y|
    ensures n <= j && n <= i
  {
    if i == 0 || j == 0 || x[j - 1] != y[i - 1] then 0 else 1 + Ending(x, y, j - 1, i - 1)
  }

  lemma {:induction false} EndingIsShared(x: string, y: string, j: nat, i: nat)
    requires j <= |x| && i <= |y|
    ensures SharedAt(x, y, j, i, Ending(x, y, j, i))
  {
    hide SharedAt;
    if i > 0 && j > 0 && x[j - 1] == y[i - 1] {
      EndingIsShared(x, y, j - 1, i - 1);
      LongerRun(x, y, j - 1, i - 1, Ending(x, y, j - 1, i - 1));
    } else {
      NoRun(x, y, j, i);
    }
  }

  lemma NoRun(x: string, y: string, j: nat, i: nat)
    requires j <= |x| && i <= |y|
    ensures SharedAt(x, y, j, i, 0)
  {
  }

  lemma LongerRun(x: string, y: string, j: nat, i: nat, n: nat)
    requires SharedAt(x, y, j, i, n) && j < |x| && i < |y| && x[j] == y[i]
    ensures SharedAt(x, y, j + 1, i + 1, n + 1)
  {
    assert x[j - n..j + 1] == x[j - n..j] + [x[j]] && y[i - n..i + 1] == y[i - n..i] + [y[i]];
  }

  lemma {:induction false} EndingIsLongest(x: string, y: string, j: nat, i: nat, n: nat)
    requires SharedAt(x, y, j, i, n)
    ensures n <= Ending(x, y, j, i)
  {
    if n > 0 {
      assert x[j - n..j][n - 1] == x[j - 1] && y[i - n..i][n - 1] == y[i - 1];
      assert x[j - n..j][..n - 1] == x[j - n..j - 1] && y[i - n..i][..n - 1] == y[i - n..i - 1];
      EndingIsLongest(x, y, j - 1, i - 1, n - 1);
    }
  }

  /** A shared run has every shorter one in it. */
  lemma SharesLess(x: string, y: string, n: nat, m: nat)
    requires Shares(x, y, n) && m <= n
    ensures Shares(x, y, m)
  {
    var j: nat, i: nat :| n <= j <= |x| && n <= i <= |y| && SharedAt(x, y, j, i, n);
    assert x[j - m..j] == x[j - n..j][n - m..] && y[i - m..i] == y[i - n..i][n - m..];
    assert SharedAt(x, y, j, i, m);
  }

  lemma SharesSwap(x: string, y: string, n: nat)
    ensures Shares(x, y, n) <==> Shares(y, x, n)
  {
    if Shares(x, y, n) {
      var j: nat, i: nat :| n <= j <= |x| && n <= i <= |y| && SharedAt(x, y, j, i, n);
      assert SharedAt(y, x, i, j, n);
    }
    if Shares(y, x, n) {
      var j: nat, i: nat :| n <= j <= |y| && n <= i <= |x| && SharedAt(y, x, j, i, n);
      assert SharedAt(x, y, i, j, n);
    }
  }

  function Capped(s: string): string {
    if |s| <= LONG_CAP then s else s[..LONG_CAP]
  }

  /** best is the length of the longest run that x and y share. */
  ghost predicate IsLongest(x: string, y: string, best: nat) {
    Shares(x, y, best) && forall n: nat :: Shares(x, y, n) ==> n <= best
  }

  /**
   * No cell of the table up to row i, and up to column j of row i + 1, holds more than best; best is in the table, or
   * 0.
   */
  ghost predicate BestSoFar(x: string, y: string, i: nat, j: nat, best: nat)
    requires i <= |y| && j <= |x| && (j > 0 ==> i < |y|)
  {
    && Shares(x, y, best)
    && (forall r: nat, c: nat :: r <= i && c <= |x| ==> Ending(x, y, c, r) <= best)
    && (j > 0 ==> RowWithin(x, y, i + 1, j, best))
  }

  ghost predicate RowWithin(x: string, y: string, r: nat, j: nat, best: nat)
    requires r <= |y| && j <= |x|
  {
    forall c: nat :: c <= j ==> Ending(x, y, c, r) <= best
  }

  lemma NothingShared(x: string, y: string)
    ensures BestSoFar(x, y, 0, 0, 0)
  {
    assert SharedAt(x, y, 0, 0, 0);
  }

  lemma NextCell(x: string, y: string, i: nat, j: nat, best: nat)
    requires i < |y| && j < |x| && BestSoFar(x, y, i, j, best)
    ensures var run := Ending(x, y, j + 1, i + 1);
      BestSoFar(x, y, i, j + 1, if run > best then run else best)
  {
    hide Ending, SharedAt, Shares, RowWithin;
    var run := Ending(x, y, j + 1, i + 1);
    RunIsShared(x, y, j + 1, i + 1);
    RowStarts(x, y, i + 1, best);
    RowGrows(x, y, i + 1, j, best, if run > best then run else best);
  }

  lemma RunIsShared(x: string, y: string, j: nat, i: nat)
    requires j <= |x| && i <= |y|
    ensures Shares(x, y, Ending(x, y, j, i))
  {
    hide Ending;
    EndingIsShared(x, y, j, i);
  }

  lemma RowGrows(x: string, y: string, r: nat, j: nat, best: nat, next: nat)
    requires r <= |y| && j < |x| && RowWithin(x, y, r, j, best) && best <= next && Ending(x, y, j + 1, r) <= next
    ensures RowWithin(x, y, r, j + 1, next)
  {
    hide Ending;
  }

  lemma RowStarts(x: string, y: string, r: nat, best: nat)
    requires r <= |y|
    ensures RowWithin(x, y, r, 0, best)
  {
  }

  lemma NextRow(x: string, y: string, i: nat, best: nat)
    requires i < |y| && BestSoFar(x, y, i, |x|, best)
    ensures BestSoFar(x, y, i + 1, 0, best)
  {
    hide SharedAt, Shares;
  }

  lemma WholeTable(x: string, y: string, best: nat)
    requires BestSoFar(x, y, |y|, 0, best)
    ensures IsLongest(x, y, best)
  {
    hide Ending;
    forall n: nat | Shares(x, y, n)
      ensures n <= best
    {
      var j: nat, i: nat :| n <= j <= |x| && n <= i <= |y| && SharedAt(x, y, j, i, n);
      EndingIsLongest(x, y, j, i, n);
    }
  }

  /** The rolling table: the row before and the row being filled. */
  method LongestCommonSubstringLen(a: string, b: string) returns (best: nat)
    ensures IsLongest(a, Capped(b), best)
  {
    hide BestSoFar, Shares, Ending, SharedAt;
    var x := if |a| <= |b| then a else Capped(b);
    var y := if |a| <= |b| then Capped(b) else a;
    best := 0;
    NothingShared(x, y);
    EdgesAreEmpty(x, y);
    var prev := new nat[|x| + 1](_ => 0);
    for i := 0 to |y|
      invariant prev.Length == |x| + 1
      invariant forall c :: 0 <= c <= |x| ==> prev[c] == Ending(x, y, c, i)
      invariant BestSoFar(x, y, i, 0, best)
    {
      var cur := new nat[|x| + 1](_ => 0);
      for j := 0 to |x|
        invariant prev.Length == cur.Length == |x| + 1
        invariant forall c :: 0 <= c <= |x| ==> prev[c] == Ending(x, y, c, i)
        invariant forall c :: 0 <= c <= j ==> cur[c] == Ending(x, y, c, i + 1)
        invariant forall c :: j < c <= |x| ==> cur[c] == 0
        invariant BestSoFar(x, y, i, j, best)
      {
        NextCell(x, y, i, j, best);
        CellIs(x, y, j, i);
        if y[i] == x[j] {
          var run := prev[j] + 1;
          cur[j + 1] := run;
          if run > best {
            best := run;
          }
        }
      }
      NextRow(x, y, i, best);
      prev := cur;
    }
    WholeTable(x, y, best);
    if |a| > |b| {
      LongestSwaps(x, y, best);
    }
  }

  lemma CellIs(x: string, y: string, j: nat, i: nat)
    requires j < |x| && i < |y|
    ensures Ending(x, y, j + 1, i + 1) == if y[i] == x[j] then Ending(x, y, j, i) + 1 else 0
  {
    hide SharedAt;
  }

  lemma EdgesAreEmpty(x: string, y: string)
    ensures forall c: nat :: c <= |x| ==> Ending(x, y, c, 0) == 0
    ensures forall r: nat :: r <= |y| ==> Ending(x, y, 0, r) == 0
  {
    hide SharedAt;
  }

  lemma LongestSwaps(x: string, y: string, best: nat)
    requires IsLongest(x, y, best)
    ensures IsLongest(y, x, best)
  {
    hide Shares;
    SharesSwap(x, y, best);
    forall n: nat | Shares(y, x, n)
      ensures n <= best
    {
      SharesSwap(x, y, n);
    }
  }

  // ---------- verification ----------

  predicate InRange(rank: int, sources: seq<Source>) {
    1 <= rank <= |sources|
  }

  /** Source i is the cited one, or another part of the cited document. */
  predicate OfCited(sources: seq<Source>, rank: int, i: nat)
    requires InRange(rank, sources)
  {
    i < |sources| && (i == rank - 1 || (sources[rank - 1].docId.Some? && sources[i].docId == sources[rank - 1].docId))
  }

  predicate PresentIn(s: Source, quote: string) {
    || Includes(StrictForm(Haystack(s)), StrictForm(quote))
    || Includes(LooseForm(Haystack(s)), LooseForm(quote))
  }

  ghost predicate DrawsOn(s: Source, quote: string) {
    Shares(LooseForm(quote), Capped(LooseForm(Haystack(s))), MIN_GROUNDING_FRAGMENT)
  }

  /** The quote occurs, normalised, in some part of the cited document. */
  ghost predicate Present(sources: seq<Source>, rank: int, quote: string)
    requires InRange(rank, sources)
  {
    exists i: nat :: i < |sources| && OfCited(sources, rank, i) && PresentIn(sources[i], quote)
  }

  ghost predicate Draws(sources: seq<Source>, rank: int, quote: string)
    requires InRange(rank, sources)
  {
    exists i: nat :: i < |sources| && OfCited(sources, rank, i) && DrawsOn(sources[i], quote)
  }

  /** What a citation's status says about its quote and its document. */
  ghost predicate StatusFits(c: Citation, sources: seq<Source>, status: Status) {
    match c.quote
    case None => status == Verified
    case Some(quote) =>
      if !InRange(c.rank, sources) then status == Dropped
      else
        && (status == Verified <==> Present(sources, c.rank, quote))
        && (status == Downgraded <==> !Present(sources, c.rank, quote) && Draws(sources, c.rank, quote))
  }

  /** A detail is of a citation: its rank and quote, and a status that fits. */
  ghost predicate Fits(c: Citation, sources: seq<Source>, d: Detail) {
    d.rank == c.rank && d.quote == c.quote && StatusFits(c, sources, d.status)
  }

  ghost predicate AllFit(citations: seq<Citation>, sources: seq<Source>, detail: seq<Detail>)
    requires |detail| == |citations|
  {
    forall k :: 0 <= k < |detail| ==> Fits(citations[k], sources, detail[k])
  }

  method VerifyOne(c: Citation, sources: seq<Source>) returns (d: Detail)
    ensures Fits(c, sources, d)
  {
    hide StrictForm, LooseForm, Haystack, Includes, Shares, Capped;
    if c.quote.None? {
      return Detail(c.rank, c.quote, Verified);
    }
    if !InRange(c.rank, sources) {
      return Detail(c.rank, c.quote, Dropped);
    }
    var quote := c.quote.value;
    var candidates := Candidates(sources, c.rank);
    var needle := LooseForm(quote);
    for k := 0 to |candidates|
      invariant forall m :: 0 <= m < k ==> !PresentIn(sources[candidates[m]], quote)
    {
      if PresentIn(sources[candidates[k]], quote) {
        return Detail(c.rank, c.quote, Verified);
      }
    }
    var maxFragment := 0;
    for k := 0 to |candidates|
      invariant maxFragment >= MIN_GROUNDING_FRAGMENT <==>
        exists m :: 0 <= m < k && DrawsOn(sources[candidates[m]], quote)
    {
      var source := sources[candidates[k]];
      var fragment := LongestCommonSubstringLen(needle, LooseForm(Haystack(source)));
      LongFragmentDraws(source, quote, fragment);
      if fragment > maxFragment {
        maxFragment := fragment;
      }
    }
    d := Detail(c.rank, c.quote, if maxFragment >= MIN_GROUNDING_FRAGMENT then Downgraded else Dropped);
  }

  lemma LongFragmentDraws(s: Source, quote: string, fragment: nat)
    requires IsLongest(LooseForm(quote), Capped(LooseForm(Haystack(s))), fragment)
    ensures DrawsOn(s, quote) <==> fragment >= MIN_GROUNDING_FRAGMENT
  {
    hide Shares, LooseForm, Capped, Haystack;
    if fragment >= MIN_GROUNDING_FRAGMENT {
      SharesLess(LooseForm(quote), Capped(LooseForm(Haystack(s))), fragment, MIN_GROUNDING_FRAGMENT);
    }
  }

  /** The cited source, then the others of its document. */
  function Candidates(sources: seq<Source>, rank: int): (candidates: seq<nat>)
    requires InRange(rank, sources)
    ensures forall i: nat :: i in candidates <==> OfCited(sources, rank, i)
    ensures forall k :: 0 <= k < |candidates| ==> candidates[k] < |sources|
  {
    var siblings := Siblings(sources, rank, |sources|);
    var all := [rank - 1] + siblings;
    assert forall k :: 0 <= k < |all| ==> all[k] in all;
    all
  }

  function Siblings(sources: seq<Source>, rank: int, n: nat): (siblings: seq<nat>)
    requires InRange(rank, sources) && n <= |sources|
    ensures forall i: nat :: i in siblings <==> i < n && i != rank - 1 && OfCited(sources, rank, i)
  {
    if n == 0 then []
    else
      Siblings(sources, rank, n - 1) + if n - 1 != rank - 1 && OfCited(sources, rank, n - 1) then [n - 1] else []
  }

  /** The status of each citation, in order. */
  method VerifyCitationsDetailed(citations: seq<Citation>, sources: seq<Source>) returns (detail: seq<Detail>)
    ensures |detail| == |citations| && AllFit(citations, sources, detail)
  {
    hide Fits;
    detail := [];
    for k := 0 to |citations|
      invariant |detail| == k && forall m :: 0 <= m < k ==> Fits(citations[m], sources, detail[m])
    {
      var d := VerifyOne(citations[k], sources);
      detail := detail + [d];
    }
  }

  // ---------- what the two forms are ----------

  /** The strict form: the text's words in lower case, one space apart. */
  lemma StrictFormIs(s: string)
    ensures StrictForm(s) == LowerAll(Form(s))
  {
    hide Form, LowerAll;
    SqueezeThenTrim(s);
  }

  predicate HasAlphanumeric(s: string) {
    exists i :: 0 <= i < |s| && IsAlphanumeric(s[i])
  }

  lemma {:induction false} InUnpunctuated(s: string, c: char)
    requires !IsSpace(c)
    ensures c in Unpunctuated(s) <==> c in s && IsAlphanumeric(c)
  {
    hide IsSpace;
    SpaceIsSpace();
    if s != "" {
      InUnpunctuated(s[1..], c);
      assert c in s <==> c == s[0] || c in s[1..];
      assert c in Unpunctuated(s) <==> (c == s[0] && IsAlphanumeric(c)) || c in Unpunctuated(s[1..]);
    }
  }

  lemma AlphanumericIsInk(c: char)
    ensures IsAlphanumeric(c) ==> !IsSpace(c) && IsAlphanumeric(Lower(c))
    ensures IsAlphanumeric(Lower(c)) ==> IsAlphanumeric(c)
    ensures IsSpace(Lower(c)) <==> IsSpace(c)
    ensures Lower(c) == ' ' <==> c == ' '
  {
  }

  /**
   * The loose form: the words that are left of the text, in lower case, when quote marks are dropped and other
   * punctuation is read as white space. It is empty exactly for a text without an ASCII letter or digit.
   */
  lemma LooseFormIs(s: string)
    ensures LooseForm(s) == LowerAll(Form(Unpunctuated(s)))
    ensures LooseForm(s) == "" <==> !HasAlphanumeric(s)
  {
    hide Form, LowerAll, IsSpace, IsAlphanumeric, Words, Ink, Unpunctuated;
    SqueezeThenTrim(Unpunctuated(s));
    FormIsEmptyIff(Unpunctuated(s));
    if Ink(Unpunctuated(s)) != "" {
      var c := Ink(Unpunctuated(s))[0];
      InInk(Unpunctuated(s), c);
      InUnpunctuated(s, c);
    }
    if HasAlphanumeric(s) {
      var i :| 0 <= i < |s| && IsAlphanumeric(s[i]);
      AlphanumericIsInk(s[i]);
      InUnpunctuated(s, s[i]);
      InInk(Unpunctuated(s), s[i]);
    }
  }

  // ---------- copied quotes ----------

  /**
   * White space and letter case are forgiven: a quote is verified if it has the words of one copied from some part of
   * the cited document that the model was shown, wherever that begins and ends, even inside a word.
   */
  lemma SameWordsSameStatus(copied: string, c: Citation, sources: seq<Source>, i: nat, status: Status)
    requires c.quote.Some? && InRange(c.rank, sources) && OfCited(sources, c.rank, i)
    requires Includes(Haystack(sources[i]), copied)
    requires LowerAll(Form(c.quote.value)) == LowerAll(Form(copied))
    requires StatusFits(c, sources, status)
    ensures status == Verified
  {
    hide Form, LowerAll, StrictForm, LooseForm, Includes, Haystack;
    var text := Haystack(sources[i]);
    StrictFormIs(text);
    StrictFormIs(c.quote.value);
    FormOfPart(text, copied);
    LowerOfPart(Form(text), Form(copied));
    assert PresentIn(sources[i], c.quote.value);
  }

  /** In particular the copied quote itself: copying never loses a citation. */
  lemma VerbatimIsVerified(c: Citation, sources: seq<Source>, i: nat, status: Status)
    requires c.quote.Some? && InRange(c.rank, sources) && OfCited(sources, c.rank, i)
    requires Includes(Haystack(sources[i]), c.quote.value)
    requires StatusFits(c, sources, status)
    ensures status == Verified
  {
    hide *;
    SameWordsSameStatus(c.quote.value, c, sources, i, status);
  }

  // ---------- what it is for a quote to occur ----------

  /**
   * The quote's words occur in the text, up to letter case; or what is left of them without punctuation, if anything
   * is.
   */
  predicate OccursIn(text: string, quote: string) {
    || Includes(LowerAll(Form(text)), LowerAll(Form(quote)))
    || (Words(Unpunctuated(quote)) != []
        && Includes(LowerAll(Form(Unpunctuated(text))), LowerAll(Form(Unpunctuated(quote)))))
  }

  ghost predicate Occurs(sources: seq<Source>, rank: int, quote: string)
    requires InRange(rank, sources)
  {
    exists i: nat :: i < |sources| && OfCited(sources, rank, i) && OccursIn(Haystack(sources[i]), quote)
  }

  /** The verifier's test, in these terms: a quote with nothing but punctuation and other scripts passes it anywhere. */
  lemma PresentInIff(s: Source, quote: string)
    ensures PresentIn(s, quote) <==> OccursIn(Haystack(s), quote) || !HasAlphanumeric(quote)
  {
    hide Form, LowerAll, StrictForm, LooseForm, Includes, Haystack, HasAlphanumeric, Words, Unpunctuated;
    StrictFormIs(Haystack(s));
    StrictFormIs(quote);
    LooseFormIs(Haystack(s));
    LooseFormIs(quote);
    FormIsEmptyIff(Unpunctuated(quote));
    LowerIsEmpty(Form(Unpunctuated(quote)));
    NothingIsIncluded(LooseForm(Haystack(s)));
  }

  lemma LowerIsEmpty(s: string)
    ensures LowerAll(s) == "" <==> s == ""
  {
  }

  lemma NothingIsIncluded(s: string)
    ensures Includes(s, "")
  {
    assert PartAt(s, "", 0);
  }

  lemma PresentIff(sources: seq<Source>, rank: int, quote: string)
    requires InRange(rank, sources)
    ensures Present(sources, rank, quote) <==> Occurs(sources, rank, quote) || !HasAlphanumeric(quote)
  {
    hide PresentIn, OccursIn, HasAlphanumeric, Haystack;
    forall i: nat | i < |sources|
      ensures PresentIn(sources[i], quote) <==> OccursIn(Haystack(sources[i]), quote) || !HasAlphanumeric(quote)
    {
      PresentInIff(sources[i], quote);
    }
    var cited: nat := rank - 1;
    assert OfCited(sources, rank, cited);
    assert PresentIn(sources[cited], quote) <==> OccursIn(Haystack(sources[cited]), quote) || !HasAlphanumeric(quote);
  }

  // ---------- the two ways a quote that does not occur is kept ----------

  /** Without an ASCII letter or digit, and in no part of the cited document. */
  ghost predicate Wordless(c: Citation, sources: seq<Source>) {
    && c.quote.Some? && InRange(c.rank, sources)
    && !HasAlphanumeric(c.quote.value) && !Occurs(sources, c.rank, c.quote.value)
  }

  /** In no part of the cited document, but 20 characters of it are. */
  ghost predicate Paraphrased(c: Citation, sources: seq<Source>) {
    && c.quote.Some? && InRange(c.rank, sources)
    && HasAlphanumeric(c.quote.value) && !Occurs(sources, c.rank, c.quote.value)
    && Draws(sources, c.rank, c.quote.value)
  }

  /** A kept quote occurs in the cited document unless it is of one of the two kinds, and both kinds are kept. */
  lemma KeptOccursIff(c: Citation, sources: seq<Source>, status: Status)
    requires StatusFits(c, sources, status)
    ensures status != Dropped && c.quote.Some? ==>
      && InRange(c.rank, sources)
      && (Occurs(sources, c.rank, c.quote.value) <==> !Wordless(c, sources) && !Paraphrased(c, sources))
    ensures Wordless(c, sources) ==> status == Verified
    ensures Paraphrased(c, sources) ==> status == Downgraded
  {
    hide Present, Occurs, Draws, HasAlphanumeric;
    if c.quote.Some? && InRange(c.rank, sources) {
      PresentIff(sources, c.rank, c.quote.value);
    }
  }

  // ---------- the same, of a quote against every document ----------

  /** Nothing is shown of the one source. */
  const EMPTY_SOURCE: seq<Source> := [Source("", None, None)]

  lemma NothingOccursInNothing(quote: string)
    requires Words(quote) != []
    ensures InRange(1, EMPTY_SOURCE) && !Occurs(EMPTY_SOURCE, 1, quote) && !Draws(EMPTY_SOURCE, 1, quote)
  {
    hide Form, LowerAll, Words, Unpunctuated, HasAlphanumeric;
    var h := Haystack(EMPTY_SOURCE[0]);
    assert h == "" && Unpunctuated("") == "" by {
      NothingIsUnpunctuated();
    }
    EmptyForm();
    LowerIsEmpty(Form(""));
    FormIsEmptyIff(quote);
    FormIsEmptyIff(Unpunctuated(quote));
    LowerIsEmpty(Form(quote));
    LowerIsEmpty(Form(Unpunctuated(quote)));
    LooseFormIs("");
    LooseFormIs(quote);
  }

  lemma NothingIsUnpunctuated()
    ensures Unpunctuated("") == ""
  {
  }

  /** Every quote without an ASCII letter or digit is verified, even against a document of which nothing was shown. */
  lemma WordlessIsVerified(quote: string)
    requires !HasAlphanumeric(quote) && Words(quote) != []
    ensures StatusFits(Citation(1, Some(quote)), EMPTY_SOURCE, Verified)
    ensures Wordless(Citation(1, Some(quote)), EMPTY_SOURCE)
  {
    hide Form, LowerAll, Words, Unpunctuated, HasAlphanumeric, Present, Occurs, Draws;
    NothingOccursInNothing(quote);
    PresentIff(EMPTY_SOURCE, 1, quote);
  }

  /**
   * "A fabricated quote is still rejected", whatever it is held against, of all quotes but those without an ASCII
   * letter or digit.
   */
  lemma VerifiedAnywhereIff(quote: string)
    ensures (forall rank, sources, status ::
               InRange(rank, sources) && StatusFits(Citation(rank, Some(quote)), sources, status) ==>
                 status == Verified)
            <==> !HasAlphanumeric(quote)
  {
    hide Present, Occurs, Draws, HasAlphanumeric, Words;
    if HasAlphanumeric(quote) {
      AlphanumericHasWords(quote);
      NothingOccursInNothing(quote);
      PresentIff(EMPTY_SOURCE, 1, quote);
      assert StatusFits(Citation(1, Some(quote)), EMPTY_SOURCE, Dropped);
    } else {
      forall rank, sources, status |
        InRange(rank, sources) && StatusFits(Citation(rank, Some(quote)), sources, status)
        ensures status == Verified
      {
        PresentIff(sources, rank, quote);
      }
    }
  }

  lemma AlphanumericHasWords(quote: string)
    ensures HasAlphanumeric(quote) ==> Words(quote) != []
  {
    hide Words, Form, Ink, IsSpace, IsAlphanumeric;
    FormIsEmptyIff(quote);
    if HasAlphanumeric(quote) {
      var i :| 0 <= i < |quote| && IsAlphanumeric(quote[i]);
      AlphanumericIsInk(quote[i]);
      InInk(quote, quote[i]);
    }
  }

  /** Lower-case letters, digits and single spaces: a text that is its own strict and its own loose form. */
  predicate IsBare(s: string) {
    IsNormal(s) && forall i :: 0 <= i < |s| ==> s[i] == ' ' || (IsAlphanumeric(s[i]) && Lower(s[i]) == s[i])
  }

  lemma {:induction false} NothingToDrop(s: string)
    requires forall i :: 0 <= i < |s| ==> IsSpace(s[i]) || IsAlphanumeric(s[i])
    ensures Unpunctuated(s) == s
  {
    hide IsSpace;
    if s != "" {
      NothingToDrop(s[1..]);
      QuoteMarksAreNeither(s[0]);
      assert [s[0]] + s[1..] == s;
    }
  }

  lemma QuoteMarksAreNeither(c: char)
    ensures IsSpace(c) || IsAlphanumeric(c) ==> !IsQuoteMark(c)
  {
  }

  lemma BareIsItsForm(s: string)
    requires IsBare(s)
    ensures StrictForm(s) == s && LooseForm(s) == s
  {
    hide IsNormal, IsSpace, IsAlphanumeric, Form;
    SpaceIsSpace();
    NothingToDrop(s);
    NormalIsForm(s);
    assert Lower(' ') == ' ';
  }

  /** A loose form is bare. */
  lemma LooseFormIsBare(s: string)
    ensures IsBare(LooseForm(s))
  {
    hide Form, IsSpace, IsAlphanumeric, Ink, Unpunctuated, Lower;
    var form := Form(Unpunctuated(s));
    LooseFormIs(s);
    FormIsNormal(Unpunctuated(s));
    InkOfForm(Unpunctuated(s));
    LowerKeepsNormal(form);
    forall i | 0 <= i < |form|
      ensures form[i] == ' ' || IsAlphanumeric(form[i])
    {
      if !IsSpace(form[i]) {
        InInk(form, form[i]);
        InInk(Unpunctuated(s), form[i]);
        InUnpunctuated(s, form[i]);
      }
    }
    forall i | 0 <= i < |form|
      ensures var c := LowerAll(form)[i]; c == ' ' || (IsAlphanumeric(c) && Lower(c) == c)
    {
      AlphanumericIsInk(form[i]);
      LowerTwice(form[i]);
    }
  }

  lemma LowerTwice(c: char)
    ensures Lower(Lower(c)) == Lower(c)
  {
  }

  lemma LowerKeepsNormal(s: string)
    requires IsNormal(s)
    ensures IsNormal(LowerAll(s))
  {
    hide IsSpace, Lower;
    forall i | 0 <= i < |s|
      ensures IsSpace(LowerAll(s)[i]) <==> IsSpace(s[i])
      ensures LowerAll(s)[i] == ' ' <==> s[i] == ' '
    {
      AlphanumericIsInk(s[i]);
    }
  }

  /** The text with its last character changed. */
  function Altered(s: string): string
    requires s != ""
  {
    s[..|s| - 1] + [if s[|s| - 1] == 'a' then 'b' else 'a']
  }

  lemma AlteredIsBare(s: string)
    requires IsBare(s) && s != ""
    ensures IsBare(Altered(s))
  {
    hide IsSpace;
    var t, n := Altered(s), |s| - 1;
    assert forall i :: 0 <= i < n ==> t[i] == s[i];
    AlphanumericIsInk(t[n]);
    assert IsAlphanumeric(t[n]) && Lower(t[n]) == t[n];
  }

  /** A quote whose strict form is in a bare text has no punctuation, so that its two forms are one. */
  lemma StrictInBare(quote: string, text: string)
    requires IsBare(text) && Includes(text, StrictForm(quote))
    ensures LooseForm(quote) == StrictForm(quote)
  {
    hide IsSpace, IsAlphanumeric, Form, Ink, IsNormal, Lower;
    StrictFormIs(quote);
    LooseFormIs(quote);
    var form := Form(quote);
    InkOfForm(quote);
    var at: nat :| at <= |text| && PartAt(text, StrictForm(quote), at);
    forall i | 0 <= i < |quote|
      ensures IsSpace(quote[i]) || IsAlphanumeric(quote[i])
    {
      if !IsSpace(quote[i]) {
        InInk(quote, quote[i]);
        InInk(form, quote[i]);
        var j :| 0 <= j < |form| && form[j] == quote[i];
        assert LowerAll(form)[j] == text[at..at + |form|][j] == text[at + j];
        AlphanumericIsInk(quote[i]);
        SpaceIsSpace();
      }
    }
    NothingToDrop(quote);
  }

  /**
   * Every quote whose loose form has more than 20 characters is kept, though it does not occur, against a document that
   * repeats it up to the last character.
   */
  lemma ParaphraseIsKept(quote: string)
    requires |LooseForm(quote)| > MIN_GROUNDING_FRAGMENT
    ensures var sources := [Source(Altered(LooseForm(quote)), None, None)];
      && StatusFits(Citation(1, Some(quote)), sources, Downgraded)
      && Paraphrased(Citation(1, Some(quote)), sources)
  {
    hide StrictForm, LooseForm, IsBare, Includes, HasAlphanumeric, Shares, OccursIn;
    var form := LooseForm(quote);
    var text := Altered(form);
    var sources := [Source(text, None, None)];
    LooseFormIs(quote);
    LooseFormIsBare(quote);
    AlteredIsBare(form);
    BareIsItsForm(text);
    AlteredDiffers(form);
    if Includes(text, StrictForm(quote)) {
      StrictInBare(quote, text);
    }
    assert OfCited(sources, 1, 0) && DrawsOn(sources[0], quote);
    assert !PresentIn(sources[0], quote);
    PresentIff(sources, 1, quote);
  }

  lemma AlteredDiffers(s: string)
    requires |s| > MIN_GROUNDING_FRAGMENT
    ensures !Includes(Altered(s), s) && Shares(s, Capped(Altered(s)), MIN_GROUNDING_FRAGMENT)
  {
    var t, m := Altered(s), MIN_GROUNDING_FRAGMENT;
    assert |t| == |s| && t[0..|s|] == t && t[|s| - 1] != s[|s| - 1];
    assert Capped(t)[..m] == t[..m] == s[..m];
    assert SharedAt(s, Capped(t), m, m, m);
  }

  /** A form of at most 20 characters is not shared without being there. */
  lemma ShortFormIsPresent(s: Source, quote: string)
    requires |LooseForm(quote)| <= MIN_GROUNDING_FRAGMENT && DrawsOn(s, quote)
    ensures PresentIn(s, quote)
  {
    hide LooseForm, StrictForm, Haystack;
    var x, h, m := LooseForm(quote), LooseForm(Haystack(s)), MIN_GROUNDING_FRAGMENT;
    var y := Capped(h);
    var j: nat, i: nat :| m <= j <= |x| && m <= i <= |y| && SharedAt(x, y, j, i, m);
    assert x[j - m..j] == x && y[i - m..i] == h[i - m..i];
    assert PartAt(h, x, i - m);
  }

  /**
   * Whatever the sources, a quote that is kept occurs in the cited document if and only if it is blank, or has an ASCII
   * letter or digit and at most 20 characters in its loose form. The longer ones can be paraphrases, the others
   * fabricated.
   */
  lemma KeptMeansOccursIff(quote: string)
    ensures (forall rank, sources, status ::
               && InRange(rank, sources)
               && StatusFits(Citation(rank, Some(quote)), sources, status) && status != Dropped ==>
                 Occurs(sources, rank, quote))
            <==> Words(quote) == [] || (HasAlphanumeric(quote) && |LooseForm(quote)| <= MIN_GROUNDING_FRAGMENT)
  {
    hide Occurs, HasAlphanumeric, LooseForm, Words, StatusFits, Altered;
    if Words(quote) == [] || (HasAlphanumeric(quote) && |LooseForm(quote)| <= MIN_GROUNDING_FRAGMENT) {
      forall rank, sources, status |
        InRange(rank, sources) && StatusFits(Citation(rank, Some(quote)), sources, status) && status != Dropped
        ensures Occurs(sources, rank, quote)
      {
        SafeQuoteOccurs(quote, rank, sources, status);
      }
    } else if !HasAlphanumeric(quote) {
      WordlessIsVerified(quote);
      assert StatusFits(Citation(1, Some(quote)), EMPTY_SOURCE, Verified) && !Occurs(EMPTY_SOURCE, 1, quote);
    } else {
      ParaphraseIsKept(quote);
      var sources := [Source(Altered(LooseForm(quote)), None, None)];
      assert StatusFits(Citation(1, Some(quote)), sources, Downgraded) && !Occurs(sources, 1, quote);
    }
  }

  lemma SafeQuoteOccurs(quote: string, rank: int, sources: seq<Source>, status: Status)
    requires InRange(rank, sources) && StatusFits(Citation(rank, Some(quote)), sources, status) && status != Dropped
    requires Words(quote) == [] || (HasAlphanumeric(quote) && |LooseForm(quote)| <= MIN_GROUNDING_FRAGMENT)
    ensures Occurs(sources, rank, quote)
  {
    hide OccursIn, HasAlphanumeric, LooseForm, Words, DrawsOn, PresentIn;
    if Words(quote) == [] {
      BlankOccurs(Haystack(sources[rank - 1]), quote);
      assert OfCited(sources, rank, rank - 1);
    } else {
      PresentIff(sources, rank, quote);
      if Draws(sources, rank, quote) {
        var i: nat :| i < |sources| && OfCited(sources, rank, i) && DrawsOn(sources[i], quote);
        ShortFormIsPresent(sources[i], quote);
      }
    }
  }

  lemma BlankOccurs(text: string, quote: string)
    requires Words(quote) == []
    ensures OccursIn(text, quote)
  {
    hide Words, LowerAll, Form;
    FormIsEmptyIff(quote);
    LowerIsEmpty(Form(quote));
    NothingIsIncluded(LowerAll(Form(text)));
  }
}
