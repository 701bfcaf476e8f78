/** What an answer is announced with, when its citations are verified against the sources the model was shown. */
module Grounded {
  import opened Optionals
  import opened WordForms
  import opened StatusGate
  import opened Synthesis
  import opened Spelling
  import Citations

  /** The synthesis verifies what is cited in a final text against its sources, and has a card for each source. */
  ghost predicate Verifies(g: Grounding, cited: string -> seq<Citations.Citation>, sources: seq<Citations.Source>) {
    && |g.cardIds| == |sources|
    && forall text :: Verified(g, cited, sources, text)
  }

  ghost predicate Verified(g: Grounding, cited: string -> seq<Citations.Citation>, sources: seq<Citations.Source>,
                           text: string)
  {
    && |g.citations(text)| == |cited(text)|
    && Citations.AllFit(cited(text), sources, g.citations(text))
  }

  /** The quote that a citation is announced with, if any, occurs in the cited document. */
  ghost predicate QuoteOccurs(c: RichCitation, sources: seq<Citations.Source>) {
    c.quote.Some? ==> Citations.InRange(c.rank, sources) && Citations.Occurs(sources, c.rank, c.quote.value)
  }

  /** Or at least shares 20 characters with it, or has no ASCII letter or digit. */
  ghost predicate QuoteDraws(c: RichCitation, sources: seq<Citations.Source>) {
    c.quote.Some? ==>
      && Citations.InRange(c.rank, sources)
      && (|| Citations.Occurs(sources, c.rank, c.quote.value)
          || Citations.Draws(sources, c.rank, c.quote.value)
          || !Citations.HasAlphanumeric(c.quote.value))
  }

  /** A citation that is announced with a quote that does not occur. */
  ghost predicate Failing(c: Citations.Citation, sources: seq<Citations.Source>) {
    Citations.Wordless(c, sources) || Citations.Paraphrased(c, sources)
  }

  lemma OneAnnounced(c: Citations.Citation, d: Citations.Detail, sources: seq<Citations.Source>, cardIds: seq<string>)
    requires Citations.Fits(c, sources, d) && |cardIds| == |sources|
    ensures Survives(d, cardIds) ==>
      && QuoteDraws(Enriched(d, cardIds), sources)
      && (QuoteOccurs(Enriched(d, cardIds), sources) <==> !Failing(c, sources))
    ensures Failing(c, sources) ==> Survives(d, cardIds)
  {
    hide Citations.Occurs, Citations.Draws, Citations.HasAlphanumeric, Citations.StatusFits;
    Citations.KeptOccursIff(c, sources, d.status);
    if d.status != Citations.Dropped && c.quote.Some? {
      KeptDraws(c, sources, d.status);
    }
  }

  lemma KeptDraws(c: Citations.Citation, sources: seq<Citations.Source>, status: Citations.Status)
    requires Citations.StatusFits(c, sources, status) && status != Citations.Dropped && c.quote.Some?
    ensures Citations.InRange(c.rank, sources)
    ensures || Citations.Occurs(sources, c.rank, c.quote.value)
            || Citations.Draws(sources, c.rank, c.quote.value)
            || !Citations.HasAlphanumeric(c.quote.value)
  {
    hide Citations.Occurs, Citations.Draws, Citations.HasAlphanumeric, Citations.Present;
    Citations.PresentIff(sources, c.rank, c.quote.value);
  }

  /**
   * The quotes a done call carries all occur in the cited documents if and only if none of the text's citations is
   * wordless (without an ASCII letter or digit, and in no part of its document) or a paraphrase (in no part of it, but
   * 20 characters are). Every quote it carries is in its document, shares 20 characters with it, or is without a letter
   * or digit.
   */
  lemma QuotesOccurIff(chunks: seq<Chunk>, ending: Ending, g: Grounding, cited: string -> seq<Citations.Citation>,
                       sources: seq<Citations.Source>)
    requires var calls := Trace(chunks, ending, g); calls != [] && calls[|calls| - 1].Done?
    requires Verifies(g, cited, sources)
    ensures var done := Trace(chunks, ending, g)[|Trace(chunks, ending, g)| - 1];
      && ((forall k :: 0 <= k < |done.citations| ==> QuoteOccurs(done.citations[k], sources))
          <==> (forall j :: 0 <= j < |cited(done.text)| ==> !Failing(cited(done.text)[j], sources)))
      && (forall k :: 0 <= k < |done.citations| ==> QuoteDraws(done.citations[k], sources))
  {
    hide Trace, QuoteOccurs, QuoteDraws, Failing, Survives, Classify, Streamed, FinalText;
    AnsweredMeansGrounded(chunks, ending, g);
    var done := Trace(chunks, ending, g)[|Trace(chunks, ending, g)| - 1];
    assert Verified(g, cited, sources, done.text);
    ResolvedOccurIff(cited(done.text), g.citations(done.text), sources, g.cardIds, done.citations);
  }

  lemma ResolvedOccurIff(cited: seq<Citations.Citation>, detail: seq<Citations.Detail>, sources: seq<Citations.Source>,
                         cardIds: seq<string>, rich: seq<RichCitation>)
    requires |detail| == |cited| && Citations.AllFit(cited, sources, detail) && |cardIds| == |sources|
    requires forall k :: 0 <= k < |rich| ==> Backed(rich[k], detail, cardIds)
    requires forall j :: 0 <= j < |detail| && Survives(detail[j], cardIds) ==> Enriched(detail[j], cardIds) in rich
    ensures (forall k :: 0 <= k < |rich| ==> QuoteOccurs(rich[k], sources))
            <==> (forall j :: 0 <= j < |cited| ==> !Failing(cited[j], sources))
    ensures forall k :: 0 <= k < |rich| ==> QuoteDraws(rich[k], sources)
  {
    hide QuoteOccurs, QuoteDraws, Failing, Survives, Citations.Fits;
    forall k | 0 <= k < |rich|
      ensures QuoteDraws(rich[k], sources)
      ensures (forall j :: 0 <= j < |cited| ==> !Failing(cited[j], sources)) ==> QuoteOccurs(rich[k], sources)
    {
      assert Backed(rich[k], detail, cardIds);
      var j: nat :| j < |detail| && Survives(detail[j], cardIds) && rich[k] == Enriched(detail[j], cardIds);
      OneAnnounced(cited[j], detail[j], sources, cardIds);
    }
    forall j | 0 <= j < |cited| && Failing(cited[j], sources)
      ensures exists k :: 0 <= k < |rich| && !QuoteOccurs(rich[k], sources)
    {
      OneAnnounced(cited[j], detail[j], sources, cardIds);
      assert Enriched(detail[j], cardIds) in rich;
      var k :| 0 <= k < |rich| && rich[k] == Enriched(detail[j], cardIds);
    }
  }

  // ---------- both kinds are announced ----------

  /** A grounded answer ends in its done call, however it is cut. */
  lemma GroundedIsDone(s: string, g: Grounding, chunks: seq<Chunk>, ending: Ending)
    requires Classify(s).Body? && Grounds(FinalText(Classify(s).body), g) && Answers(chunks, s)
    ensures var calls := Trace(chunks, ending, g);
      var text := FinalText(Classify(s).body);
      && calls != [] && calls[|calls| - 1].Done?
      && calls[|calls| - 1].text == text && calls[|calls| - 1].citations == Resolve(g.citations(text), g.cardIds)
  {
    hide Classify, FinalText, Streamed, Resolve, Flush, Begin, Uncited;
    RunStopsAfterStreaming(FRESH, chunks, ending, g);
    StreamedAccumulates(FRESH, chunks, g);
    assert "" + Output(chunks) == s;
  }

  /** The grounding of an answer that cites one quote, with a given status. */
  function OneCited(quote: string, status: Citations.Status): Grounding {
    Grounding(_ => [Citations.Detail(1, Some(quote), status)], _ => [], ["card"])
  }

  /** Every text cites the one quote. */
  function CitesOne(quote: string): string -> seq<Citations.Citation> {
    _ => [Citations.Citation(1, Some(quote))]
  }

  /** The run ends in a done call with these citations. */
  ghost predicate AnnouncedWith(chunks: seq<Chunk>, ending: Ending, g: Grounding, rich: seq<RichCitation>) {
    var calls := Trace(chunks, ending, g);
    calls != [] && calls[|calls| - 1].Done? && calls[|calls| - 1].citations == rich
  }

  /** The quote is not in a document of which this is all that was shown. */
  ghost predicate Absent(source: Citations.Source, quote: string) {
    !Citations.Occurs([source], 1, quote)
  }

  lemma OneCitedIsAnnounced(s: string, chunks: seq<Chunk>, ending: Ending, quote: string, status: Citations.Status,
                            source: Citations.Source)
    requires Classify(s).Body? && Answers(chunks, s) && status != Citations.Dropped
    requires Citations.StatusFits(Citations.Citation(1, Some(quote)), [source], status)
    ensures Verifies(OneCited(quote, status), CitesOne(quote), [source])
    ensures AnnouncedWith(chunks, ending, OneCited(quote, status), [RichCitation(1, "card", Some(quote))])
  {
    hide Classify, FinalText, Trace, Answers, Citations.StatusFits;
    var g := OneCited(quote, status);
    var text := FinalText(Classify(s).body);
    var d := Citations.Detail(1, Some(quote), status);
    OneResolves(d, "card");
    GroundedIsDone(s, g, chunks, ending);
  }

  lemma OneResolves(d: Citations.Detail, card: string)
    requires Survives(d, [card])
    ensures Resolve([d], [card]) == [Enriched(d, [card])]
  {
    assert [d][1..] == [];
    assert Resolve([], [card]) == [];
  }

  /**
   * Every quote without an ASCII letter or digit grounds every answer, however it is cut, against a source of which
   * nothing was shown, and is announced with it.
   */
  lemma FabricatedQuoteIsAnnounced(s: string, chunks: seq<Chunk>, ending: Ending, quote: string)
    requires Classify(s).Body? && Answers(chunks, s)
    requires !Citations.HasAlphanumeric(quote) && Words(quote) != []
    ensures var source := Citations.Source("", None, None);
      var g := OneCited(quote, Citations.Verified);
      && Verifies(g, CitesOne(quote), [source])
      && AnnouncedWith(chunks, ending, g, [RichCitation(1, "card", Some(quote))])
      && Absent(source, quote)
  {
    hide Classify, AnnouncedWith, Answers, Verifies, OneCited, CitesOne, Words;
    hide Citations.HasAlphanumeric, Citations.Occurs, Citations.StatusFits;
    Citations.WordlessIsVerified(quote);
    OneCitedIsAnnounced(s, chunks, ending, quote, Citations.Verified, Citations.Source("", None, None));
  }

  /**
   * Every quote of more than 20 characters in loose form is announced with every answer against some document without
   * it.
   */
  lemma ParaphraseIsAnnounced(s: string, chunks: seq<Chunk>, ending: Ending, quote: string)
    requires Classify(s).Body? && Answers(chunks, s)
    requires |Citations.LooseForm(quote)| > Citations.MIN_GROUNDING_FRAGMENT
    ensures var source := Citations.Source(Citations.Altered(Citations.LooseForm(quote)), None, None);
      var g := OneCited(quote, Citations.Downgraded);
      && Verifies(g, CitesOne(quote), [source])
      && AnnouncedWith(chunks, ending, g, [RichCitation(1, "card", Some(quote))])
      && Absent(source, quote)
  {
    hide Classify, AnnouncedWith, Answers, Verifies, OneCited, CitesOne;
    hide Citations.LooseForm, Citations.Altered, Citations.Occurs, Citations.StatusFits;
    Citations.ParaphraseIsKept(quote);
    OneCitedIsAnnounced(s, chunks, ending, quote, Citations.Downgraded,
                        Citations.Source(Citations.Altered(Citations.LooseForm(quote)), None, None));
  }
}
