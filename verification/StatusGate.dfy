/**
 * The synthesizer's output protocol: a leading status line, an answer body, and an optional ALSO line.
 * Classify reads a complete output; Gate reads one that is still arriving. The regular expressions of the
 * source are written out as scans, with JavaScript's character classes.
 */
module StatusGate {
  import opened JsText

  // ---------- character classes and scans ----------

  /** JavaScript's \w. */
  predicate IsWord(c: char) {
    'a' <= c <= 'z' || 'A' <= c <= 'Z' || '0' <= c <= '9' || c == '_'
  }

  predicate IsLineEnd(c: char) {
    c == '\n' || c == '\r' || c == '\U{2028}' || c == '\U{2029}'
  }

  /** The first index at or after `at` whose character is not a space. */
  function SkipSpaces(s: string, at: nat): (j: nat)
    requires at <= |s|
    ensures at <= j <= |s|
    ensures forall k :: at <= k < j ==> IsSpace(s[k])
    ensures j == |s| || !IsSpace(s[j])
    decreases |s| - at
  {
    if at == |s| || !IsSpace(s[at]) then at else SkipSpaces(s, at + 1)
  }

  function SkipBlanks(s: string, at: nat): (j: nat)
    requires at <= |s|
    ensures at <= j <= |s|
    ensures forall k :: at <= k < j ==> IsBlank(s[k])
    ensures j == |s| || !IsBlank(s[j])
    decreases |s| - at
  {
    if at == |s| || !IsBlank(s[at]) then at else SkipBlanks(s, at + 1)
  }

  /** A case-insensitive match of a lower-case literal at an index. */
  predicate Matches(s: string, at: nat, literal: string) {
    at + |literal| <= |s| && LowerAll(s[at..at + |literal|]) == literal
  }

  predicate StartsWith(s: string, at: nat, literal: string) {
    at + |literal| <= |s| && s[at..at + |literal|] == literal
  }

  /** JavaScript's \b after a word character. */
  predicate WordEnds(s: string, at: nat) {
    at >= |s| || !IsWord(s[at])
  }

  // ---------- the status line ----------

  const KEYWORD: string := "status:"
  const ANSWER: string := "answer"
  const NO_CONTEXT: string := "no_relevant_context"
  const SENTINEL: string := "No relevant context."

  datatype Status = Answer | NoRelevantContext

  /** The match of the status regular expression: where its pieces start, and the index after it. */
  datatype StatusLine = NoLine | Line(status: Status, gap: nat, tag: nat, after: nat, terminated: bool)

  function TagAt(s: string, at: nat): (tag: string)
    ensures tag == ANSWER || tag == NO_CONTEXT || tag == ""
    ensures tag != "" <==>
      || (Matches(s, at, ANSWER) && WordEnds(s, at + |ANSWER|))
      || (Matches(s, at, NO_CONTEXT) && WordEnds(s, at + |NO_CONTEXT|))
    ensures tag != "" ==> Matches(s, at, tag) && WordEnds(s, at + |tag|)
  {
    if Matches(s, at, ANSWER) && WordEnds(s, at + |ANSWER|) then ANSWER
    else if Matches(s, at, NO_CONTEXT) && WordEnds(s, at + |NO_CONTEXT|) then NO_CONTEXT
    else ""
  }

  function MatchStatus(s: string): (m: StatusLine)
    ensures m.Line? ==> m.after <= |s|
  {
    var start := SkipSpaces(s, 0);
    if !Matches(s, start, KEYWORD) then NoLine
    else
      var gap := start + |KEYWORD|;
      var tagAt := SkipSpaces(s, gap);
      var tag := TagAt(s, tagAt);
      if tag == "" then NoLine
      else
        var end := SkipBlanks(s, tagAt + |tag|);
        var terminated := end < |s| && s[end] == '\n';
        Line(if tag == ANSWER then Answer else NoRelevantContext, gap, tagAt,
             if terminated then end + 1 else end, terminated)
  }

  datatype Verdict = Body(body: string) | Refusal

  /** classifyStatus: how a complete output is read. */
  function Classify(s: string): Verdict {
    match MatchStatus(s)
    case Line(Answer, _, _, after, _) => Body(s[after..])
    case Line(NoRelevantContext, _, _, _, _) => Refusal
    case NoLine => if StartsWith(s, SkipSpaces(s, 0), SENTINEL) then Refusal else Body(s)
  }

  datatype GateState = Forming | Answering(body: string) | Refusing

  /** The longest of the status lines the gate knows, "status: no_relevant_context". */
  const LONGEST_CANDIDATE: nat := 27

  predicate CouldBecome(s: string, at: nat, candidate: string)
    requires at <= |s|
  {
    LowerAll(s[at..]) <= candidate
  }

  predicate StillForming(s: string, at: nat)
    requires at <= |s|
  {
    || CouldBecome(s, at, "status: answer") || CouldBecome(s, at, "status: no_relevant_context")
    || CouldBecome(s, at, "status:answer") || CouldBecome(s, at, "status:no_relevant_context")
    || (Matches(s, at, KEYWORD) && |s| - at <= LONGEST_CANDIDATE)
  }

  /** stripStatusPrefix: what may be shown of an output that is still arriving. */
  function Gate(s: string): GateState {
    var m := MatchStatus(s);
    if m.Line? && m.terminated then
      if m.status.Answer? then Answering(s[m.after..]) else Refusing
    else
      var lead := SkipSpaces(s, 0);
      if lead == |s| then Forming
      else if '\n' !in s[lead..] && StillForming(s, lead) then Forming
      else
        match Classify(s)
        case Body(body) => Answering(body)
        case Refusal => Refusing
  }

  // ---------- reading a prefix ----------

  lemma SkipSpacesIs(s: string, at: nat, j: nat)
    requires at <= j <= |s|
    requires forall k :: at <= k < j ==> IsSpace(s[k])
    requires j == |s| || !IsSpace(s[j])
    ensures SkipSpaces(s, at) == j
  {
  }

  lemma SkipSpacesPrefix(s: string, k: nat, at: nat)
    requires at <= k <= |s|
    ensures SkipSpaces(s[..k], at) == if SkipSpaces(s, at) <= k then SkipSpaces(s, at) else k
  {
    SkipSpacesIs(s[..k], at, if SkipSpaces(s, at) <= k then SkipSpaces(s, at) else k);
  }

  lemma SkipBlanksIs(s: string, at: nat, j: nat)
    requires at <= j <= |s|
    requires forall k :: at <= k < j ==> IsBlank(s[k])
    requires j == |s| || !IsBlank(s[j])
    ensures SkipBlanks(s, at) == j
  {
  }

  lemma MatchesPrefix(s: string, k: nat, at: nat, literal: string)
    requires k <= |s|
    ensures Matches(s[..k], at, literal) <==> at + |literal| <= k && Matches(s, at, literal)
  {
    if at + |literal| <= k {
      assert s[..k][at..at + |literal|] == s[at..at + |literal|];
    }
  }

  lemma MatchesAt(s: string, at: nat, literal: string, i: nat)
    requires Matches(s, at, literal) && i < |literal|
    ensures Lower(s[at + i]) == literal[i]
  {
    assert LowerAll(s[at..at + |literal|])[i] == Lower(s[at..at + |literal|][i]);
  }

  lemma StartsWithPrefix(s: string, k: nat, at: nat, literal: string)
    requires k <= |s|
    ensures StartsWith(s[..k], at, literal) <==> at + |literal| <= k && StartsWith(s, at, literal)
  {
    if at + |literal| <= k {
      assert s[..k][at..at + |literal|] == s[at..at + |literal|];
    }
  }

  function Tag(status: Status): string {
    if status.Answer? then ANSWER else NO_CONTEXT
  }

  lemma LineFacts(s: string)
    requires MatchStatus(s).Line?
    ensures var m := MatchStatus(s);
      var lead := SkipSpaces(s, 0);
      && m.gap == lead + |KEYWORD| && m.gap <= m.tag && m.tag == SkipSpaces(s, m.gap)
      && m.tag + |Tag(m.status)| <= m.after <= |s|
      && Matches(s, lead, KEYWORD) && Matches(s, m.tag, Tag(m.status)) && WordEnds(s, m.tag + |Tag(m.status)|)
      && (var end := SkipBlanks(s, m.tag + |Tag(m.status)|);
          m.terminated == (end < |s| && s[end] == '\n') && m.after == if m.terminated then end + 1 else end)
  {
    hide Matches, SkipSpaces, SkipBlanks, TagAt, IsSpace, IsBlank, IsWord;
  }

  lemma LineIs(s: string, tagAt: nat, status: Status)
    requires var lead := SkipSpaces(s, 0);
      Matches(s, lead, KEYWORD) && tagAt == SkipSpaces(s, lead + |KEYWORD|) && TagAt(s, tagAt) == Tag(status)
    ensures var end := SkipBlanks(s, tagAt + |Tag(status)|);
      var terminated := end < |s| && s[end] == '\n';
      MatchStatus(s) ==
      Line(status, SkipSpaces(s, 0) + |KEYWORD|, tagAt, if terminated then end + 1 else end, terminated)
  {
    hide Matches, SkipSpaces, SkipBlanks, TagAt, IsSpace, IsBlank, IsWord;
  }

  lemma OnlyOneTag(s: string, at: nat, status: Status)
    requires Matches(s, at, Tag(status))
    ensures TagAt(s, at) == if WordEnds(s, at + |Tag(status)|) then Tag(status) else ""
  {
    MatchesAt(s, at, Tag(status), 0);
    if Matches(s, at, ANSWER) {
      MatchesAt(s, at, ANSWER, 0);
    }
    if Matches(s, at, NO_CONTEXT) {
      MatchesAt(s, at, NO_CONTEXT, 0);
    }
  }

  /** Until the whole tag has arrived the regular expression does not match. */
  lemma BeforeTag(s: string, k: nat)
    requires MatchStatus(s).Line? && k <= |s|
    requires k < MatchStatus(s).tag + |Tag(MatchStatus(s).status)|
    ensures MatchStatus(s[..k]) == NoLine
  {
    hide MatchStatus, SkipSpaces, Matches, IsSpace, Tag, TagAt;
    var m, p, lead := MatchStatus(s), s[..k], SkipSpaces(s, 0);
    LineFacts(s);
    SkipSpacesPrefix(s, k, 0);
    MatchesPrefix(s, k, SkipSpaces(p, 0), KEYWORD);
    if k >= m.gap {
      SkipSpacesPrefix(s, k, m.gap);
      TagIsCut(s, k, m.tag, m.status);
      NoTagNoLine(p);
    } else {
      NoKeywordNoLine(p);
    }
  }

  lemma TagIsCut(s: string, k: nat, at: nat, status: Status)
    requires Matches(s, at, Tag(status)) && k < at + |Tag(status)| && k <= |s|
    ensures TagAt(s[..k], if at <= k then at else k) == ""
  {
    hide Matches;
    var at' := if at <= k then at else k;
    MatchesPrefix(s, k, at', ANSWER);
    MatchesPrefix(s, k, at', NO_CONTEXT);
    if Matches(s, at, ANSWER) {
      MatchesAt(s, at, ANSWER, 0);
      MatchesAt(s, at, Tag(status), 0);
    }
    if Matches(s, at, NO_CONTEXT) {
      MatchesAt(s, at, NO_CONTEXT, 0);
      MatchesAt(s, at, Tag(status), 0);
    }
  }

  lemma NoTagNoLine(s: string)
    requires Matches(s, SkipSpaces(s, 0), KEYWORD)
    requires TagAt(s, SkipSpaces(s, SkipSpaces(s, 0) + |KEYWORD|)) == ""
    ensures MatchStatus(s).NoLine?
  {
    hide Matches, SkipSpaces, TagAt;
  }

  /** From then on it matches the same tag, and its end only follows the blanks after it. */
  lemma AfterTag(s: string, k: nat)
    requires MatchStatus(s).Line? && k <= |s|
    requires k >= MatchStatus(s).tag + |Tag(MatchStatus(s).status)|
    ensures var m := MatchStatus(s);
      MatchStatus(s[..k]) == if k >= m.after then m else m.(after := k, terminated := false)
  {
    hide MatchStatus, SkipSpaces, SkipBlanks, Matches, TagAt, IsSpace, IsBlank, IsWord, Tag, WordEnds;
    var m, p := MatchStatus(s), s[..k];
    var tagEnd := m.tag + |Tag(m.status)|;
    LineFacts(s);
    SkipSpacesPrefix(s, k, 0);
    SkipSpacesPrefix(s, k, m.gap);
    MatchesPrefix(s, k, SkipSpaces(s, 0), KEYWORD);
    TagStays(s, k, m.tag, m.status);
    LineIs(p, m.tag, m.status);
    BlanksStay(s, k, tagEnd);
  }

  lemma TagStays(s: string, k: nat, at: nat, status: Status)
    requires Matches(s, at, Tag(status)) && WordEnds(s, at + |Tag(status)|) && at + |Tag(status)| <= k <= |s|
    ensures TagAt(s[..k], at) == Tag(status)
  {
    hide Matches, TagAt, IsWord, Tag;
    MatchesPrefix(s, k, at, Tag(status));
    OnlyOneTag(s[..k], at, status);
  }

  lemma BlanksStay(s: string, k: nat, at: nat)
    requires at <= k <= |s|
    ensures SkipBlanks(s[..k], at) == if SkipBlanks(s, at) <= k then SkipBlanks(s, at) else k
  {
    hide SkipBlanks, IsBlank;
    var end := SkipBlanks(s, at);
    SkipBlanksIs(s[..k], at, if end <= k then end else k);
  }

  // ---------- refusals ----------

  /**
   * The white space between "STATUS:" and the tag stays on its line, and is short: at most 2 characters before a
   * refusal's tag and 15 before an answer's, so that the line without its last character is no longer than a
   * candidate.
   */
  predicate TightGap(s: string)
    requires MatchStatus(s).Line?
  {
    var m := MatchStatus(s);
    LineFacts(s);
    && |KEYWORD| + (m.tag - m.gap) + |Tag(m.status)| <= LONGEST_CANDIDATE + 1
    && forall k :: m.gap <= k < m.tag ==> s[k] != '\n'
  }

  lemma TightLineHasNoNewline(s: string, i: nat)
    requires MatchStatus(s).Line? && TightGap(s)
    requires SkipSpaces(s, 0) <= i < MatchStatus(s).tag + |Tag(MatchStatus(s).status)|
    ensures i < |s| && s[i] != '\n'
  {
    hide MatchStatus, Matches, SkipSpaces, IsSpace;
    var m := MatchStatus(s);
    var lead := SkipSpaces(s, 0);
    LineFacts(s);
    if i < m.gap {
      MatchesAt(s, lead, KEYWORD, i - lead);
    } else if i >= m.tag {
      MatchesAt(s, m.tag, Tag(m.status), i - m.tag);
    }
  }

  lemma KeywordStillForming(s: string, k: nat, at: nat)
    requires at <= k <= |s| && Matches(s, at, KEYWORD)
    ensures StillForming(s[..k], at) <==> k - at <= LONGEST_CANDIDATE
  {
    MatchesPrefix(s, k, at, KEYWORD);
    if k - at < |KEYWORD| {
      var full := LowerAll(s[at..at + |KEYWORD|]);
      assert LowerAll(s[..k][at..]) == full[..k - at];
      assert "status: answer"[..|KEYWORD|] == KEYWORD;
      assert CouldBecome(s[..k], at, "status: answer");
    }
  }

  lemma FormingStartsWithS(s: string, at: nat)
    requires at < |s| && StillForming(s, at)
    ensures Lower(s[at]) == 's'
  {
    var front := LowerAll(s[at..]);
    assert front[0] == Lower(s[at]);
    if Matches(s, at, KEYWORD) {
      MatchesAt(s, at, KEYWORD, 0);
    }
  }

  lemma TightPrefixForms(s: string, k: nat)
    requires MatchStatus(s).Line? && k <= |s| && TightGap(s)
    requires k < MatchStatus(s).tag + |Tag(MatchStatus(s).status)|
    ensures Gate(s[..k]) == Forming
  {
    hide MatchStatus, Matches, SkipSpaces, IsSpace, StillForming, Tag, TagAt;
    var lead := SkipSpaces(s, 0);
    LineFacts(s);
    BeforeTag(s, k);
    SkipSpacesPrefix(s, k, 0);
    if lead < k {
      forall i | lead <= i < k ensures s[i] != '\n' {
        TightLineHasNoNewline(s, i);
      }
      KeywordStillForming(s, k, lead);
    }
  }

  lemma TightRefusalIsHidden(s: string, k: nat)
    requires MatchStatus(s).Line? && MatchStatus(s).status == NoRelevantContext && TightGap(s) && k <= |s|
    ensures !Gate(s[..k]).Answering?
  {
    hide MatchStatus, Matches, SkipSpaces, SkipBlanks, IsSpace, StillForming, StartsWith;
    if k < MatchStatus(s).tag + |NO_CONTEXT| {
      TightPrefixForms(s, k);
    } else {
      AfterTag(s, k);
    }
  }

  /** A prefix of a refusal that the gate takes for an answer. */
  function RevealedAt(s: string): nat {
    var lead := SkipSpaces(s, 0);
    var m := MatchStatus(s);
    if m.NoLine? then lead + 1
    else if exists q :: m.gap <= q < m.tag && q < |s| && s[q] == '\n' then
      FirstNewline(s, m.gap) + 1
    else lead + LONGEST_CANDIDATE + 1
  }

  function FirstNewline(s: string, at: nat): (q: nat)
    requires exists q :: at <= q < |s| && s[q] == '\n'
    ensures at <= q < |s| && s[q] == '\n'
    ensures forall i :: at <= i < q ==> s[i] != '\n'
    decreases |s| - at
  {
    if s[at] == '\n' then at else FirstNewline(s, at + 1)
  }

  lemma NoKeywordNoLine(s: string)
    requires !Matches(s, SkipSpaces(s, 0), KEYWORD)
    ensures MatchStatus(s).NoLine?
  {
  }

  lemma SentinelStartsWithN(s: string, at: nat)
    ensures StartsWith(s, at, SENTINEL) ==> s[at] == 'N'
  {
    if StartsWith(s, at, SENTINEL) {
      assert s[at] == s[at..at + |SENTINEL|][0];
    }
  }

  lemma SentinelIsRevealed(s: string)
    requires Classify(s).Refusal? && MatchStatus(s).NoLine?
    ensures var k := RevealedAt(s);
      k <= |s| && Gate(s[..k]).Answering?
  {
    hide MatchStatus, SkipSpaces, IsSpace, StillForming;
    var lead := SkipSpaces(s, 0);
    var p := s[..lead + 1];
    SentinelStartsWithN(s, lead);
    SkipSpacesPrefix(s, lead + 1, 0);
    NoKeywordNoLine(p);
    if StillForming(p, lead) {
      FormingStartsWithS(p, lead);
    }
  }

  /** From there until its whole tag has arrived, a loose line is itself shown as prose. */
  lemma LooseLineIsShown(s: string, k: nat)
    requires MatchStatus(s).Line? && !TightGap(s)
    requires RevealedAt(s) <= k < MatchStatus(s).tag + |Tag(MatchStatus(s).status)|
    ensures k <= |s| && Gate(s[..k]) == Answering(s[..k])
  {
    hide MatchStatus, Matches, SkipSpaces, IsSpace, StillForming, TightGap, Tag, RevealedAt, StartsWith;
    RevealedAtIs(s);
    LineFacts(s);
    var lead, p := SkipSpaces(s, 0), s[..k];
    BeforeTag(s, k);
    SkipSpacesPrefix(s, k, 0);
    KeywordStillForming(s, k, lead);
    KeywordIsNoSentinel(s, lead);
    StartsWithPrefix(s, k, lead, SENTINEL);
    NewlineInSlice(p, lead, RevealedAt(s) - 1);
  }

  lemma KeywordIsNoSentinel(s: string, at: nat)
    requires Matches(s, at, KEYWORD)
    ensures !StartsWith(s, at, SENTINEL)
  {
    MatchesAt(s, at, KEYWORD, 0);
    SentinelStartsWithN(s, at);
  }

  lemma NewlineInSlice(s: string, from: nat, at: nat)
    requires from <= at < |s|
    ensures s[at] == '\n' ==> '\n' in s[from..]
  {
    assert s[from..][at - from] == s[at];
  }

  lemma RevealedAtIs(s: string)
    requires MatchStatus(s).Line? && !TightGap(s)
    ensures var m := MatchStatus(s);
      var k := RevealedAt(s);
      && SkipSpaces(s, 0) < k < m.tag + |Tag(m.status)| <= |s|
      && (s[k - 1] == '\n' || k == SkipSpaces(s, 0) + LONGEST_CANDIDATE + 1)
  {
    hide MatchStatus, Matches, SkipSpaces, SkipBlanks, IsSpace, TagAt, WordEnds, FirstNewline, Tag;
    LineFacts(s);
    TagLetters(MatchStatus(s).status);
  }

  /**
   * "A refusal is never streamed" holds of an output, however it is cut into deltas, if and only if the refusal
   * is a status line whose tag follows the colon within two white-space characters on the same line. A legacy
   * refusal, with the sentinel instead of a status line, is always revealed by some cut.
   */
  lemma RefusalHiddenIff(s: string)
    requires Classify(s).Refusal?
    ensures (forall k :: 0 <= k <= |s| ==> !Gate(s[..k]).Answering?)
            <==> MatchStatus(s).Line? && TightGap(s)
  {
    if MatchStatus(s).Line? && TightGap(s) {
      forall k | 0 <= k <= |s| ensures !Gate(s[..k]).Answering? {
        TightRefusalIsHidden(s, k);
      }
    } else if MatchStatus(s).Line? {
      RevealedAtIs(s);
      LooseLineIsShown(s, RevealedAt(s));
    } else {
      SentinelIsRevealed(s);
    }
  }

  // ---------- answers ----------

  /** Answers on which the gate never changes its mind: a tight status line, or no "STATUS:" at all. */
  predicate Steady(s: string) {
    && Classify(s).Body?
    && (if MatchStatus(s).Line? then TightGap(s) else !Matches(s, SkipSpaces(s, 0), KEYWORD))
  }

  lemma UntaggedPrefix(s: string, k: nat)
    requires Steady(s) && MatchStatus(s).NoLine? && k <= |s|
    ensures MatchStatus(s[..k]).NoLine?
    ensures Classify(s[..k]) == Body(s[..k])
    ensures SkipSpaces(s[..k], 0) < k ==>
      !Matches(s[..k], SkipSpaces(s[..k], 0), KEYWORD) && SkipSpaces(s[..k], 0) == SkipSpaces(s, 0)
  {
    var lead := SkipSpaces(s, 0);
    var p := s[..k];
    SkipSpacesPrefix(s, k, 0);
    MatchesPrefix(s, k, lead, KEYWORD);
    StartsWithPrefix(s, k, lead, SENTINEL);
  }

  /** A prefix that matches the status line of an output that does not: it ends with a tag that goes on as a word. */
  lemma CutWord(s: string, k: nat)
    requires MatchStatus(s).NoLine? && k <= |s| && MatchStatus(s[..k]).Line?
    ensures MatchStatus(s[..k]).after == k
  {
    hide MatchStatus, SkipSpaces, Matches, IsSpace, IsBlank, IsWord, SkipBlanks, TagAt;
    var p := s[..k];
    var m := MatchStatus(p);
    LineFacts(p);
    SkipSpacesPrefix(s, k, 0);
    SkipSpacesPrefix(s, k, m.gap);
    MatchesPrefix(s, k, SkipSpaces(s, 0), KEYWORD);
    MatchesPrefix(s, k, m.tag, Tag(m.status));
    OnlyOneTag(s, m.tag, m.status);
    if TagAt(s, m.tag) == Tag(m.status) {
      LineIs(s, m.tag, m.status);
    }
  }

  /**
   * What the gate shows of an answer that is still arriving is a prefix of its body; or, while the tag of a loose
   * status line is incomplete, all that has arrived, control token included.
   */
  lemma GateShows(s: string, k: nat)
    requires Classify(s).Body? && k <= |s| && Gate(s[..k]).Answering?
    ensures var m := MatchStatus(s);
      || Gate(s[..k]).body <= Classify(s).body
      || (m.Line? && !TightGap(s) && k < m.tag + |ANSWER| && Gate(s[..k]).body == s[..k])
  {
    hide MatchStatus, Matches, SkipSpaces, SkipBlanks, IsSpace, StillForming, StartsWith, TightGap;
    var m := MatchStatus(s);
    if m.NoLine? {
      if MatchStatus(s[..k]).Line? {
        CutWord(s, k);
      }
    } else if k < m.tag + |Tag(m.status)| {
      BeforeTag(s, k);
      if TightGap(s) {
        TightPrefixForms(s, k);
      }
    } else {
      AfterTag(s, k);
      if k >= m.after {
        assert s[..k][m.after..] == s[m.after..][..k - m.after];
      }
    }
  }

  /** An output whose status line is still forming was forming all along. */
  lemma FormingAllAlong(s: string, k: nat)
    requires Gate(s) == Forming && k <= |s|
    ensures Gate(s[..k]) == Forming
  {
    hide MatchStatus, SkipSpaces, Matches, StillForming, IsSpace, StartsWith;
    var lead := SkipSpaces(s, 0);
    var p := s[..k];
    SkipSpacesPrefix(s, k, 0);
    TerminatedHasNewline(p);
    if lead < k {
      NewlineStays(s, k, |s|, lead);
      assert s[..|s|] == s;
      KeptForming(s, k, lead);
    }
  }

  lemma TerminatedHasNewline(p: string)
    ensures MatchStatus(p).Line? && MatchStatus(p).terminated ==> '\n' in p[SkipSpaces(p, 0)..]
  {
    hide MatchStatus, SkipSpaces, Matches, IsSpace;
    if MatchStatus(p).Line? && MatchStatus(p).terminated {
      LineFacts(p);
      var lead, end := SkipSpaces(p, 0), MatchStatus(p).after - 1;
      assert p[lead..][end - lead] == p[end];
    }
  }

  lemma KeptForming(s: string, k: nat, at: nat)
    requires at <= k <= |s| && StillForming(s, at)
    ensures StillForming(s[..k], at)
  {
    hide Matches;
    assert s[..|s|] == s;
    CouldBecomePrefix(s, k, |s|, at);
    if Matches(s, at, KEYWORD) {
      KeywordStillForming(s, |s|, at);
      KeywordStillForming(s, k, at);
    }
  }

  lemma NewlineStays(s: string, k: nat, n: nat, at: nat)
    requires at <= k <= n <= |s|
    ensures '\n' in s[..k][at..] ==> '\n' in s[..n][at..]
  {
    assert s[..k][at..] == s[..n][at..][..k - at];
  }

  lemma TaggedGateGrows(s: string, k: nat, n: nat)
    requires Steady(s) && MatchStatus(s).Line? && k <= n <= |s|
    requires Gate(s[..k]).Answering?
    ensures Gate(s[..n]).Answering?
    ensures Gate(s[..k]).body <= Gate(s[..n]).body
  {
    hide SkipSpaces, MatchStatus, Matches, StillForming, IsSpace, StartsWith, TightGap;
    var m := MatchStatus(s);
    var lead := SkipSpaces(s, 0);
    LineFacts(s);
    if k < m.tag + |Tag(m.status)| {
      TightPrefixForms(s, k);
    }
    SkipSpacesPrefix(s, k, 0);
    SkipSpacesPrefix(s, n, 0);
    NewlineStays(s, k, n, lead);
    AfterTag(s, k);
    AfterTag(s, n);
    if k >= m.after {
      assert s[..k][m.after..] <= s[..n][m.after..];
    }
    KeywordStillForming(s, k, lead);
    KeywordStillForming(s, n, lead);
  }

  lemma UntaggedGateGrows(s: string, k: nat, n: nat)
    requires Steady(s) && MatchStatus(s).NoLine? && k <= n <= |s|
    requires Gate(s[..k]).Answering?
    ensures Gate(s[..n]).Answering?
    ensures Gate(s[..k]).body <= Gate(s[..n]).body
  {
    hide SkipSpaces, MatchStatus, Matches, StillForming, IsSpace, StartsWith;
    var lead := SkipSpaces(s, 0);
    SkipSpacesPrefix(s, k, 0);
    SkipSpacesPrefix(s, n, 0);
    UntaggedPrefix(s, k);
    UntaggedPrefix(s, n);
    if lead < k {
      NewlineStays(s, k, n, lead);
      CouldBecomePrefix(s, k, n, lead);
    }
  }

  /** Once it shows something it goes on showing it: the body of a longer prefix extends that of a shorter one. */
  lemma GateOnlyGrows(s: string, k: nat, n: nat)
    requires Steady(s) && k <= n <= |s|
    requires Gate(s[..k]).Answering?
    ensures Gate(s[..n]).Answering?
    ensures Gate(s[..k]).body <= Gate(s[..n]).body
  {
    if MatchStatus(s).Line? {
      TaggedGateGrows(s, k, n);
    } else {
      UntaggedGateGrows(s, k, n);
    }
  }

  lemma CouldBecomePrefix(s: string, k: nat, n: nat, at: nat)
    requires at <= k <= n <= |s|
    ensures StillForming(s[..n], at) && !Matches(s[..n], at, KEYWORD) ==> StillForming(s[..k], at)
  {
    assert s[..k][at..] == s[..n][at..][..k - at];
    assert LowerAll(s[..k][at..]) <= LowerAll(s[..n][at..]);
  }

  // ---------- the ALSO line ----------

  const ALSO: string := "also:"

  predicate IsRankListChar(c: char) {
    '0' <= c <= '9' || c == ',' || IsBlank(c)
  }

  function SkipRankList(s: string, at: nat): (j: nat)
    requires at <= |s|
    ensures at <= j <= |s|
    decreases |s| - at
  {
    if at == |s| || !IsRankListChar(s[at]) then at else SkipRankList(s, at + 1)
  }

  /** A match of the ALSO line's regular expression that starts exactly at an index: the index after it. */
  datatype AlsoMatch = NoAlso | Also(start: nat, end: nat)

  function AlsoAt(s: string, at: nat): (m: AlsoMatch)
    requires at <= |s|
    ensures m.Also? ==> m.start == at && at + |ALSO| <= m.end <= |s|
  {
    if at > 0 && !IsLineEnd(s[at - 1]) then NoAlso
    else
      var word := SkipSpaces(s, at);
      if !Matches(s, word, ALSO) then NoAlso
      else
        var end := SkipRankList(s, word + |ALSO|);
        if end < |s| && !IsLineEnd(s[end]) then NoAlso else Also(at, end)
  }

  /** The leftmost match. */
  function FindAlso(s: string, from: nat): (m: AlsoMatch)
    requires from <= |s|
    ensures m.Also? ==> from <= m.start && m.start + |ALSO| <= m.end <= |s| && m == AlsoAt(s, m.start)
    decreases |s| - from
  {
    if AlsoAt(s, from).Also? then AlsoAt(s, from)
    else if from == |s| then NoAlso
    else FindAlso(s, from + 1)
  }

  /** Three or more newlines in a row become two. */
  function Collapse(s: string): (t: string)
    ensures |t| <= |s|
  {
    if s == [] then []
    else if |s| >= 3 && s[0] == s[1] == s[2] == '\n' then Collapse(s[1..])
    else [s[0]] + Collapse(s[1..])
  }

  /** The text an answer body is finally stored and shown as. */
  function FinalText(body: string): string {
    match FindAlso(body, 0)
    case NoAlso => body
    case Also(start, end) => TrimEnd(Collapse(body[..start] + body[end..]))
  }

  // ---------- which lines are taken for an ALSO line ----------

  const LINE_ENDS: seq<char> := ['\n', '\r', '\U{2028}', '\U{2029}']
  const RANK_LIST_CHARS: string := "0123456789, \t"

  /**
   * From the beginning of a line on: white space, the word in any letter case at index `word`, then nothing but digits,
   * commas, spaces and tabs to the end of a line.
   */
  predicate IsAlsoLine(s: string, at: nat, word: nat, end: nat) {
    && at <= word && word + 5 <= end <= |s|
    && (at == 0 || s[at - 1] in LINE_ENDS) && (end == |s| || s[end] in LINE_ENDS)
    && (forall k :: at <= k < word ==> IsSpace(s[k]))
    && LowerAll(s[word..word + 5]) == "also:"
    && (forall k :: word + 5 <= k < end ==> s[k] in RANK_LIST_CHARS)
  }

  lemma RankListIs(s: string, at: nat, end: nat)
    requires at <= end <= |s|
    requires (forall k :: at <= k < end ==> IsRankListChar(s[k])) && (end == |s| || !IsRankListChar(s[end]))
    ensures SkipRankList(s, at) == end
    decreases end - at
  {
    if at < end {
      RankListIs(s, at + 1, end);
    }
  }

  lemma {:induction false} RankListSkipped(s: string, at: nat)
    requires at <= |s|
    ensures forall k :: at <= k < SkipRankList(s, at) ==> IsRankListChar(s[k])
    decreases |s| - at
  {
    if at < |s| && IsRankListChar(s[at]) {
      RankListSkipped(s, at + 1);
    }
  }

  lemma CharsAre(c: char)
    ensures IsRankListChar(c) <==> c in RANK_LIST_CHARS
    ensures IsLineEnd(c) <==> c in LINE_ENDS
    ensures IsLineEnd(c) ==> !IsRankListChar(c)
    ensures Lower(c) == 'a' ==> !IsSpace(c)
  {
  }

  /** The match at an index is the line there, if there is one. */
  lemma AlsoAtIff(s: string, at: nat)
    requires at <= |s|
    ensures AlsoAt(s, at).Also? <==> exists word: nat, end: nat :: IsAlsoLine(s, at, word, end)
    ensures forall word: nat, end: nat :: IsAlsoLine(s, at, word, end) ==> AlsoAt(s, at) == Also(at, end)
  {
    hide IsSpace, IsRankListChar, IsLineEnd, SkipSpaces, SkipRankList, LowerAll, AlsoAt;
    forall c
      ensures IsRankListChar(c) <==> c in RANK_LIST_CHARS
      ensures IsLineEnd(c) <==> c in LINE_ENDS
    {
      CharsAre(c);
    }
    if AlsoAt(s, at).Also? {
      LineOfAlso(s, at);
    }
    forall word: nat, end: nat | IsAlsoLine(s, at, word, end)
      ensures AlsoAt(s, at) == Also(at, end)
    {
      AlsoOfLine(s, at, word, end);
    }
  }

  lemma LineOfAlso(s: string, at: nat)
    requires at <= |s| && AlsoAt(s, at).Also?
    ensures IsAlsoLine(s, at, SkipSpaces(s, at), AlsoAt(s, at).end)
  {
    hide IsSpace, IsRankListChar, IsLineEnd, LowerAll;
    var word, end := SkipSpaces(s, at), AlsoAt(s, at).end;
    RankListSkipped(s, word + |ALSO|);
    forall k | 0 <= k < |s|
      ensures IsRankListChar(s[k]) <==> s[k] in RANK_LIST_CHARS
      ensures IsLineEnd(s[k]) <==> s[k] in LINE_ENDS
    {
      CharsAre(s[k]);
    }
  }

  lemma AlsoOfLine(s: string, at: nat, word: nat, end: nat)
    requires at <= |s| && IsAlsoLine(s, at, word, end)
    ensures AlsoAt(s, at) == Also(at, end)
  {
    hide IsSpace, IsRankListChar, IsLineEnd;
    assert LowerAll(s[word..word + 5])[0] == Lower(s[word]);
    CharsAre(s[word]);
    SkipSpacesIs(s, at, word);
    forall k | 0 <= k < |s|
      ensures IsRankListChar(s[k]) <==> s[k] in RANK_LIST_CHARS
      ensures IsLineEnd(s[k]) <==> s[k] in LINE_ENDS
      ensures IsLineEnd(s[k]) ==> !IsRankListChar(s[k])
    {
      CharsAre(s[k]);
    }
    RankListIs(s, word + 5, end);
  }

  /** The first such line is taken out, and the text is left alone if there is none: a garbled line eats no prose. */
  lemma {:induction false} FoundIff(s: string, from: nat)
    requires from <= |s|
    ensures FindAlso(s, from).NoAlso? <==>
      forall at: nat, word: nat, end: nat :: from <= at ==> !IsAlsoLine(s, at, word, end)
    ensures FindAlso(s, from).Also? ==>
      var Also(start, end) := FindAlso(s, from);
      && (exists word: nat :: IsAlsoLine(s, start, word, end))
      && (forall at: nat, word: nat, e: nat :: from <= at < start ==> !IsAlsoLine(s, at, word, e))
    decreases |s| - from
  {
    hide AlsoAt, IsAlsoLine;
    AlsoAtIff(s, from);
    AlsoLineWithin(s);
    if !AlsoAt(s, from).Also? && from < |s| {
      FoundIff(s, from + 1);
    }
  }

  lemma AlsoLineWithin(s: string)
    ensures forall at: nat, word: nat, end: nat :: IsAlsoLine(s, at, word, end) ==> at <= |s|
  {
  }

  /** What is stored of a body: all of it, or what is left without its first ALSO line. */
  lemma StoredText(body: string)
    ensures (forall at: nat, word: nat, end: nat :: !IsAlsoLine(body, at, word, end)) ==> FinalText(body) == body
    ensures forall at: nat, word: nat, end: nat ::
      IsAlsoLine(body, at, word, end) && (forall a: nat, w: nat, e: nat :: a < at ==> !IsAlsoLine(body, a, w, e)) ==>
        at <= end <= |body| && FinalText(body) == TrimEnd(Collapse(body[..at] + body[end..]))
  {
    hide AlsoAt, IsAlsoLine, Collapse;
    FoundIff(body, 0);
    forall at: nat, word: nat, end: nat |
      IsAlsoLine(body, at, word, end) && (forall a: nat, w: nat, e: nat :: a < at ==> !IsAlsoLine(body, a, w, e))
      ensures at <= end <= |body| && FinalText(body) == TrimEnd(Collapse(body[..at] + body[end..]))
    {
      AlsoLineWithin(body);
      AlsoAtIff(body, at);
      FirstIsFound(body, at);
    }
  }

  lemma FirstIsFound(body: string, at: nat)
    requires at <= |body| && AlsoAt(body, at).Also?
    requires forall a: nat, w: nat, e: nat :: a < at ==> !IsAlsoLine(body, a, w, e)
    ensures FindAlso(body, 0) == AlsoAt(body, at)
  {
    hide AlsoAt, IsAlsoLine;
    FoundIff(body, 0);
    AlsoAtIff(body, at);
    forall a: nat | a < at
      ensures AlsoAt(body, a).NoAlso?
    {
      AlsoAtIff(body, a);
    }
    NoAlsoFrom(body, 0, at);
    FoundAt(body, at);
  }

  // ---------- outputs worked through ----------

  lemma LowerIsItself(s: string)
    requires forall i :: 0 <= i < |s| ==> !('A' <= s[i] <= 'Z')
    ensures LowerAll(s) == s
  {
  }

  lemma ConcreteWords()
    ensures LowerAll("STATUS:") == KEYWORD && LowerAll("answer") == ANSWER
    ensures LowerAll("no_relevant_context") == NO_CONTEXT
  {
    LowerIsItself(NO_CONTEXT);
  }

  lemma NotSpace(s: string, at: nat, literal: string)
    requires at < |s| && literal != "" && Lower(s[at]) == literal[0]
    requires literal[0] == 's' || literal[0] == 'a' || literal[0] == 'n'
    ensures !IsSpace(s[at])
  {
  }

  lemma FirstLower(s: string, literal: string)
    requires LowerAll(s) == literal && literal != ""
    ensures |s| == |literal| && Lower(s[0]) == literal[0]
  {
  }

  lemma TagLetters(status: Status)
    ensures Tag(status) != "" && (Tag(status)[0] == 'a' || Tag(status)[0] == 'n')
  {
  }

  lemma MatchesWhole(s: string, at: nat, part: string, literal: string)
    requires at + |part| <= |s| && s[at..at + |part|] == part && LowerAll(part) == literal
    ensures Matches(s, at, literal)
  {
  }

  lemma FourParts(word: string, gap: string, tag: string, rest: string)
    ensures var s := word + gap + tag + rest;
      var g, t, e := |word|, |word + gap|, |word + gap + tag|;
      && s[0..g] == word && s[g..t] == gap && s[t..e] == tag && s[e..] == rest
      && (word != "" ==> s[0] == word[0]) && (tag != "" ==> s[t] == tag[0]) && (rest != "" ==> s[e] == rest[0])
      && forall i :: g <= i < t ==> s[i] == gap[i - g]
  {
  }

  /** The same, given where the parts begin and end. */
  lemma LineOfParts(s: string, g: nat, t: nat, e: nat, status: Status)
    requires g == |KEYWORD| <= t < e == t + |Tag(status)| <= |s|
    requires Matches(s, 0, KEYWORD) && !IsSpace(s[0])
    requires forall i :: g <= i < t ==> IsSpace(s[i])
    requires Matches(s, t, Tag(status)) && !IsSpace(s[t])
    requires e == |s| || s[e] == '\n'
    ensures MatchStatus(s) == Line(status, g, t, if e == |s| then e else e + 1, e < |s|)
  {
    hide IsSpace, SkipSpaces, SkipBlanks, MatchStatus, TagAt, Tag, Matches;
    SkipSpacesIs(s, 0, 0);
    SkipSpacesIs(s, g, t);
    SkipBlanksIs(s, e, e);
    OnlyOneTag(s, t, status);
    LineIs(s, t, status);
  }

  /** A status line put together from its parts. */
  lemma LineOf(word: string, gap: string, tag: string, rest: string, status: Status)
    requires LowerAll(word) == KEYWORD && LowerAll(tag) == Tag(status)
    requires forall i :: 0 <= i < |gap| ==> IsSpace(gap[i])
    requires rest == "" || rest[0] == '\n'
    ensures var s := word + gap + tag + rest;
      MatchStatus(s) ==
      Line(status, |word|, |word + gap|, |word + gap + tag| + (if rest == "" then 0 else 1), rest != "")
  {
    hide IsSpace, MatchStatus, TagAt, LowerAll, Tag, Matches;
    TagLetters(status);
    FirstLower(word, KEYWORD);
    FirstLower(tag, Tag(status));
    var s := word + gap + tag + rest;
    var g, t, e := |word|, |word + gap|, |word + gap + tag|;
    FourParts(word, gap, tag, rest);
    NotSpace(s, 0, KEYWORD);
    NotSpace(s, t, Tag(status));
    MatchesWhole(s, 0, word, KEYWORD);
    MatchesWhole(s, t, tag, Tag(status));
    LineOfParts(s, g, t, e, status);
  }

  /** A newline between the colon and the tag: a refusal whose gap is not tight. */
  lemma SplitStatusLine(word: string, tag: string)
    requires LowerAll(word) == KEYWORD && LowerAll(tag) == NO_CONTEXT
    ensures var s := word + "\n" + tag;
      Classify(s) == Refusal && MatchStatus(s).Line? && !TightGap(s)
  {
    LineOf(word, "\n", tag, "", NoRelevantContext);
    var s := word + "\n" + tag;
    assert s + "" == s;
    assert s[|word|] == '\n';
    hide MatchStatus, LowerAll;
  }

  /** A refusal in the legacy form, without a status line. */
  lemma LegacySentinel()
    ensures Classify(SENTINEL) == Refusal && MatchStatus(SENTINEL).NoLine?
  {
    var s := SENTINEL;
    SkipSpacesIs(s, 0, 0);
    assert LowerAll(s[0..7])[0] == 'n';
    hide SkipSpaces, LowerAll;
    NoKeywordNoLine(s);
    assert s[0..|s|] == s;
  }

  /** A tagged answer, with any white space after the colon: the gate shows its body, which is what follows the line. */
  lemma TaggedAnswer(word: string, gap: string, tag: string, body: string)
    requires LowerAll(word) == KEYWORD && LowerAll(tag) == ANSWER
    requires forall i :: 0 <= i < |gap| ==> IsSpace(gap[i])
    ensures var s := word + gap + tag + ("\n" + body);
      && Gate(s) == Answering(body) && Classify(s) == Body(body)
      && MatchStatus(s) == Line(Answer, |word|, |word + gap|, |word + gap + tag| + 1, true)
      && (TightGap(s) <==> |gap| <= 15 && '\n' !in gap)
  {
    hide MatchStatus, LowerAll, SkipSpaces, IsSpace, StillForming;
    var s := word + gap + tag + ("\n" + body);
    LineOf(word, gap, tag, "\n" + body, Answer);
    assert s[|word + gap + tag| + 1..] == body;
    assert forall i :: |word| <= i < |word + gap| ==> s[i] == gap[i - |word|];
    assert forall i :: 0 <= i < |gap| ==> gap[i] == s[i + |word|];
  }

  // ---------- a trailing ALSO line ----------

  predicate IsTrimmed(s: string) {
    s != "" ==> !IsSpace(s[|s| - 1])
  }

  lemma {:induction false} RankListToEnd(s: string, at: nat)
    requires at <= |s| && forall i :: at <= i < |s| ==> IsRankListChar(s[i])
    ensures SkipRankList(s, at) == |s|
    decreases |s| - at
  {
    if at < |s| {
      RankListToEnd(s, at + 1);
    }
  }

  /** A rank list within a line ends where it did before more lines followed. */
  lemma {:induction false} RankListStays(s: string, more: string, at: nat)
    requires at <= |s| && more != "" && !IsRankListChar(more[0])
    ensures SkipRankList(s + more, at) == SkipRankList(s, at)
    decreases |s| - at
  {
    if at < |s| && IsRankListChar(s[at]) {
      RankListStays(s, more, at + 1);
    }
  }

  /** Lines after a text with ink from `at` on neither make nor undo a match there. */
  lemma AlsoAtStays(s: string, more: string, at: nat)
    requires IsTrimmed(s) && at < |s| && more != "" && more[0] == '\n'
    ensures AlsoAt(s + more, at).Also? <==> AlsoAt(s, at).Also?
  {
    hide SkipSpaces, SkipRankList, IsSpace;
    var all := s + more;
    var word := SkipSpaces(s, at);
    SkipSpacesIs(all, at, word);
    if word + |ALSO| <= |s| {
      assert all[word..word + |ALSO|] == s[word..word + |ALSO|];
      RankListStays(s, more, word + |ALSO|);
    } else if Matches(all, word, ALSO) {
      MatchesAt(all, word, ALSO, |s| - word);
    }
  }

  lemma {:induction false} NoAlsoFrom(s: string, from: nat, to: nat)
    requires from <= to <= |s| && forall i :: from <= i < to ==> AlsoAt(s, i).NoAlso?
    ensures FindAlso(s, from) == FindAlso(s, to)
    decreases |s| - from
  {
    if from < to {
      NoAlsoFrom(s, from + 1, to);
    }
  }

  lemma {:induction false} NoAlsoAnywhere(s: string, from: nat, i: nat)
    requires from <= i <= |s| && FindAlso(s, from).NoAlso?
    ensures AlsoAt(s, i).NoAlso?
    decreases |s| - from
  {
    if from < i {
      NoAlsoAnywhere(s, from + 1, i);
    }
  }

  lemma {:induction false} CollapseBreak(s: string)
    requires IsTrimmed(s)
    ensures Collapse(s + "\n") == Collapse(s) + "\n" && IsTrimmed(Collapse(s)) && (s != "" ==> Collapse(s) != "")
  {
    if s != "" {
      var tail := s[1..];
      assert (s + "\n")[1..] == tail + "\n";
      CollapseBreak(tail);
    } else {
      assert Collapse("\n") == "\n";
    }
  }

  /**
   * An ALSO line after a text is stripped together with the newline before it, whatever its letter case, indentation
   * and ranks; what stays is the text, with its runs of empty lines shortened.
   */
  lemma StripsAlso(text: string, indent: string, word: string, ranks: string)
    requires IsTrimmed(text) && FindAlso(text, 0).NoAlso? && LowerAll(word) == ALSO
    requires forall i :: 0 <= i < |indent| ==> IsBlank(indent[i])
    requires forall i :: 0 <= i < |ranks| ==> ranks[i] in RANK_LIST_CHARS
    ensures FinalText(text + ("\n" + indent + word + ranks)) == Collapse(text)
  {
    hide FindAlso, SkipSpaces, SkipRankList, Collapse, IsSpace, AlsoAt, LowerAll;
    var line := "\n" + indent + word + ranks;
    var body, start := text + line, if text == "" then 0 else |text| + 1;
    forall i | 0 <= i < start
      ensures AlsoAt(body, i).NoAlso?
    {
      if i < |text| {
        NoAlsoAnywhere(text, 0, i);
        AlsoAtStays(text, line, i);
      } else {
        NotLineStart(body, i);
      }
    }
    NoAlsoFrom(body, 0, start);
    AlsoLineMatches(text, indent, word, ranks, start);
    FoundAt(body, start);
    assert body[..start] + body[|body|..] == if text == "" then "" else text + "\n";
    CollapseBreak(text);
    TrimsBreak(Collapse(text));
  }

  lemma FoundAt(s: string, at: nat)
    requires at <= |s| && AlsoAt(s, at).Also?
    ensures FindAlso(s, at) == AlsoAt(s, at)
  {
  }

  lemma NotLineStart(s: string, at: nat)
    requires 0 < at <= |s| && !IsSpace(s[at - 1])
    ensures AlsoAt(s, at).NoAlso?
  {
  }

  lemma TrimsBreak(s: string)
    requires IsTrimmed(s)
    ensures TrimEnd(s + "\n") == s && TrimEnd(s) == s
  {
    assert (s + "\n")[..|s|] == s;
  }

  lemma AlsoLineMatches(text: string, indent: string, word: string, ranks: string, start: nat)
    requires LowerAll(word) == ALSO
    requires forall i :: 0 <= i < |indent| ==> IsBlank(indent[i])
    requires forall i :: 0 <= i < |ranks| ==> IsRankListChar(ranks[i])
    requires start == if text == "" then 0 else |text| + 1
    ensures var body := text + ("\n" + indent + word + ranks); AlsoAt(body, start) == Also(start, |body|)
  {
    hide SkipSpaces, SkipRankList, LowerAll;
    var body, at := text + ("\n" + indent + word + ranks), |text| + 1 + |indent|;
    FirstLower(word, ALSO);
    assert body[at..at + |word|] == word && body[at] == word[0];
    assert forall i :: |text| < i < at ==> body[i] == indent[i - |text| - 1];
    assert body[|text|] == '\n';
    NotSpace(body, at, ALSO);
    SkipSpacesIs(body, start, at);
    MatchesWhole(body, at, word, ALSO);
    assert forall i :: at + |ALSO| <= i < |body| ==> body[i] == ranks[i - at - |ALSO|];
    RankListToEnd(body, at + |ALSO|);
  }
}
