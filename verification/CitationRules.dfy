/** Which status a citation gets, told from the shown texts alone, and what the loose comparison forgives. */
module CitationRules {
  import opened JsText
  import opened Optionals
  import opened WordForms
  import opened Citations

  // ---------- what counts as the cited document ----------

  /**
   * The status of every citation: a bare one is verified, one that points nowhere is dropped, and for any other the
   * text and the distinct focus of the cited source, and of every source with the same document id, are searched for
   * the quote and then, up to 20000 characters of each, for 20 characters of it.
   */
  lemma StatusIs(c: Citation, sources: seq<Source>, status: Status)
    requires StatusFits(c, sources, status)
    ensures c.quote.None? ==> status == Verified
    ensures c.quote.Some? && !(1 <= c.rank <= |sources|) ==> status == Dropped
    ensures c.quote.Some? && 1 <= c.rank <= |sources| ==>
      var quote, cited := c.quote.value, c.rank - 1;
      var found := exists i: nat ::
        && i < |sources|
        && (i == cited || (sources[cited].docId.Some? && sources[i].docId == sources[cited].docId))
        && OccursIn(Shown(sources[i].text, sources[i].focus), quote);
      var drawn := exists i: nat ::
        && i < |sources|
        && (i == cited || (sources[cited].docId.Some? && sources[i].docId == sources[cited].docId))
        && Shares(LooseForm(quote), Front(LooseForm(Shown(sources[i].text, sources[i].focus)), 20_000), 20);
      status == if found || !HasAlphanumeric(quote) then Verified else if drawn then Downgraded else Dropped
  {
    hide OccursIn, HasAlphanumeric, LooseForm, Shares, PresentIn, Shown, Front, Haystack, Capped;
    if c.quote.Some? && InRange(c.rank, sources) {
      PresentIff(sources, c.rank, c.quote.value);
      forall i | 0 <= i < |sources|
        ensures Shown(sources[i].text, sources[i].focus) == Haystack(sources[i])
        ensures Front(LooseForm(Haystack(sources[i])), 20_000) == Capped(LooseForm(Haystack(sources[i])))
      {
        ShownIs(sources[i], LooseForm(Haystack(sources[i])));
      }
      hide Present;
    }
  }

  /** All that the model is shown of a source. */
  function Shown(text: string, focus: Option<string>): string {
    match focus
    case None => text
    case Some(f) => if f == "" || f == text then text else text + "\n" + f
  }

  function Front(s: string, n: nat): string {
    s[..if |s| <= n then |s| else n]
  }

  lemma ShownIs(s: Source, text: string)
    ensures Shown(s.text, s.focus) == Haystack(s) && Front(text, 20_000) == Capped(text)
  {
  }

  lemma PartOfPart(s: string, a: string, b: string)
    requires Includes(s, a) && Includes(a, b)
    ensures Includes(s, b)
  {
    var i: nat :| i <= |s| && PartAt(s, a, i);
    var j: nat :| j <= |a| && PartAt(a, b, j);
    forall k | 0 <= k < |b|
      ensures s[i + j + k] == b[k]
    {
      assert s[i..i + |a|][j + k] == a[j + k] == a[j..j + |b|][k];
    }
    assert PartAt(s, b, i + j);
  }

  lemma HaystackHasBoth(s: Source)
    ensures Includes(Haystack(s), s.text)
    ensures s.focus.Some? ==> Includes(Haystack(s), s.focus.value)
  {
    var h := Haystack(s);
    assert h[0..|s.text|] == s.text;
    assert PartAt(h, s.text, 0);
    if s.focus.Some? {
      var f := s.focus.value;
      if f == "" {
        assert PartAt(h, f, 0);
      } else if f == s.text {
        assert PartAt(h, f, 0);
      } else {
        assert h[|s.text| + 1..|s.text| + 1 + |f|] == f;
        assert PartAt(h, f, |s.text| + 1);
      }
    }
  }

  /**
   * A quote is verified if it has the loose form of a passage copied from the text or the focus of the cited source, or
   * of any other source of the same document.
   */
  lemma RepunctuatedIsVerified(copied: string, c: Citation, sources: seq<Source>, i: nat, status: Status)
    requires c.quote.Some? && 1 <= c.rank <= |sources| && i < |sources|
    requires i == c.rank - 1
             || (sources[c.rank - 1].docId.Some? && sources[i].docId == sources[c.rank - 1].docId)
    requires Includes(sources[i].text, copied)
             || (sources[i].focus.Some? && Includes(sources[i].focus.value, copied))
    requires LooseForm(c.quote.value) == LooseForm(copied)
    requires StatusFits(c, sources, status)
    ensures status == Verified
  {
    hide LooseForm, StrictForm, Haystack, Includes, PartAt;
    HaystackHasBoth(sources[i]);
    if Includes(sources[i].text, copied) {
      PartOfPart(Haystack(sources[i]), sources[i].text, copied);
    } else {
      PartOfPart(Haystack(sources[i]), sources[i].focus.value, copied);
    }
    LooseFormOfPart(Haystack(sources[i]), copied);
    assert PresentIn(sources[i], c.quote.value);
  }

  lemma LooseFormOfPart(s: string, part: string)
    requires Includes(s, part)
    ensures Includes(LooseForm(s), LooseForm(part))
  {
    hide Form, LowerAll, Includes;
    UnpunctuatedPart(s, part);
    LooseFormIs(s);
    LooseFormIs(part);
    FormOfPart(Unpunctuated(s), Unpunctuated(part));
    LowerOfPart(Form(Unpunctuated(s)), Form(Unpunctuated(part)));
  }

  lemma UnpunctuatedPart(s: string, part: string)
    requires Includes(s, part)
    ensures Includes(Unpunctuated(s), Unpunctuated(part))
  {
    hide Unpunctuated;
    var i: nat :| i <= |s| && PartAt(s, part, i);
    var before, after := s[..i], s[i + |part|..];
    assert s == before + (part + after);
    UnpunctuatedAppend(before, part + after);
    UnpunctuatedAppend(part, after);
    var at := |Unpunctuated(before)|;
    assert Unpunctuated(s) == Unpunctuated(before) + (Unpunctuated(part) + Unpunctuated(after));
    assert PartAt(Unpunctuated(s), Unpunctuated(part), at);
  }

  // ---------- what the loose comparison forgives ----------

  lemma {:induction false} UnpunctuatedAppend(a: string, b: string)
    ensures Unpunctuated(a + b) == Unpunctuated(a) + Unpunctuated(b)
  {
    hide Unpunctuated, ReadAs;
    UnpunctuatedStep(a);
    if a == "" {
      assert a + b == b;
    } else {
      UnpunctuatedAppend(a[1..], b);
      UnpunctuatedStep(a + b);
      assert (a + b)[0] == a[0] && (a + b)[1..] == a[1..] + b;
    }
  }

  lemma UnpunctuatedStep(s: string)
    ensures s == "" ==> Unpunctuated(s) == ""
    ensures s != "" ==> Unpunctuated(s) == ReadAs(s[0]) + Unpunctuated(s[1..])
  {
    hide ReadAs;
  }

  lemma UnpunctuatedMiddle(a: string, c: char, b: string)
    ensures Unpunctuated(a + [c] + b) == Unpunctuated(a) + Unpunctuated([c]) + Unpunctuated(b)
  {
    hide Unpunctuated;
    UnpunctuatedAppend(a + [c], b);
    UnpunctuatedAppend(a, [c]);
  }

  /** An apostrophe or a quotation mark more or less, of the six kinds, makes no difference: "user's" is "users". */
  lemma MarksAreDropped(a: string, mark: char, b: string)
    requires mark in ['\'', '\U{2019}', '`', '"', '\U{201C}', '\U{201D}']
    ensures LooseForm(a + [mark] + b) == LooseForm(a + b)
  {
    hide Unpunctuated, Trim, Squeeze, LowerAll;
    UnpunctuatedMiddle(a, mark, b);
    UnpunctuatedAppend(a, b);
    OneMark(mark);
    assert Unpunctuated(a) + "" + Unpunctuated(b) == Unpunctuated(a) + Unpunctuated(b);
  }

  lemma OneMark(mark: char)
    requires mark in ['\'', '\U{2019}', '`', '"', '\U{201C}', '\U{201D}']
    ensures Unpunctuated([mark]) == ""
  {
    assert [mark][1..] == "";
  }

  /** Every other character that is not an ASCII letter or digit is as good as a space. */
  lemma PunctuationIsSpace(a: string, c: char, b: string)
    requires !('a' <= c <= 'z') && !('A' <= c <= 'Z') && !('0' <= c <= '9')
    requires c !in ['\'', '\U{2019}', '`', '"', '\U{201C}', '\U{201D}']
    ensures LooseForm(a + [c] + b) == LooseForm(a + " " + b)
  {
    UnpunctuatedMiddle(a, c, b);
    UnpunctuatedMiddle(a, ' ', b);
    OneUnpunctuated(c);
    hide Unpunctuated, IsSpace;
    LooseFormIs(a + [c] + b);
    LooseFormIs(a + " " + b);
    SpacesAlike(Unpunctuated(a), Unpunctuated([c])[0], Unpunctuated(b));
  }

  lemma OneUnpunctuated(c: char)
    requires !('a' <= c <= 'z') && !('A' <= c <= 'Z') && !('0' <= c <= '9')
    requires c !in ['\'', '\U{2019}', '`', '"', '\U{201C}', '\U{201D}']
    ensures Unpunctuated([c]) == if IsSpace(c) then [c] else " "
    ensures Unpunctuated(" ") == " " && IsSpace(' ')
  {
    assert [c][1..] == "" && " "[1..] == "";
  }

  /** Any two white-space characters separate the same words. */
  lemma SpacesAlike(a: string, c: char, b: string)
    requires IsSpace(c) && IsSpace(' ')
    ensures Words(a + [c] + b) == Words(a + " " + b)
  {
    WordsAround(a, c, b);
    WordsAround(a, ' ', b);
  }

  lemma {:induction false} WordsAround(a: string, c: char, b: string)
    requires IsSpace(c)
    ensures Words(a + [c] + b) == Words(a) + Words(b)
    decreases |a|
  {
    hide IsSpace, Words;
    var s := a + [c] + b;
    if a == "" {
      FormSkip(s);
      NoWords();
      assert s[1..] == b && s[0] == c;
    } else if IsSpace(a[0]) {
      WordsAround(a[1..], c, b);
      FormSkip(s);
      FormSkip(a);
      assert s[1..] == a[1..] + [c] + b;
    } else {
      var n := WordLen(a);
      var w, rest := a[..n], a[n..];
      WordsAround(rest, c, b);
      assert a == w + rest && s == w + (rest + [c] + b);
      WordsStep(w, rest);
      WordsStep(w, rest + [c] + b);
    }
  }
}
