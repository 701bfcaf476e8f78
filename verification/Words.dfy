/** Text with its white space normalised, and the words it is read as. */
module WordForms {
  import opened JsText

  /** Every maximal run of white space becomes one space. */
  function Squeeze(s: string): string
    decreases |s|
  {
    if s == [] then []
    else if IsSpace(s[0]) then " " + Squeeze(TrimStart(s[1..]))
    else [s[0]] + Squeeze(s[1..])
  }

  function Normalize(text: string): string {
    Squeeze(Trim(text))
  }

  // ---------- the normal form, read as words ----------

  function WordLen(s: string): (n: nat)
    ensures n <= |s| && (forall i :: 0 <= i < n ==> !IsSpace(s[i])) && (n < |s| ==> IsSpace(s[n]))
    ensures s != [] && !IsSpace(s[0]) ==> n > 0
  {
    if s == [] || IsSpace(s[0]) then 0 else 1 + WordLen(s[1..])
  }

  function Words(s: string): seq<string>
    decreases |s|
  {
    if s == [] then []
    else if IsSpace(s[0]) then Words(s[1..])
    else [s[..WordLen(s)]] + Words(s[WordLen(s)..])
  }

  function Join(words: seq<string>): string {
    if words == [] then [] else words[0] + if |words| == 1 then [] else " " + Join(words[1..])
  }

  predicate IsWord(w: string) {
    w != [] && forall i :: 0 <= i < |w| ==> !IsSpace(w[i])
  }

  lemma WordLenIs(w: string, rest: string)
    requires forall i :: 0 <= i < |w| ==> !IsSpace(w[i])
    requires rest != [] ==> IsSpace(rest[0])
    ensures WordLen(w + rest) == |w|
  {
    hide IsSpace;
    assert forall i :: 0 <= i < |w| ==> (w + rest)[i] == w[i];
    assert rest != [] ==> (w + rest)[|w|] == rest[0];
  }

  lemma WordsStep(w: string, rest: string)
    requires IsWord(w) && (rest != [] ==> IsSpace(rest[0]))
    ensures Words(w + rest) == [w] + Words(rest)
  {
    WordLenIs(w, rest);
    assert (w + rest)[0] == w[0];
    assert (w + rest)[..|w|] == w && (w + rest)[|w|..] == rest;
  }

  lemma {:induction false} WordsSkip(s: string)
    ensures Words(TrimStart(s)) == Words(s)
  {
    if s != [] && IsSpace(s[0]) {
      WordsSkip(s[1..]);
    }
  }

  lemma {:induction false} WordsDropLast(s: string, c: char)
    requires IsSpace(c)
    ensures Words(s + [c]) == Words(s)
    decreases |s|
  {
    hide IsSpace;
    if s == [] {
      assert Words([c]) == Words([c][1..]);
    } else if IsSpace(s[0]) {
      WordsDropLast(s[1..], c);
      assert (s + [c])[0] == s[0] && (s + [c])[1..] == s[1..] + [c];
    } else {
      var n := WordLen(s);
      var w, rest := s[..n], s[n..];
      WordsDropLast(rest, c);
      assert s == w + rest && s + [c] == w + (rest + [c]);
      WordsStep(w, rest + [c]);
    }
  }

  lemma {:induction false} WordsTrimEnd(s: string)
    ensures Words(TrimEnd(s)) == Words(s)
  {
    if s != [] && IsSpace(s[|s| - 1]) {
      var front := s[..|s| - 1];
      WordsTrimEnd(front);
      WordsDropLast(front, s[|s| - 1]);
      assert front + [s[|s| - 1]] == s;
    }
  }

  lemma {:induction false} SqueezeWord(w: string, rest: string)
    requires forall i :: 0 <= i < |w| ==> !IsSpace(w[i])
    ensures Squeeze(w + rest) == w + Squeeze(rest)
  {
    hide IsSpace, Squeeze;
    if w == [] {
      assert w + rest == rest;
    } else {
      TailOfConcat(w, rest);
      SqueezeWord(w[1..], rest);
      SqueezeStep(w + rest);
      assert [w[0]] + (w[1..] + Squeeze(rest)) == w + Squeeze(rest);
    }
  }

  lemma SqueezeStep(s: string)
    requires s != ""
    ensures Squeeze(s) == if IsSpace(s[0]) then " " + Squeeze(TrimStart(s[1..])) else [s[0]] + Squeeze(s[1..])
  {
    hide IsSpace, TrimStart;
  }

  predicate Tight(s: string) {
    s != [] ==> !IsSpace(s[0]) && !IsSpace(s[|s| - 1])
  }

  lemma {:induction false} TrimEndTight(s: string)
    ensures var t := TrimEnd(s); t != [] ==> !IsSpace(t[|t| - 1])
  {
    if s != [] && IsSpace(s[|s| - 1]) {
      TrimEndTight(s[..|s| - 1]);
    }
  }

  lemma {:induction false} TrimStartTight(s: string)
    requires s != [] ==> !IsSpace(s[|s| - 1])
    ensures Tight(TrimStart(s)) && (s != [] ==> TrimStart(s) != [])
  {
    if s != [] && IsSpace(s[0]) {
      TrimStartTight(s[1..]);
    }
  }

  lemma {:induction false} SqueezeIsJoin(s: string)
    requires Tight(s)
    ensures Squeeze(s) == Join(Words(s))
    decreases |s|
  {
    hide IsSpace;
    if s != [] {
      var n := WordLen(s);
      var w, rest := s[..n], s[n..];
      assert s == w + rest;
      SqueezeWord(w, rest);
      WordsStep(w, rest);
      if rest != [] {
        var tail := rest[1..];
        assert IsSpace(rest[0]) && rest[|rest| - 1] == s[|s| - 1];
        assert tail[|tail| - 1] == s[|s| - 1];
        TrimStartTight(tail);
        SqueezeIsJoin(TrimStart(tail));
        WordsSkip(tail);
        WordsNonempty(TrimStart(tail));
      }
    }
  }

  lemma WordsNonempty(s: string)
    requires s != [] && !IsSpace(s[0])
    ensures Words(s) != []
  {
  }

  /** What the two ways of normalising, Normalize and squeezing before trimming, compute: the words, one space apart. */
  function Form(s: string): string {
    Join(Words(s))
  }

  /** The normal form is the text's words, in order, one space apart: letter case and the order of words stay. */
  lemma NormalizeIsJoin(text: string)
    ensures Normalize(text) == Form(text)
  {
    hide Words, Squeeze, IsSpace;
    TrimEndTight(text);
    TrimStartTight(TrimEnd(text));
    SqueezeIsJoin(Trim(text));
    WordsSkip(TrimEnd(text));
    WordsTrimEnd(text);
  }

  lemma {:induction false} WordsAreWords(s: string)
    ensures forall i :: 0 <= i < |Words(s)| ==> IsWord(Words(s)[i])
    decreases |s|
  {
    hide IsSpace;
    if s != [] {
      WordsAreWords(if IsSpace(s[0]) then s[1..] else s[WordLen(s)..]);
    }
  }

  lemma {:induction false} WordsOfJoin(words: seq<string>)
    requires forall i :: 0 <= i < |words| ==> IsWord(words[i])
    ensures Words(Join(words)) == words
  {
    hide Words, IsWord;
    if words == [] {
      NoWords();
    } else if |words| == 1 {
      WordsStep(words[0], []);
      NoWords();
      assert words[0] + [] == words[0];
    } else {
      var rest := Join(words[1..]);
      WordsOfJoin(words[1..]);
      WordsStep(words[0], " " + rest);
      WordsSkipOne(rest);
      assert words[0] + " " + rest == words[0] + (" " + rest);
    }
  }

  lemma NoWords()
    ensures Words([]) == []
  {
  }

  lemma WordsSkipOne(s: string)
    ensures Words(" " + s) == Words(s)
  {
    assert (" " + s)[1..] == s;
  }

  /** Squeezing alone keeps at most one space at either end. */
  lemma {:induction false} SqueezedIs(s: string)
    requires s != "" ==> !IsSpace(s[0])
    ensures Squeeze(s) == Form(s) + if s != "" && IsSpace(s[|s| - 1]) then " " else ""
    decreases |s|
  {
    hide IsSpace, Squeeze, Words, Join, TrimStart, IsWord;
    if s == "" {
      NoWords();
      NothingSqueezed();
    } else {
      var n := WordLen(s);
      var w, rest := s[..n], s[n..];
      assert s == w + rest;
      SqueezeWord(w, rest);
      LeadingWord(s);
      FormOfWord(w, rest);
      if rest == "" {
        NoWords();
        NothingSqueezed();
        assert w + "" == w;
      } else {
        var tail := TrimStart(rest[1..]);
        LeadingSpace(rest);
        WordsSkip(rest[1..]);
        TrimStartEnds(rest[1..]);
        SqueezedIs(tail);
        assert rest[|rest| - 1] == s[|s| - 1];
        NoSuchWord(rest);
        TailOfForm(tail);
        SpaceJoins(w, Form(tail));
      }
    }
  }

  lemma NothingSqueezed()
    ensures Squeeze("") == "" && Form("") == ""
  {
  }

  lemma LeadingWord(s: string)
    requires s != "" && !IsSpace(s[0])
    ensures IsWord(s[..WordLen(s)])
  {
  }

  lemma TailOfForm(s: string)
    requires s != "" ==> !IsSpace(s[0])
    ensures Words(s) == [] <==> s == ""
  {
    if s != "" {
      WordsNonempty(s);
    }
  }

  lemma SpaceJoins(w: string, form: string)
    ensures w + (" " + form) == w + " " + form && w + (" " + (form + " ")) == w + (" " + form) + " "
  {
  }

  lemma {:induction false} TrimStartEnds(s: string)
    ensures var t := TrimStart(s);
      && (t != "" ==> !IsSpace(t[0]) && t[|t| - 1] == s[|s| - 1])
      && (t == "" ==> s == "" || IsSpace(s[|s| - 1]))
  {
    hide IsSpace;
    if s != [] && IsSpace(s[0]) {
      TrimStartEnds(s[1..]);
    }
  }

  lemma {:induction false} JoinIsTight(words: seq<string>)
    requires forall i :: 0 <= i < |words| ==> IsWord(words[i])
    ensures Tight(Join(words)) && (words != [] ==> Join(words) != "")
  {
    if |words| > 1 {
      JoinIsTight(words[1..]);
    }
  }

  lemma {:induction false} TrimTight(s: string)
    requires Tight(s)
    ensures TrimStart(s) == s && TrimEnd(s) == s && TrimEnd(s + " ") == s && TrimStart(" " + s) == s
  {
    assert (s + " ")[..|s|] == s && (" " + s)[1..] == s;
  }

  /** Squeezing and then trimming gives the same form as trimming first. */
  lemma SqueezeThenTrim(s: string)
    ensures Trim(Squeeze(s)) == Form(s) == Normalize(s)
  {
    hide Words, Join, IsSpace, IsWord;
    NormalizeIsJoin(s);
    WordsAreWords(s);
    JoinIsTight(Words(s));
    TrimTight(Form(s));
    if s == "" || !IsSpace(s[0]) {
      SqueezedIs(s);
      TrimsToForm("", Form(s), if s != "" && IsSpace(s[|s| - 1]) then " " else "");
    } else {
      var tail := TrimStart(s[1..]);
      WordsSkip(s[1..]);
      LeadingSpace(s);
      TrimStartEnds(s[1..]);
      SqueezedIs(tail);
      TrimsToForm(" ", Form(s), if tail != "" && IsSpace(tail[|tail| - 1]) then " " else "");
    }
  }

  lemma LeadingSpace(s: string)
    requires s != "" && IsSpace(s[0])
    ensures Words(s) == Words(s[1..]) && Squeeze(s) == " " + Squeeze(TrimStart(s[1..]))
  {
  }

  lemma TrimsToForm(lead: string, form: string, trail: string)
    requires Tight(form) && (lead == "" || lead == " ") && (trail == "" || trail == " ")
    ensures Trim(lead + form + trail) == form
    ensures Trim(lead + (form + trail)) == form
  {
    hide TrimStart, TrimEnd, IsSpace;
    TrimTight(form);
    assert lead + form + trail == lead + (form + trail);
    if form == "" {
      assert lead + form + trail == lead + trail;
      TrimsToNothing(lead + trail);
    } else {
      assert (lead + form)[|lead + form| - 1] == form[|form| - 1];
      TrimEndOnly(lead + form);
      assert lead + form + "" == lead + form && "" + form == form;
    }
  }

  lemma TrimsToNothing(s: string)
    requires |s| <= 2 && forall i :: 0 <= i < |s| ==> s[i] == ' '
    ensures Trim(s) == ""
  {
    if |s| == 2 {
      assert s[..1] == " " && s[..1][..0] == "";
    } else if |s| == 1 {
      assert s[..0] == "";
    }
  }

  lemma TrimEndOnly(s: string)
    requires s != "" && !IsSpace(s[|s| - 1])
    ensures TrimEnd(s) == s && TrimEnd(s + " ") == s
  {
    assert (s + " ")[..|s|] == s;
  }

  // ---------- the form of a part of a text ----------

  lemma FormOfWord(w: string, rest: string)
    requires IsWord(w) && (rest != [] ==> IsSpace(rest[0]))
    ensures Form(w + rest) == w + if Words(rest) == [] then "" else " " + Form(rest)
    ensures Words(w + rest) != []
  {
    hide Words, IsWord;
    WordsStep(w, rest);
  }

  lemma FormSkip(s: string)
    requires s != "" && IsSpace(s[0])
    ensures Form(s) == Form(s[1..]) && Words(s) == Words(s[1..])
  {
  }

  /** The form of a text begins the form of every longer text. */
  lemma {:induction false} FormOfPrefix(a: string, b: string)
    ensures Form(a) <= Form(a + b)
    ensures Words(a) != [] ==> Words(a + b) != []
    decreases |a|
  {
    hide Words, Join, IsSpace;
    if a == "" {
      NoWords();
      EmptyForm();
    } else if IsSpace(a[0]) {
      FormSkip(a);
      FormSkip(a + b);
      FormOfPrefix(a[1..], b);
      assert (a + b)[1..] == a[1..] + b;
    } else {
      var n := WordLen(a);
      var w, rest := a[..n], a[n..];
      assert a == w + rest;
      FormOfWord(w, rest);
      if rest != "" {
        assert a + b == w + (rest + b);
        FormOfPrefix(rest, b);
        FormOfWord(w, rest + b);
      } else {
        NoWords();
        var m := WordLen(a + b);
        assert (a + b)[..m] + (a + b)[m..] == a + b;
        WordGrows(a, b);
        FormOfWord((a + b)[..m], (a + b)[m..]);
      }
    }
  }

  lemma EmptyForm()
    ensures Form("") == ""
  {
  }

  lemma WordGrows(w: string, b: string)
    requires IsWord(w)
    ensures var m := WordLen(w + b);
      m >= |w| && w <= (w + b)[..m] && IsWord((w + b)[..m])
  {
    var m := WordLen(w + b);
    assert forall i :: 0 <= i < |w| ==> (w + b)[i] == w[i];
    assert (w + b)[..|w|] == w;
  }

  predicate EndsWith(s: string, t: string) {
    |t| <= |s| && s[|s| - |t|..] == t
  }

  lemma FormOfCons(c: char, s: string)
    ensures EndsWith(Form([c] + s), Form(s))
  {
    hide Words, Join, IsSpace;
    assert ([c] + s)[1..] == s;
    if IsSpace(c) {
      FormSkip([c] + s);
    } else if s == "" || IsSpace(s[0]) {
      FormOfWord([c], s);
      NoSuchWord(s);
    } else {
      var n := WordLen(s);
      var w, rest := s[..n], s[n..];
      assert s == w + rest && [c] + s == ([c] + w) + rest;
      FormOfWord(w, rest);
      FormOfWord([c] + w, rest);
      assert Form([c] + s) == [c] + Form(s);
    }
  }

  lemma NoSuchWord(s: string)
    ensures Words(s) == [] ==> Form(s) == ""
  {
  }

  /** And it ends the form of every text that ends with it. */
  lemma {:induction false} FormOfSuffix(a: string, b: string)
    ensures EndsWith(Form(a + b), Form(b))
  {
    hide Form;
    if a == "" {
      assert a + b == b;
    } else {
      FormOfSuffix(a[1..], b);
      FormOfCons(a[0], a[1..] + b);
      assert [a[0]] + (a[1..] + b) == a + b;
      EndsTwice(Form(a + b), Form(a[1..] + b), Form(b));
    }
  }

  lemma EndsTwice(a: string, b: string, c: string)
    requires EndsWith(a, b) && EndsWith(b, c)
    ensures EndsWith(a, c)
  {
  }

  /** String.includes. */
  predicate Includes(s: string, part: string) {
    exists i: nat :: i <= |s| && PartAt(s, part, i)
  }

  predicate PartAt(s: string, part: string, i: nat) {
    i + |part| <= |s| && s[i..i + |part|] == part
  }

  /** A part of a text has its form in the text's form, even when it begins or ends inside a word. */
  lemma FormOfPart(s: string, part: string)
    requires Includes(s, part)
    ensures Includes(Form(s), Form(part))
  {
    hide Form;
    var i: nat :| i <= |s| && PartAt(s, part, i);
    var before, after := s[..i], s[i + |part|..];
    assert s == before + part + after;
    FormOfSuffix(before, part);
    FormOfPrefix(before + part, after);
    var at := |Form(before + part)| - |Form(part)|;
    assert Form(s)[at..at + |Form(part)|] == Form(before + part)[at..];
    assert PartAt(Form(s), Form(part), at);
  }

  lemma LowerOfPart(s: string, part: string)
    requires Includes(s, part)
    ensures Includes(LowerAll(s), LowerAll(part))
  {
    var i: nat :| i <= |s| && PartAt(s, part, i);
    assert LowerAll(s)[i..i + |part|] == LowerAll(part);
    assert PartAt(LowerAll(s), LowerAll(part), i);
  }

  // ---------- what a normal form keeps ----------

  lemma {:induction false} InkOfSqueeze(s: string)
    ensures Ink(Squeeze(s)) == Ink(s)
    decreases |s|
  {
    hide IsSpace, Ink, Squeeze;
    InkStep(s);
    if s == "" {
      NothingSqueezed();
    } else {
      SqueezeStep(s);
      if IsSpace(s[0]) {
        var tail := TrimStart(s[1..]);
        InkOfTrimStart(s[1..]);
        InkOfSqueeze(tail);
        InkStep(" " + Squeeze(tail));
        SpaceIsSpace();
        assert (" " + Squeeze(tail))[1..] == Squeeze(tail);
      } else {
        InkOfSqueeze(s[1..]);
        InkStep([s[0]] + Squeeze(s[1..]));
        assert ([s[0]] + Squeeze(s[1..]))[1..] == Squeeze(s[1..]);
      }
    }
  }

  lemma SpaceIsSpace()
    ensures IsSpace(' ')
  {
  }

  /** A text's form has the text's characters other than white space, in order. */
  lemma InkOfForm(s: string)
    ensures Ink(Form(s)) == Ink(s)
  {
    hide Ink, Form;
    SqueezeThenTrim(s);
    InkOfSqueeze(s);
    InkOfTrim(Squeeze(s));
  }

  lemma {:induction false} InInk(s: string, c: char)
    ensures c in Ink(s) <==> c in s && !IsSpace(c)
  {
    hide IsSpace;
    if s != "" {
      InInk(s[1..], c);
      assert c in s <==> c == s[0] || c in s[1..];
    }
  }

  /** Words one space apart. */
  predicate IsNormal(s: string) {
    Tight(s) && SingleSpaced(s)
  }

  predicate SingleSpaced(s: string) {
    forall i :: 0 <= i < |s| && IsSpace(s[i]) ==> s[i] == ' ' && (i + 1 < |s| ==> !IsSpace(s[i + 1]))
  }

  lemma {:induction false} JoinIsNormal(words: seq<string>)
    requires forall i :: 0 <= i < |words| ==> IsWord(words[i])
    ensures IsNormal(Join(words))
  {
    JoinIsTight(words);
    if |words| > 1 {
      JoinIsNormal(words[1..]);
      JoinIsTight(words[1..]);
      SpacedOut(words[0], Join(words[1..]));
    }
  }

  lemma SpacedOut(w: string, rest: string)
    requires IsWord(w) && IsNormal(rest)
    ensures SingleSpaced(w + (" " + rest))
  {
    hide IsSpace;
    SpaceIsSpace();
    var s, n := w + (" " + rest), |w|;
    assert forall i :: 0 <= i < n ==> s[i] == w[i];
    assert s[n] == ' ' && forall i :: n < i < |s| ==> s[i] == rest[i - n - 1];
  }

  lemma FormIsNormal(s: string)
    ensures IsNormal(Form(s))
  {
    hide Words, Join, IsNormal;
    WordsAreWords(s);
    JoinIsNormal(Words(s));
  }

  lemma {:induction false} SqueezeKeeps(s: string)
    requires SingleSpaced(s)
    ensures Squeeze(s) == s
  {
    hide IsSpace;
    if s != "" {
      var tail := s[1..];
      assert forall i :: 0 <= i < |tail| ==> tail[i] == s[i + 1];
      SqueezeKeeps(tail);
      assert [s[0]] + tail == s;
    }
  }

  /** A text in normal form is its own form. */
  lemma NormalIsForm(s: string)
    requires IsNormal(s)
    ensures Form(s) == s && Trim(Squeeze(s)) == s
  {
    hide Form, SingleSpaced, Tight;
    SqueezeKeeps(s);
    TrimTight(s);
    SqueezeThenTrim(s);
  }

  lemma FormIsEmptyIff(s: string)
    ensures Form(s) == "" <==> Ink(s) == ""
    ensures Form(s) == "" <==> Words(s) == []
  {
    hide Ink, IsSpace, Words, Join;
    InkOfForm(s);
    FormIsNormal(s);
    WordsAreWords(s);
    JoinIsTight(Words(s));
    NoWordsNoForm(s);
    InkStep("");
    if Form(s) != "" {
      InInk(Form(s), Form(s)[0]);
    }
  }

  lemma NoWordsNoForm(s: string)
    ensures Words(s) == [] ==> Form(s) == ""
  {
    hide Words;
  }
}
