/** Cache keys for embeddings: the white-space-normalised text with its domain and purpose. */
module EmbedKeys {
  import opened JsText
  import opened WordForms

  datatype Domain = TextDomain | CodeDomain
  datatype Purpose = Query | Document
  datatype Item = Item(text: string, domain: Domain)

  function DomainName(d: Domain): string {
    match d
    case TextDomain => "text"
    case CodeDomain => "code"
  }

  function PurposeName(p: Purpose): string {
    match p
    case Query => "query"
    case Document => "document"
  }

  /** What the hash is taken of; the hash itself is taken to have no collisions. */
  function KeyOf(item: Item, purpose: Purpose): string {
    DomainName(item.domain) + ":" + PurposeName(purpose) + ":" + Normalize(item.text)
  }

  /** Two items share a key exactly when they agree on domain, purpose and words; in particular case is told apart. */
  lemma SameKeyIff(a: Item, p: Purpose, b: Item, q: Purpose)
    ensures KeyOf(a, p) == KeyOf(b, q) <==> a.domain == b.domain && p == q && Words(a.text) == Words(b.text)
    ensures Normalize(a.text) == Normalize(b.text) <==> Words(a.text) == Words(b.text)
  {
    hide Words, Normalize, Join, IsWord;
    NormalizeIsJoin(a.text);
    NormalizeIsJoin(b.text);
    WordsAreWords(a.text);
    WordsAreWords(b.text);
    WordsOfJoin(Words(a.text));
    WordsOfJoin(Words(b.text));
    KeyParts(a, p);
    KeyParts(b, q);
    if KeyOf(a, p) == KeyOf(b, q) {
      assert p == q;
    }
  }

  lemma KeyParts(a: Item, p: Purpose)
    ensures var key := KeyOf(a, p); var n := if p == Query then 11 else 14;
      && |key| >= n
      && key[0] == (if a.domain == TextDomain then 't' else 'c')
      && key[5] == (if p == Query then 'q' else 'd')
      && key[n..] == Normalize(a.text)
  {
    hide Normalize;
  }
}
