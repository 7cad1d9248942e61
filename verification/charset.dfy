/** The character set `loadChars` (`app/css/fetch.js`) collects for font
    subsetting: every code point of every translated message, first the
    English catalog and then the Simplified Chinese one, each kept once at
    its first appearance, joined into one string. The catalogs are given
    as data. */
module CharSet {
  import opened Common

  /** One piece of a compiled message: literal text, or a placeholder
      (an argument, a plural, a tag), which is not a string. */
  datatype Token = Text(text: string) | Placeholder(name: string)

  /** A catalog entry: a plain string, or a compiled array of tokens. */
  datatype Message = Plain(text: string) | Compiled(tokens: seq<Token>)

  /** The values of a catalog's `messages` object, in iteration order. */
  type Catalog = seq<Message>

  /** No character occurs twice. */
  predicate NoDuplicates(s: string)
  {
    forall i, j :: 0 <= i < j < |s| ==> s[i] != s[j]
  }

  // ---------------------------------------------------------------------
  // The fold, loop by loop

  /** `chars.add(char)`, with the set kept as its insertion order. */
  function AddChar(acc: string, c: char): (r: string)
    ensures c in r
    ensures c in acc ==> r == acc
    ensures c !in acc ==> r == acc + [c]
  {
    if c in acc then acc else acc + [c]
  }

  /** `[...text].forEach((char) => chars.add(char))`: the set only grows
      at its end, ends up holding exactly the old characters and those of
      `s`, and stays free of duplicates. */
  function AddChars(acc: string, s: string): (r: string)
    ensures |acc| <= |r| && r[..|acc|] == acc
    ensures forall c :: c in r <==> c in acc || c in s
    ensures NoDuplicates(acc) ==> NoDuplicates(r)
    decreases s
  {
    if s == [] then acc
    else
      var next := AddChar(acc, s[0]);
      assert NoDuplicates(acc) ==> NoDuplicates(next);
      var r := AddChars(next, s[1..]);
      assert r[..|acc|] == r[..|next|][..|acc|];
      assert forall c :: c in s <==> c == s[0] || c in s[1..];
      r
  }

  /** The inner loop over a compiled message: only string tokens add
      characters. */
  function AddTokens(acc: string, ts: seq<Token>): string
    decreases ts
  {
    if ts == [] then acc
    else
      var next := match ts[0] case Text(t) => AddChars(acc, t) case Placeholder(_) => acc;
      AddTokens(next, ts[1..])
  }

  /** One message of the loop over `Object.values(messages)`. */
  function AddMessage(acc: string, m: Message): string
  {
    match m
    case Plain(t) => AddChars(acc, t)
    case Compiled(ts) => AddTokens(acc, ts)
  }

  /** The loop over one catalog's messages. */
  function AddCatalog(acc: string, c: Catalog): string
    decreases c
  {
    if c == [] then acc else AddCatalog(AddMessage(acc, c[0]), c[1..])
  }

  /** The loop over the catalogs, in the order given. */
  function Collect(acc: string, cs: seq<Catalog>): string
    decreases cs
  {
    if cs == [] then acc else Collect(AddCatalog(acc, cs[0]), cs[1..])
  }

  /** `loadChars()`: the English catalog first, then the Simplified
      Chinese one, from an empty set. The result is the first
      occurrences of the characters the loops visit: no duplicates,
      exactly those characters, in order of first appearance. */
  function LoadChars(en: Catalog, zhHans: Catalog): (r: string)
    ensures r == KeepFirst(CatalogChars(en) + CatalogChars(zhHans))
    ensures FirstOccurrences(CatalogChars(en) + CatalogChars(zhHans), r)
  {
    var s := CatalogChars(en) + CatalogChars(zhHans);
    CollectStream([], [en, zhHans]);
    assert [en, zhHans][1..] == [zhHans] && [zhHans][1..] == [];
    assert Stream([zhHans]) == CatalogChars(zhHans) + [] == CatalogChars(zhHans);
    assert Stream([en, zhHans]) == s;
    AddCharsKeepFirst(s);
    KeepFirstOrder(s);
    Collect([], [en, zhHans])
  }

  // ---------------------------------------------------------------------
  // The characters the loops visit, as one string

  function TokenChars(ts: seq<Token>): string
  {
    if ts == [] then []
    else (match ts[0] case Text(t) => t case Placeholder(_) => []) + TokenChars(ts[1..])
  }

  function MessageChars(m: Message): string
  {
    match m
    case Plain(t) => t
    case Compiled(ts) => TokenChars(ts)
  }

  function CatalogChars(c: Catalog): string
  {
    if c == [] then [] else MessageChars(c[0]) + CatalogChars(c[1..])
  }

  function Stream(cs: seq<Catalog>): string
  {
    if cs == [] then [] else CatalogChars(cs[0]) + Stream(cs[1..])
  }

  // ---------------------------------------------------------------------
  // The reference: first occurrences

  /** The characters of `s` at their first occurrence, in order. */
  function KeepFirst(s: string): string
  {
    if s == [] then []
    else
      var init := s[..|s| - 1];
      KeepFirst(init) + (if Last(s) in init then [] else [Last(s)])
  }

  /** Where `c` first occurs in `s`. */
  function FirstIndex(s: string, c: char): (k: nat)
    requires c in s
    ensures k < |s| && s[k] == c && c !in s[..k]
  {
    if s[0] == c then 0
    else
      var k := FirstIndex(s[1..], c);
      assert s[..k + 1] == [s[0]] + s[1..][..k];
      k + 1
  }

  // ---------------------------------------------------------------------
  // The fold reads the stream

  /** Adding two strings one after the other is adding their
      concatenation. */
  lemma {:induction false} AddCharsAppend(acc: string, a: string, b: string)
    ensures AddChars(acc, a + b) == AddChars(AddChars(acc, a), b)
    decreases a
  {
    if a == [] {
      assert a + b == b;
    } else {
      assert (a + b)[0] == a[0] && (a + b)[1..] == a[1..] + b;
      AddCharsAppend(AddChar(acc, a[0]), a[1..], b);
    }
  }

  lemma {:induction false} AddTokensStream(acc: string, ts: seq<Token>)
    ensures AddTokens(acc, ts) == AddChars(acc, TokenChars(ts))
    decreases ts
  {
    if ts != [] {
      var t := match ts[0] case Text(t) => t case Placeholder(_) => [];
      AddCharsAppend(acc, t, TokenChars(ts[1..]));
      AddTokensStream(AddChars(acc, t), ts[1..]);
    }
  }

  lemma MessageStream(acc: string, m: Message)
    ensures AddMessage(acc, m) == AddChars(acc, MessageChars(m))
  {
    if m.Compiled? {
      AddTokensStream(acc, m.tokens);
    }
  }

  lemma {:induction false} CatalogStream(acc: string, c: Catalog)
    ensures AddCatalog(acc, c) == AddChars(acc, CatalogChars(c))
    decreases c
  {
    if c != [] {
      MessageStream(acc, c[0]);
      AddCharsAppend(acc, MessageChars(c[0]), CatalogChars(c[1..]));
      CatalogStream(AddMessage(acc, c[0]), c[1..]);
    }
  }

  /** The nested loops add, in order, exactly the characters of the text
      tokens and plain messages of every catalog. */
  lemma {:induction false} CollectStream(acc: string, cs: seq<Catalog>)
    ensures Collect(acc, cs) == AddChars(acc, Stream(cs))
    decreases cs
  {
    if cs != [] {
      CatalogStream(acc, cs[0]);
      AddCharsAppend(acc, CatalogChars(cs[0]), Stream(cs[1..]));
      CollectStream(AddCatalog(acc, cs[0]), cs[1..]);
    }
  }

  /** From an empty set, the fold keeps each character at its first
      occurrence. */
  lemma {:induction false} AddCharsKeepFirst(s: string)
    ensures AddChars([], s) == KeepFirst(s)
  {
    if s != [] {
      var init := s[..|s| - 1];
      InitLast(s);
      AddCharsAppend([], init, [Last(s)]);
      AddCharsKeepFirst(init);
      assert [Last(s)][1..] == [];
    }
  }

  /** The first occurrence is the only position holding `c` with no `c`
      before it. */
  lemma FirstIndexUnique(s: string, c: char, k: nat)
    requires k < |s| && s[k] == c && c !in s[..k]
    ensures FirstIndex(s, c) == k
  {
  }

  /** `r` lists every character of `s` once, in the order of their first
      occurrences in `s`. */
  predicate FirstOccurrences(s: string, r: string)
  {
    && (forall c :: c in r <==> c in s)
    && NoDuplicates(r)
    && (forall i, j :: 0 <= i < j < |r| ==> r[i] in s && r[j] in s && FirstIndex(s, r[i]) < FirstIndex(s, r[j]))
  }

  /** `KeepFirst` lists every character of `s` once, in the order of
      their first occurrences. */
  lemma {:induction false} KeepFirstOrder(s: string)
    ensures FirstOccurrences(s, KeepFirst(s))
  {
    if s != [] {
      var init := s[..|s| - 1];
      KeepFirstOrder(init);
      InitLast(s);
      if Last(s) in init {
        KeepFirstOld(init, Last(s));
      } else {
        KeepFirstNew(init, Last(s));
      }
    }
  }

  /** A character already seen keeps its first index when more text
      follows. */
  lemma FirstIndexExtend(init: string, x: char, c: char)
    requires c in init
    ensures FirstIndex(init + [x], c) == FirstIndex(init, c)
  {
    var f := FirstIndex(init, c);
    assert (init + [x])[..f] == init[..f];
    FirstIndexUnique(init + [x], c, f);
  }

  /** A character seen before adds nothing and moves no first index. */
  lemma KeepFirstOld(init: string, x: char)
    requires x in init
    requires FirstOccurrences(init, KeepFirst(init))
    ensures FirstOccurrences(init + [x], KeepFirst(init + [x]))
  {
    var s := init + [x];
    var k := KeepFirst(init);
    assert s[..|s| - 1] == init && Last(s) == x;
    assert KeepFirst(s) == k + [];
    assert k + [] == k;
    forall i, j | 0 <= i < j < |k|
      ensures k[i] in s && k[j] in s && FirstIndex(s, k[i]) < FirstIndex(s, k[j])
    {
      FirstIndexExtend(init, x, k[i]);
      FirstIndexExtend(init, x, k[j]);
    }
  }

  /** A character not seen before goes last and has the largest first
      index. */
  lemma KeepFirstNew(init: string, x: char)
    requires x !in init
    requires FirstOccurrences(init, KeepFirst(init))
    ensures FirstOccurrences(init + [x], KeepFirst(init + [x]))
  {
    var s := init + [x];
    var k := KeepFirst(init);
    assert s[..|s| - 1] == init && Last(s) == x;
    assert KeepFirst(s) == k + [x];
    NewLastOrder(init, x, k);
    NewLastDistinct(init, x, k);
  }

  /** The membership and distinctness parts of `KeepFirstNew`. */
  lemma NewLastDistinct(init: string, x: char, k: string)
    requires x !in init
    requires forall c :: c in k <==> c in init
    requires NoDuplicates(k)
    ensures forall c :: c in k + [x] <==> c in init + [x]
    ensures NoDuplicates(k + [x])
  {
    var r := k + [x];
    forall i, j | 0 <= i < j < |r| ensures r[i] != r[j] {
      assert r[i] == k[i] && k[i] in init;
      if j < |k| {
        assert r[j] == k[j];
      }
    }
  }

  /** The order part of `KeepFirstNew`. */
  lemma NewLastOrder(init: string, x: char, k: string)
    requires x !in init
    requires FirstOccurrences(init, k)
    ensures var s, r := init + [x], k + [x];
            forall i, j :: 0 <= i < j < |r| ==> r[i] in s && r[j] in s && FirstIndex(s, r[i]) < FirstIndex(s, r[j])
  {
    var s := init + [x];
    var r := k + [x];
    assert s[..|init|] == init;
    FirstIndexUnique(s, x, |init|);
    forall i, j | 0 <= i < j < |r|
      ensures r[i] in s && r[j] in s && FirstIndex(s, r[i]) < FirstIndex(s, r[j])
    {
      assert r[i] == k[i] && r[i] in init;
      FirstIndexExtend(init, x, r[i]);
      if j < |k| {
        assert r[j] == k[j];
        FirstIndexExtend(init, x, r[j]);
      }
    }
  }

  // ---------------------------------------------------------------------
  // The whole function

  /** The English characters come first: the result begins with what the
      English catalog alone yields, and the Chinese catalog only adds
      characters the English one lacks. */
  lemma EnglishFirst(en: Catalog, zhHans: Catalog)
    ensures var e := AddCatalog([], en);
            var r := LoadChars(en, zhHans);
            && |e| <= |r| && r[..|e|] == e
            && forall i :: |e| <= i < |r| ==> r[i] !in CatalogChars(en) && r[i] in CatalogChars(zhHans)
  {
    var e := AddCatalog([], en);
    var r := LoadChars(en, zhHans);
    assert [en, zhHans][1..] == [zhHans] && [zhHans][1..] == [];
    assert r == Collect(e, [zhHans]);
    assert Collect(e, [zhHans]) == Collect(AddCatalog(e, zhHans), []);
    assert r == AddCatalog(e, zhHans);
    CatalogStream([], en);
    CatalogStream(e, zhHans);
    AddCharsKeepFirst(CatalogChars(en));
    KeepFirstOrder(CatalogChars(en));
    forall i | |e| <= i < |r|
      ensures r[i] !in CatalogChars(en) && r[i] in CatalogChars(zhHans)
    {
      assert r[..|e|] == e;
    }
  }

  /** Placeholders never contribute: replacing every placeholder of a
      message by another placeholder, or dropping it, changes nothing. */
  lemma {:induction false} PlaceholdersIgnored(acc: string, ts: seq<Token>)
    ensures AddTokens(acc, ts) == AddTokens(acc, TextsOnly(ts))
  {
    AddTokensStream(acc, ts);
    AddTokensStream(acc, TextsOnly(ts));
    TextsOnlyChars(ts);
  }

  /** The text tokens of `ts`, in order. */
  function TextsOnly(ts: seq<Token>): (r: seq<Token>)
    ensures forall k :: 0 <= k < |r| ==> r[k].Text?
    ensures |r| <= |ts|
  {
    if ts == [] then []
    else if ts[0].Text? then [ts[0]] + TextsOnly(ts[1..])
    else TextsOnly(ts[1..])
  }

  lemma {:induction false} TextsOnlyChars(ts: seq<Token>)
    ensures TokenChars(TextsOnly(ts)) == TokenChars(ts)
  {
    if ts != [] {
      TextsOnlyChars(ts[1..]);
      if ts[0].Text? {
        assert ([ts[0]] + TextsOnly(ts[1..]))[1..] == TextsOnly(ts[1..]);
      }
    }
  }
}
