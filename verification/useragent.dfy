/** The bot filter of the forwarding route
    (`app/components/Forwarded/.server.ts`): the `product/version` tokens
    of a User-Agent header are checked against a blocklist of in-app
    browsers and crawlers, and a blank header is blocked too. A blocked
    request carries a four-part explanation that emphasises what was
    matched. */
module UserAgent {
  import opened Common
  import opened JsString

  datatype Style = Normal | Strong

  /** `ReasonText`. */
  datatype ReasonText = ReasonText(text: string, style: Style)

  /** `UserAgentAction`. */
  datatype Action = Allowed | Blocked(reason: seq<ReasonText>)

  /** One match of `/(?<product>[^ ]+)\/(?<version>[^ ]+)/g`: where it
      starts and its `product` group. */
  datatype Token = Token(index: nat, product: string)

  // ---------------------------------------------------------------------
  // The explanation

  const Label: string := "User-Agent: "

  /** `s.slice(start, end)` for non-negative bounds: both clamp to the
      length, and a start at or past the end gives the empty string. */
  function Slice(s: string, start: nat, end: nat): string
  {
    var e := if end < |s| then end else |s|;
    if start >= e then [] else s[start..e]
  }

  /** `explain([index, emphasis])`: the label in strong, then the text
      before `index`, the `|emphasis|` characters from `index` in strong,
      and the rest. The last three parts always put `ua` back together,
      and when the span lies inside `ua` the strong part is exactly that
      span. */
  function Explain(ua: string, index: nat, emphasis: string): (r: seq<ReasonText>)
    ensures |r| == 4
    ensures r[0] == ReasonText(Label, Strong)
    ensures r[1].style == Normal && r[2].style == Strong && r[3].style == Normal
    ensures r[1].text + r[2].text + r[3].text == ua
    ensures index + |emphasis| <= |ua| ==>
              r[1].text == ua[..index] && r[2].text == ua[index..index + |emphasis|]
  {
    var a := if index < |ua| then index else |ua|;
    var b := if index + |emphasis| < |ua| then index + |emphasis| else |ua|;
    assert Slice(ua, 0, index) == ua[..a];
    assert Slice(ua, index, index + |emphasis|) == ua[a..b];
    assert Slice(ua, index + |emphasis|, |ua|) == ua[b..];
    assert ua[..a] + ua[a..b] + ua[b..] == ua;
    [ ReasonText(Label, Strong),
      ReasonText(Slice(ua, 0, index), Normal),
      ReasonText(Slice(ua, index, index + |emphasis|), Strong),
      ReasonText(Slice(ua, index + |emphasis|, |ua|), Normal) ]
  }

  // ---------------------------------------------------------------------
  // The tokens

  /** `p` followed by `/` and at least one more character is how `chunk`
      begins, with `p` non-empty: a way for the pattern to match `chunk`
      with `p` as the product group. */
  predicate Decomposes(chunk: string, p: string)
  {
    1 <= |p| && |p| + 2 <= |chunk| && chunk[..|p|] == p && chunk[|p|] == '/'
  }

  /** The largest index `j` in `1..k` where `chunk` has a slash. */
  function LastSlash(chunk: string, k: int): (r: Option<nat>)
    requires k < |chunk|
    ensures r.Some? ==> 1 <= r.value <= k && chunk[r.value] == '/'
    ensures r.Some? ==> forall j :: r.value < j <= k ==> chunk[j] != '/'
    ensures r.None? ==> forall j :: 1 <= j <= k ==> chunk[j] != '/'
    decreases k
  {
    if k < 1 then None
    else if chunk[k] == '/' then Some(k)
    else LastSlash(chunk, k - 1)
  }

  /** The product group of a match over a run of non-space characters.
      The first group is greedy, so it ends at the last slash that still
      has a character after it: the result is the longest prefix the
      chunk decomposes around, and there is none exactly when no prefix
      works. */
  function ProductOf(chunk: string): (r: Option<string>)
    ensures r.Some? ==> Decomposes(chunk, r.value)
    ensures r.Some? ==> forall q :: Decomposes(chunk, q) ==> |q| <= |r.value|
    ensures r.None? ==> forall q :: !Decomposes(chunk, q)
  {
    match LastSlash(chunk, |chunk| - 2)
    case None => None
    case Some(k) => Some(chunk[..k])
  }

  /** The end of the run of non-space characters starting at `i`. */
  function ChunkEnd(ua: string, i: nat): (e: nat)
    requires i <= |ua|
    ensures i <= e <= |ua|
    ensures forall j :: i <= j < e ==> ua[j] != ' '
    ensures e == |ua| || ua[e] == ' '
    decreases |ua| - i
  {
    if i == |ua| || ua[i] == ' ' then i else ChunkEnd(ua, i + 1)
  }

  /** A run of non-space characters begins at `i`. */
  predicate ChunkStart(ua: string, i: nat)
  {
    i < |ua| && ua[i] != ' ' && (i == 0 || ua[i - 1] == ' ')
  }

  /** The run of non-space characters from `i`. */
  function ChunkAt(ua: string, i: nat): string
    requires i <= |ua|
  {
    ua[i..ChunkEnd(ua, i)]
  }

  /** A position where the scan may resume: the start of the string, the
      end, a space, or just after a space. */
  predicate Boundary(ua: string, i: nat)
  {
    i <= |ua| && (i == 0 || i == |ua| || ua[i] == ' ' || ua[i - 1] == ' ')
  }

  /** A token the scan may report: it starts a run, its product is the
      product group of that run, and that product is the text at its
      index. */
  predicate IsToken(ua: string, t: Token)
  {
    && ChunkStart(ua, t.index)
    && ProductOf(ChunkAt(ua, t.index)) == Some(t.product)
    && t.index + |t.product| <= |ua| && ua[t.index..t.index + |t.product|] == t.product
  }

  /** Genuine tokens at or after `i`, in increasing order of index. */
  predicate TokensAfter(ua: string, i: nat, r: seq<Token>)
  {
    && (forall t :: t in r ==> IsToken(ua, t) && i <= t.index)
    && (forall j, k :: 0 <= j < k < |r| ==> r[j].index < r[k].index)
  }

  /** Tokens after `j` are tokens after any earlier `i`. */
  lemma TokensAfterEarlier(ua: string, i: nat, j: nat, r: seq<Token>)
    requires i <= j && TokensAfter(ua, j, r)
    ensures TokensAfter(ua, i, r)
  {
  }

  /** A token at `i` in front of tokens after a later position. */
  lemma TokensAfterCons(ua: string, t: Token, e: nat, rest: seq<Token>)
    requires IsToken(ua, t) && t.index < e && TokensAfter(ua, e, rest)
    ensures TokensAfter(ua, t.index, [t] + rest)
  {
    var r := [t] + rest;
    forall x | x in r ensures IsToken(ua, x) && t.index <= x.index {
      if x != t {
        assert x in rest;
      }
    }
    assert r[1..] == rest;
    forall j, k | 0 <= j < k < |r| ensures r[j].index < r[k].index {
      assert r[k] == r[1..][k - 1];
      if j > 0 {
        assert r[j] == r[1..][j - 1];
      } else {
        assert r[k] in rest;
      }
    }
  }

  /** A run with a product group yields a genuine token at its start. */
  lemma TokenHere(ua: string, i: nat, p: string)
    requires i < |ua| && ua[i] != ' ' && Boundary(ua, i)
    requires ProductOf(ChunkAt(ua, i)) == Some(p)
    ensures IsToken(ua, Token(i, p))
  {
    var e := ChunkEnd(ua, i);
    assert ChunkAt(ua, i) == ua[i..e];
    assert Decomposes(ua[i..e], p);
    assert ua[i..e][..|p|] == ua[i..i + |p|];
  }

  /** `ua.matchAll(...)` from position `i`: a match can only start at
      the beginning of a run of non-space characters (`TokensAreMatches`
      shows a later start inside the run finds nothing new), spans the
      whole run, and the next
      search resumes after it. The tokens are genuine and in increasing
      order of index. */
  function TokensFrom(ua: string, i: nat): (r: seq<Token>)
    requires Boundary(ua, i)
    ensures TokensAfter(ua, i, r)
    decreases |ua| - i
  {
    if i == |ua| then []
    else if ua[i] == ' ' then
      var rest := TokensFrom(ua, i + 1);
      TokensAfterEarlier(ua, i, i + 1, rest);
      rest
    else
      var e := ChunkEnd(ua, i);
      var rest := TokensFrom(ua, e);
      TokensAfterEarlier(ua, i, e, rest);
      match ProductOf(ChunkAt(ua, i))
      case None => rest
      case Some(p) =>
        TokenHere(ua, i, p);
        TokensAfterCons(ua, Token(i, p), e, rest);
        [Token(i, p)] + rest
  }

  function Tokens(ua: string): seq<Token>
  {
    TokensFrom(ua, 0)
  }

  /** `ua.matchAll(...)` from position `i` as the pattern engine runs
      it: try a match at each position in turn. A match at `j` can only
      span the run of non-space characters from `j`, as both groups
      exclude spaces and the second is greedy, so it exists exactly when
      that run has a product group; the search then resumes at the end of
      the match, and otherwise at the next position. */
  function RegexFrom(ua: string, j: nat): seq<Token>
    requires j <= |ua|
    decreases |ua| - j
  {
    if j == |ua| then []
    else
      var e := ChunkEnd(ua, j);
      match ProductOf(ua[j..e])
      case Some(p) => [Token(j, p)] + RegexFrom(ua, e)
      case None => RegexFrom(ua, j + 1)
  }

  /** Every position of a run ends at the same place. */
  lemma {:induction false} ChunkEndInside(ua: string, i: nat, j: nat)
    requires i <= |ua| && i <= j <= ChunkEnd(ua, i)
    ensures ChunkEnd(ua, j) == ChunkEnd(ua, i)
    decreases j - i
  {
    if i < j {
      assert ChunkEnd(ua, i) == ChunkEnd(ua, i + 1);
      ChunkEndInside(ua, i + 1, j);
    }
  }

  /** A decomposition of a suffix of a run extends to one of the run. */
  lemma DecomposesExtend(ua: string, i: nat, j: nat, e: nat, q: string)
    requires i <= j <= e <= |ua| && Decomposes(ua[j..e], q)
    ensures Decomposes(ua[i..e], ua[i..j + |q|])
  {
    var q' := ua[i..j + |q|];
    assert ua[j..e][..|q|] == ua[j..j + |q|];
    assert ua[i..e][..|q'|] == q';
    assert ua[i..e][|q'|] == ua[j..e][|q|];
  }

  /** A run without a product group has no later start with one. */
  lemma SuffixNoProduct(ua: string, i: nat, j: nat, e: nat)
    requires i <= j <= e <= |ua| && ProductOf(ua[i..e]).None?
    ensures ProductOf(ua[j..e]).None?
  {
    forall q ensures !Decomposes(ua[j..e], q) {
      if Decomposes(ua[j..e], q) {
        DecomposesExtend(ua, i, j, e, q);
      }
    }
  }

  /** Inside a run without a product group, the search finds nothing
      until the run ends. */
  lemma {:induction false} RegexSkip(ua: string, i: nat, j: nat)
    requires i < |ua| && i < j <= ChunkEnd(ua, i) && ProductOf(ChunkAt(ua, i)).None?
    ensures RegexFrom(ua, j) == RegexFrom(ua, ChunkEnd(ua, i))
    decreases ChunkEnd(ua, i) - j
  {
    var e := ChunkEnd(ua, i);
    if j < e {
      ChunkEndInside(ua, i, j);
      SuffixNoProduct(ua, i, j, e);
      RegexSkip(ua, i, j + 1);
    }
  }

  /** The run-by-run scan finds exactly the matches of the pattern
      engine, which tries every position. */
  lemma {:induction false} TokensAreMatches(ua: string, i: nat)
    requires Boundary(ua, i)
    ensures TokensFrom(ua, i) == RegexFrom(ua, i)
    decreases |ua| - i
  {
    if i == |ua| {
    } else if ua[i] == ' ' {
      assert ChunkEnd(ua, i) == i && ua[i..i] == [];
      assert ProductOf([]).None?;
      TokensAreMatches(ua, i + 1);
    } else {
      var e := ChunkEnd(ua, i);
      assert ChunkAt(ua, i) == ua[i..e];
      TokensAreMatches(ua, e);
      if ProductOf(ua[i..e]).None? {
        RegexSkip(ua, i, i + 1);
      }
    }
  }

  // ---------------------------------------------------------------------
  // The decision

  /** `blockProducts` as written, before lower-casing. */
  const BlockProducts: seq<string> := [
    "AliApp(DingTalk", "AlipayClient", "baiduboxapp", "Baiduspider", "DingTalk",
    "LBBROWSER", "MicroMessenger", "MQQBrowser", "QBWebViewType", "QBWebViewUA",
    "QQBrowser", "QQDownload", "TaoBrowser", "XiaoMi/MiuiBrowser"
  ]

  /** The members of the `Set` built from
      `blockProducts.map((s) => s.toLowerCase())`, written out;
      `LoweredEntries` shows they are the listed products lower-cased. */
  const Blocklist: seq<string> := [
    "aliapp(dingtalk", "alipayclient", "baiduboxapp", "baiduspider", "dingtalk",
    "lbbrowser", "micromessenger", "mqqbrowser", "qbwebviewtype", "qbwebviewua",
    "qqbrowser", "qqdownload", "taobrowser", "xiaomi/miuibrowser"
  ]

  /** `blockProducts.has(product.toLowerCase())`. */
  predicate IsBlocked(product: string)
  {
    Lower(product) in Blocklist
  }

  lemma LoweredA()
    ensures forall k :: 0 <= k < 3 ==> Lower(BlockProducts[k]) == Blocklist[k]
  {
  }

  lemma LoweredB()
    ensures forall k :: 3 <= k < 6 ==> Lower(BlockProducts[k]) == Blocklist[k]
  {
  }

  lemma LoweredC()
    ensures forall k :: 6 <= k < 9 ==> Lower(BlockProducts[k]) == Blocklist[k]
  {
  }

  lemma LoweredD()
    ensures forall k :: 9 <= k < 12 ==> Lower(BlockProducts[k]) == Blocklist[k]
  {
  }

  lemma LoweredE()
    ensures forall k :: 12 <= k < 14 ==> Lower(BlockProducts[k]) == Blocklist[k]
  {
  }

  /** Each entry of the list is the listed product at the same position,
      lower-cased. */
  lemma LoweredEntries()
    ensures |Blocklist| == |BlockProducts|
    ensures forall k :: 0 <= k < |BlockProducts| ==> Lower(BlockProducts[k]) == Blocklist[k]
  {
    LoweredA();
    LoweredB();
    LoweredC();
    LoweredD();
    LoweredE();
  }

  /** A product is blocked exactly when it equals one of the listed
      products up to case. */
  lemma BlockedUpToCase(product: string)
    ensures IsBlocked(product) <==>
              exists k :: 0 <= k < |BlockProducts| && Lower(product) == Lower(BlockProducts[k])
  {
    LoweredEntries();
    if IsBlocked(product) {
      var k :| 0 <= k < |Blocklist| && Blocklist[k] == Lower(product);
      assert Lower(product) == Lower(BlockProducts[k]);
    }
  }

  function FirstBlocked(ts: seq<Token>): (r: Option<nat>)
    ensures r.Some? ==> r.value < |ts| && IsBlocked(ts[r.value].product)
    ensures r.Some? ==> forall j :: 0 <= j < r.value ==> !IsBlocked(ts[j].product)
    ensures r.None? ==> forall j :: 0 <= j < |ts| ==> !IsBlocked(ts[j].product)
  {
    if ts == [] then None
    else if IsBlocked(ts[0].product) then Some(0)
    else match FirstBlocked(ts[1..])
      case None => None
      case Some(k) => Some(k + 1)
  }

  /** The decision over the tokens `ts` of `ua`. It blocks exactly when
      some token has a blocked product or the header is blank; the
      explanation always reads "User-Agent: " and then `ua` split in
      three, and its strong part is the first blocked product, at that
      token's index, or the whole header when no product is blocked. */
  function Decide(ua: string, ts: seq<Token>): (r: Action)
    ensures r.Blocked? <==> (exists j :: 0 <= j < |ts| && IsBlocked(ts[j].product)) || AllSpace(ua)
    ensures r.Blocked? ==>
              && |r.reason| == 4 && r.reason[0] == ReasonText(Label, Strong)
              && r.reason[1].text + r.reason[2].text + r.reason[3].text == ua
    ensures r.Blocked? && FirstBlocked(ts).Some? ==>
              r.reason == Explain(ua, ts[FirstBlocked(ts).value].index, ts[FirstBlocked(ts).value].product)
    ensures r.Blocked? && FirstBlocked(ts).None? ==>
              r.reason[1].text == [] && r.reason[2].text == ua && r.reason[3].text == []
  {
    match FirstBlocked(ts)
    case Some(k) =>
      Blocked(Explain(ua, ts[k].index, ts[k].product))
    case None =>
      if Trim(ua) == [] then Blocked(Explain(ua, 0, ua)) else Allowed
  }

  /** `detectUserAgent(ua)`: blocked exactly when some token of the
      header has a blocked product or the header is blank, with a
      four-part explanation that puts the header back together.
      `BlockedEmphasis` states what the explanation emphasises. */
  function Detect(ua: string): (r: Action)
    ensures r.Blocked? <==> (exists j :: 0 <= j < |Tokens(ua)| && IsBlocked(Tokens(ua)[j].product)) || AllSpace(ua)
    ensures r.Blocked? ==>
              && |r.reason| == 4 && r.reason[0] == ReasonText(Label, Strong)
              && r.reason[1].text + r.reason[2].text + r.reason[3].text == ua
  {
    Decide(ua, Tokens(ua))
  }

  /** A blocked request emphasises the first blocked product, at its own
      index, which is the product group of the run of the header it
      starts; when no product is blocked, it emphasises the whole blank
      header. */
  lemma BlockedEmphasis(ua: string)
    ensures var ts := Tokens(ua);
            FirstBlocked(ts).Some? ==>
              var t := ts[FirstBlocked(ts).value];
              && Detect(ua).Blocked?
              && Detect(ua).reason[1].text == ua[..t.index] && Detect(ua).reason[2].text == t.product
              && IsBlocked(t.product)
              && ChunkStart(ua, t.index) && ProductOf(ChunkAt(ua, t.index)) == Some(t.product)
    ensures FirstBlocked(Tokens(ua)).None? && Detect(ua).Blocked? ==>
              var r := Detect(ua).reason;
              r[1].text == [] && r[2].text == ua && r[3].text == [] && AllSpace(ua)
  {
    var ts := Tokens(ua);
    var d := Decide(ua, ts);
    assert Detect(ua) == d;
    if FirstBlocked(ts).Some? {
      var t := ts[FirstBlocked(ts).value];
      assert t in ts && IsToken(ua, t);
      assert d.reason == Explain(ua, t.index, t.product);
    }
  }

  // ---------------------------------------------------------------------
  // Case-insensitivity

  lemma LowerAt(a: string, b: string, j: nat)
    requires Lower(a) == Lower(b) && j < |a|
    ensures (a[j] == ' ' <==> b[j] == ' ') && (a[j] == '/' <==> b[j] == '/')
  {
    assert LowerChar(a[j]) == Lower(a)[j] == Lower(b)[j] == LowerChar(b[j]);
  }

  lemma LowerSlice(a: string, b: string, i: nat, e: nat)
    requires Lower(a) == Lower(b) && i <= e <= |a|
    ensures Lower(a[i..e]) == Lower(b[i..e])
  {
    assert forall j :: 0 <= j < e - i ==> Lower(a[i..e])[j] == Lower(a)[i + j] == Lower(b)[i + j] == Lower(b[i..e])[j];
  }

  lemma {:induction false} ChunkEndAlike(a: string, b: string, i: nat)
    requires Lower(a) == Lower(b) && i <= |a|
    ensures ChunkEnd(a, i) == ChunkEnd(b, i)
    decreases |a| - i
  {
    if i < |a| {
      LowerAt(a, b, i);
      if a[i] != ' ' {
        ChunkEndAlike(a, b, i + 1);
      }
    }
  }

  lemma {:induction false} LastSlashAlike(a: string, b: string, k: int)
    requires Lower(a) == Lower(b) && k < |a|
    ensures LastSlash(a, k) == LastSlash(b, k)
    decreases k
  {
    if k >= 1 {
      LowerAt(a, b, k);
      LastSlashAlike(a, b, k - 1);
    }
  }

  /** Runs that agree up to case have products that agree up to case. */
  lemma ProductAlike(a: string, b: string)
    requires Lower(a) == Lower(b)
    ensures ProductOf(a).Some? <==> ProductOf(b).Some?
    ensures ProductOf(a).Some? ==> Lower(ProductOf(a).value) == Lower(ProductOf(b).value)
  {
    LastSlashAlike(a, b, |a| - 2);
    if ProductOf(a).Some? {
      LowerSlice(a, b, 0, |ProductOf(a).value|);
    }
  }

  /** Two token lists of the same length whose products are blocked at
      the same positions. */
  predicate BlockedAlike(A: seq<Token>, B: seq<Token>)
  {
    |A| == |B| && forall k :: 0 <= k < |A| ==> IsBlocked(A[k].product) == IsBlocked(B[k].product)
  }

  lemma BlockedAlikeCons(x: Token, y: Token, A: seq<Token>, B: seq<Token>)
    requires Lower(x.product) == Lower(y.product) && BlockedAlike(A, B)
    ensures BlockedAlike([x] + A, [y] + B)
  {
    var A', B' := [x] + A, [y] + B;
    assert A'[1..] == A && B'[1..] == B;
    forall k | 1 <= k < |A'| ensures IsBlocked(A'[k].product) == IsBlocked(B'[k].product) {
      assert A'[k] == A'[1..][k - 1] && B'[k] == B'[1..][k - 1];
    }
  }

  /** Headers that agree up to case yield tokens at the same positions
      whose products agree up to case. */
  lemma {:induction false} TokensAlike(a: string, b: string, i: nat)
    requires Lower(a) == Lower(b) && Boundary(a, i) && Boundary(b, i)
    ensures BlockedAlike(TokensFrom(a, i), TokensFrom(b, i))
    decreases |a| - i
  {
    if i < |a| {
      LowerAt(a, b, i);
      if a[i] == ' ' {
        TokensAlike(a, b, i + 1);
      } else {
        var e := ChunkEnd(a, i);
        ChunkEndAlike(a, b, i);
        LowerSlice(a, b, i, e);
        ProductAlike(a[i..e], b[i..e]);
        TokensAlike(a, b, e);
        TokensAlikeHead(a, b, i, e);
      }
    }
  }

  /** One step of `TokensAlike`: a run whose product group agrees up to
      case puts tokens that agree up to case in front of tokens that
      agree up to case. */
  lemma TokensAlikeHead(a: string, b: string, i: nat, e: nat)
    requires i < |a| && i < |b| && a[i] != ' ' && b[i] != ' '
    requires Boundary(a, i) && Boundary(b, i)
    requires e == ChunkEnd(a, i) == ChunkEnd(b, i)
    requires ProductOf(a[i..e]).Some? <==> ProductOf(b[i..e]).Some?
    requires ProductOf(a[i..e]).Some? ==> Lower(ProductOf(a[i..e]).value) == Lower(ProductOf(b[i..e]).value)
    requires BlockedAlike(TokensFrom(a, e), TokensFrom(b, e))
    ensures BlockedAlike(TokensFrom(a, i), TokensFrom(b, i))
  {
    var pa := ProductOf(ChunkAt(a, i));
    var pb := ProductOf(ChunkAt(b, i));
    if pa.Some? {
      assert TokensFrom(a, i) == [Token(i, pa.value)] + TokensFrom(a, e);
      assert TokensFrom(b, i) == [Token(i, pb.value)] + TokensFrom(b, e);
      BlockedAlikeCons(Token(i, pa.value), Token(i, pb.value), TokensFrom(a, e), TokensFrom(b, e));
    }
  }

  /** Whether a request is blocked does not depend on the case of the
      header: both the blocklist and the products are lower-cased before
      they are compared. */
  lemma CaseInsensitive(a: string, b: string)
    requires Lower(a) == Lower(b)
    ensures Detect(a).Blocked? <==> Detect(b).Blocked?
  {
    TokensAlike(a, b, 0);
    assert AllSpace(a) <==> AllSpace(b) by {
      forall j | 0 <= j < |a| ensures IsSpace(a[j]) <==> IsSpace(b[j]) {
        assert LowerChar(a[j]) == Lower(a)[j] == Lower(b)[j] == LowerChar(b[j]);
      }
    }
  }
}
