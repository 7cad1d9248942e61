/** `acceptLanguage` (`app/i18n.ts`): the language ranges of an
    Accept-Language header (section 12.5.4 of RFC 9110), ordered by their
    quality values (section 12.4.2 of RFC 9110), highest first. The
    header syntax is taken loosely: items are split on commas, and the
    quality is whatever follows the literal `;q=`. Converting the quality
    text to a number is a parameter (`None` stands for `NaN`). */
module AcceptLanguage {
  import opened Common
  import opened JsString

  datatype Locale = Locale(tag: string, q: real)

  /** `Number(text)`, with `None` for `NaN`. */
  type Parser = string -> Option<real>

  const QSep: string := ";q="

  // ---------------------------------------------------------------------
  // Items

  /** What an item looks like: not empty, no white space at either end,
      no comma. */
  predicate IsItem(t: string)
  {
    t != [] && !IsSpace(t[0]) && !IsSpace(Last(t)) && !Contains(t, ",")
  }

  /** `idx` lists positions below `n`, in strictly increasing order. */
  predicate Increasing(idx: seq<nat>, n: nat)
  {
    && (forall i :: 0 <= i < |idx| ==> idx[i] < n)
    && (forall i, j :: 0 <= i < j < |idx| ==> idx[i] < idx[j])
  }

  /** `r` is what a filtering map `f` keeps of `src`, in order: `idx`
      lists, increasingly, exactly the positions where `f` gives a value,
      and `r` holds those values. This is `src.map(...).filter(...)` and
      the `continue`-or-`push` loop over it, stated position by
      position. */
  ghost predicate Picks<S, T>(src: seq<S>, f: S -> Option<T>, r: seq<T>, idx: seq<nat>)
  {
    && |idx| == |r| && Increasing(idx, |src|)
    && (forall i :: 0 <= i < |r| ==> f(src[idx[i]]) == Some(r[i]))
    && (forall k :: 0 <= k < |src| && f(src[k]).Some? ==> k in idx)
  }

  function Shift(idx: seq<nat>): (r: seq<nat>)
    ensures |r| == |idx| && forall i :: 0 <= i < |idx| ==> r[i] == idx[i] + 1
  {
    seq(|idx|, i requires 0 <= i < |idx| => idx[i] + 1)
  }

  lemma PicksNil<S, T>(f: S -> Option<T>)
    ensures Picks([], f, [], [])
  {
  }

  /** The positions picked from the tail, one further on. */
  lemma PicksShift<S, T>(src: seq<S>, f: S -> Option<T>, r: seq<T>, idx: seq<nat>)
    requires src != [] && Picks(src[1..], f, r, idx)
    ensures Increasing(Shift(idx), |src|)
    ensures forall i :: 0 <= i < |idx| ==> 1 <= Shift(idx)[i]
    ensures forall i :: 0 <= i < |r| ==> f(src[Shift(idx)[i]]) == Some(r[i])
    ensures forall k :: 1 <= k < |src| && f(src[k]).Some? ==> k in Shift(idx)
  {
    ShiftValues(src, f, r, idx);
    ShiftCovers(src, f, r, idx);
  }

  lemma ShiftValues<S, T>(src: seq<S>, f: S -> Option<T>, r: seq<T>, idx: seq<nat>)
    requires src != [] && Picks(src[1..], f, r, idx)
    ensures forall i :: 0 <= i < |r| ==> f(src[Shift(idx)[i]]) == Some(r[i])
  {
    var sh := Shift(idx);
    forall i | 0 <= i < |r| ensures f(src[sh[i]]) == Some(r[i]) {
      assert src[sh[i]] == src[1..][idx[i]];
    }
  }

  lemma ShiftCovers<S, T>(src: seq<S>, f: S -> Option<T>, r: seq<T>, idx: seq<nat>)
    requires src != [] && Picks(src[1..], f, r, idx)
    ensures forall k :: 1 <= k < |src| && f(src[k]).Some? ==> k in Shift(idx)
  {
    var sh := Shift(idx);
    forall k | 1 <= k < |src| && f(src[k]).Some? ensures k in sh {
      assert src[k] == src[1..][k - 1];
      var i :| 0 <= i < |idx| && idx[i] == k - 1;
      assert sh[i] == k;
    }
  }

  /** A head that `f` drops adds nothing. */
  lemma PicksSkip<S, T>(src: seq<S>, f: S -> Option<T>, r: seq<T>)
    requires src != [] && f(src[0]).None?
    requires exists idx :: Picks(src[1..], f, r, idx)
    ensures exists idx :: Picks(src, f, r, idx)
  {
    var idx :| Picks(src[1..], f, r, idx);
    PicksShift(src, f, r, idx);
    assert Picks(src, f, r, Shift(idx));
  }

  /** A head that `f` keeps comes first, at position 0. */
  lemma PicksTake<S, T>(src: seq<S>, f: S -> Option<T>, x: T, r: seq<T>)
    requires src != [] && f(src[0]) == Some(x)
    requires exists idx :: Picks(src[1..], f, r, idx)
    ensures exists idx :: Picks(src, f, [x] + r, idx)
  {
    var idx :| Picks(src[1..], f, r, idx);
    PicksShift(src, f, r, idx);
    PicksCons(src, f, x, r, Shift(idx));
  }

  /** Position 0 in front of the shifted positions of the tail. */
  lemma PicksCons<S, T>(src: seq<S>, f: S -> Option<T>, x: T, r: seq<T>, sh: seq<nat>)
    requires src != [] && f(src[0]) == Some(x) && |sh| == |r|
    requires Increasing(sh, |src|) && forall i :: 0 <= i < |sh| ==> 1 <= sh[i]
    requires forall i :: 0 <= i < |r| ==> f(src[sh[i]]) == Some(r[i])
    requires forall k :: 1 <= k < |src| && f(src[k]).Some? ==> k in sh
    ensures Picks(src, f, [x] + r, [0] + sh)
  {
    ConsIncreasing(sh, |src|);
    ConsValues(src, f, x, r, sh);
    ConsCovers(src, f, sh);
  }

  lemma ConsIncreasing(sh: seq<nat>, n: nat)
    requires 0 < n && Increasing(sh, n) && forall i :: 0 <= i < |sh| ==> 1 <= sh[i]
    ensures Increasing([0] + sh, n)
  {
    var idx := [0] + sh;
    forall i, j | 0 <= i < j < |idx| ensures idx[i] < idx[j] {
      assert idx[j] == sh[j - 1];
      if i > 0 {
        assert idx[i] == sh[i - 1];
      }
    }
  }

  lemma ConsValues<S, T>(src: seq<S>, f: S -> Option<T>, x: T, r: seq<T>, sh: seq<nat>)
    requires src != [] && f(src[0]) == Some(x) && |sh| == |r|
    requires forall i :: 0 <= i < |sh| ==> sh[i] < |src|
    requires forall i :: 0 <= i < |r| ==> f(src[sh[i]]) == Some(r[i])
    ensures forall i :: 0 <= i < |[x] + r| ==> f(src[([0] + sh)[i]]) == Some(([x] + r)[i])
  {
    var idx := [0] + sh;
    var r' := [x] + r;
    forall i | 0 <= i < |r'| ensures f(src[idx[i]]) == Some(r'[i]) {
      if i > 0 {
        assert idx[i] == sh[i - 1] && r'[i] == r[i - 1];
      }
    }
  }

  lemma ConsCovers<S, T>(src: seq<S>, f: S -> Option<T>, sh: seq<nat>)
    requires forall k :: 1 <= k < |src| && f(src[k]).Some? ==> k in sh
    ensures forall k :: 0 <= k < |src| && f(src[k]).Some? ==> k in [0] + sh
  {
    var idx := [0] + sh;
    forall k | 0 <= k < |src| && f(src[k]).Some? ensures k in idx {
      if k > 0 {
        var i :| 0 <= i < |sh| && sh[i] == k;
        assert idx[i + 1] == k;
      }
    }
  }

  /** A part, trimmed, unless that leaves nothing (`.filter(Boolean)`). */
  function NonBlank(p: string): Option<string>
  {
    var t := Trim(p);
    if t == [] then None else Some(t)
  }

  /** The trimmed, non-empty parts of a comma split, in order. */
  function TrimmedParts(parts: seq<string>): (r: seq<string>)
    requires forall k :: 0 <= k < |parts| ==> !Contains(parts[k], ",")
    ensures |r| <= |parts|
    ensures forall k :: 0 <= k < |r| ==> IsItem(r[k])
    ensures exists idx :: Picks(parts, NonBlank, r, idx)
  {
    if parts == [] then
      PicksNil(NonBlank);
      []
    else
      var t := Trim(parts[0]);
      var rest := TrimmedParts(parts[1..]);
      if t == [] then
        PicksSkip(parts, NonBlank, rest);
        rest
      else
        TrimItem(parts[0]);
        ItemsCons(t, rest);
        PicksTake(parts, NonBlank, t, rest);
        [t] + rest
  }

  lemma ItemsCons(t: string, rest: seq<string>)
    requires IsItem(t) && forall k :: 0 <= k < |rest| ==> IsItem(rest[k])
    ensures forall k :: 0 <= k < |[t] + rest| ==> IsItem(([t] + rest)[k])
  {
  }

  /** A trimmed part without a comma is an item unless it is empty. */
  lemma TrimItem(p: string)
    requires !Contains(p, ",")
    ensures Trim(p) != [] ==> IsItem(Trim(p))
  {
    TrimKeepsOut(p, Trim(p), ",");
  }

  /** Trimming cannot bring in a separator that was not there. */
  lemma TrimKeepsOut(s: string, t: string, sep: string)
    requires t == Trim(s) && !Contains(s, sep)
    ensures !Contains(t, sep)
  {
    var a :| TrimmedAt(s, t, a);
    PieceKeepsOut(s, a, t, sep);
  }

  /** A piece of a string without a separator has none either. */
  lemma PieceKeepsOut(s: string, a: nat, t: string, sep: string)
    requires a + |t| <= |s| && t == s[a..a + |t|] && !Contains(s, sep)
    ensures !Contains(t, sep)
  {
    forall k | 0 <= k <= |t| ensures !OccursAt(t, sep, k) {
      if OccursAt(t, sep, k) {
        SliceOfSlice(s, a, a + |t|, k, k + |sep|);
        assert OccursAt(s, sep, a + k);
      }
    }
  }

  /** `header.split(",").map((t) => t.trim()).filter(Boolean)`: the
      items are the trimmed comma-separated parts that are not blank, in
      header order, one for each such part; every item is non-empty,
      neither starts nor ends with white space, and holds no comma. */
  function Items(header: string): (r: seq<string>)
    ensures |r| <= |Split(header, ",")|
    ensures forall k :: 0 <= k < |r| ==> IsItem(r[k])
    ensures exists idx :: Picks(Split(header, ","), NonBlank, r, idx)
  {
    TrimmedParts(Split(header, ","))
  }

  /** Every part of the comma split that is not blank is an item. */
  lemma {:induction false} ItemsComplete(parts: seq<string>, k: nat)
    requires forall j :: 0 <= j < |parts| ==> !Contains(parts[j], ",")
    requires k < |parts| && !AllSpace(parts[k])
    ensures Trim(parts[k]) in TrimmedParts(parts)
  {
    if k > 0 {
      ItemsComplete(parts[1..], k - 1);
    }
  }

  // ---------------------------------------------------------------------
  // One item

  /** The tag of an item: the text before the first `;q=`, or the whole
      item when there is none. */
  function TagText(item: string): (r: string)
    ensures FindFrom(item, QSep, 0).None? ==> r == item
    ensures FindFrom(item, QSep, 0).Some? ==> r == item[..FindFrom(item, QSep, 0).value]
    ensures !Contains(r, QSep)
  {
    SplitHead(item, QSep);
    Split(item, QSep)[0]
  }

  /** The quality text of an item: `"1"` when there is no `;q=`,
      otherwise the text after the first `;q=` up to the next one (or
      the end); anything after a second `;q=` is ignored. */
  function QText(item: string): (r: string)
    ensures FindFrom(item, QSep, 0).None? ==> r == "1"
    ensures FindFrom(item, QSep, 0).Some? ==>
              var rest := item[FindFrom(item, QSep, 0).value + |QSep|..];
              && |r| <= |rest| && r == rest[..|r|] && !Contains(r, QSep)
              && (r == rest || OccursAt(rest, QSep, |r|))
  {
    var parts := Split(item, QSep);
    SplitHead(item, QSep);
    if |parts| >= 2 then
      var k := FindFrom(item, QSep, 0).value;
      var rest := item[k + |QSep|..];
      SplitHead(rest, QSep);
      parts[1]
    else "1"
  }

  /** One item as a locale, or nothing when its quality is `NaN`. */
  function ParseItem(item: string, parse: Parser): (r: Option<Locale>)
    ensures r.Some? <==> parse(QText(item)).Some?
    ensures r.Some? ==> r.value == Locale(TagText(item), parse(QText(item)).value)
  {
    match parse(QText(item))
    case None => None
    case Some(q) => Some(Locale(TagText(item), q))
  }

  /** `ParseItem` with the parser fixed, as the loop body applies it. */
  function KeepItem(parse: Parser): string -> Option<Locale>
  {
    item => ParseItem(item, parse)
  }

  /** The loop of `acceptLanguage`: one locale for every item whose
      quality parses, in header order, and nothing else. */
  function Kept(items: seq<string>, parse: Parser): (r: seq<Locale>)
    ensures |r| <= |items|
    ensures forall l :: l in r ==> exists k :: 0 <= k < |items| && ParseItem(items[k], parse) == Some(l)
    ensures forall k :: 0 <= k < |items| && ParseItem(items[k], parse).Some? ==>
              ParseItem(items[k], parse).value in r
    ensures exists idx :: Picks(items, KeepItem(parse), r, idx)
  {
    if items == [] then
      PicksNil(KeepItem(parse));
      []
    else
      var rest := Kept(items[1..], parse);
      assert KeepItem(parse)(items[0]) == ParseItem(items[0], parse);
      match ParseItem(items[0], parse)
      case None =>
        PicksSkip(items, KeepItem(parse), rest);
        KeptMembers(items, parse, rest);
        rest
      case Some(l) =>
        PicksTake(items, KeepItem(parse), l, rest);
        KeptMembers(items, parse, [l] + rest);
        [l] + rest
  }

  /** What the index map says about membership: each kept locale comes
      from an item, and each item that parses is kept. */
  lemma KeptMembers(items: seq<string>, parse: Parser, r: seq<Locale>)
    requires exists idx :: Picks(items, KeepItem(parse), r, idx)
    ensures |r| <= |items|
    ensures forall l :: l in r ==> exists k :: 0 <= k < |items| && ParseItem(items[k], parse) == Some(l)
    ensures forall k :: 0 <= k < |items| && ParseItem(items[k], parse).Some? ==>
              ParseItem(items[k], parse).value in r
  {
    var idx :| Picks(items, KeepItem(parse), r, idx);
    IncreasingLength(idx, |items|);
    forall l | l in r ensures exists k :: 0 <= k < |items| && ParseItem(items[k], parse) == Some(l) {
      var i :| 0 <= i < |r| && r[i] == l;
      assert KeepItem(parse)(items[idx[i]]) == Some(l);
    }
    forall k | 0 <= k < |items| && ParseItem(items[k], parse).Some?
      ensures ParseItem(items[k], parse).value in r
    {
      assert KeepItem(parse)(items[k]).Some?;
      var i :| 0 <= i < |idx| && idx[i] == k;
      assert KeepItem(parse)(items[idx[i]]) == Some(r[i]);
    }
  }

  /** Increasing positions below `n` number at most `n`. */
  lemma {:induction false} IncreasingLength(idx: seq<nat>, n: nat)
    requires Increasing(idx, n)
    ensures |idx| <= n
  {
    if idx != [] {
      var m := |idx| - 1;
      assert Increasing(idx[..m], idx[m]) by {
        forall i | 0 <= i < m ensures idx[..m][i] < idx[m] {
          assert idx[..m][i] == idx[i];
        }
      }
      IncreasingLength(idx[..m], idx[m]);
    }
  }

  // ---------------------------------------------------------------------
  // The stable sort

  /** Quality values never increase along `s`. */
  predicate Descending(s: seq<Locale>)
  {
    forall i, j :: 0 <= i < j < |s| ==> s[i].q >= s[j].q
  }

  /** The locales of `s` with quality `v`, in order. */
  function WithQ(s: seq<Locale>, v: real): seq<Locale>
  {
    if s == [] then []
    else (if s[0].q == v then [s[0]] else []) + WithQ(s[1..], v)
  }

  /** Inserts `x` after the leading run of elements of at least its
      quality: one element longer, and starting with the larger of `x`
      and the head of `s`, the head winning ties. `InsertSorted` and
      `InsertPerm` state the rest. */
  function Insert(x: Locale, s: seq<Locale>): (r: seq<Locale>)
    ensures |r| == |s| + 1
    ensures r[0] == (if s == [] || s[0].q < x.q then x else s[0])
  {
    if s == [] then [x]
    else if s[0].q < x.q then [x] + s
    else [s[0]] + Insert(x, s[1..])
  }

  /** Inserting into a descending sequence keeps it descending. */
  lemma {:induction false} InsertSorted(x: Locale, s: seq<Locale>)
    requires Descending(s)
    ensures Descending(Insert(x, s))
  {
    if s != [] && s[0].q >= x.q {
      var rest := Insert(x, s[1..]);
      InsertSorted(x, s[1..]);
      assert rest[0].q <= s[0].q by {
        if |s| > 1 && s[1].q >= x.q { assert rest[0] == s[1]; }
      }
      var r := [s[0]] + rest;
      forall i, j | 0 <= i < j < |r| ensures r[i].q >= r[j].q {
        if i == 0 {
          assert r[j] == rest[j - 1];
          assert j - 1 == 0 || rest[0].q >= rest[j - 1].q;
        } else {
          assert r[i] == rest[i - 1] && r[j] == rest[j - 1];
        }
      }
    }
  }

  /** Inserting adds `x` and loses nothing. */
  lemma {:induction false} InsertPerm(x: Locale, s: seq<Locale>)
    ensures multiset(Insert(x, s)) == multiset(s) + multiset{x}
  {
    if s != [] && s[0].q >= x.q {
      InsertPerm(x, s[1..]);
      assert s == [s[0]] + s[1..];
    }
  }

  /** `locales.sort(({ q: q1 }, { q: q2 }) => q2 - q1)`, as an insertion
      sort that takes the elements in order. The result is descending by
      quality and a permutation of the input. */
  function SortByQ(s: seq<Locale>): (r: seq<Locale>)
    ensures Descending(r)
    ensures multiset(r) == multiset(s)
    ensures |r| == |s|
  {
    if s == [] then []
    else
      var sorted := SortByQ(s[..|s| - 1]);
      InsertSorted(Last(s), sorted);
      InsertPerm(Last(s), sorted);
      assert s == s[..|s| - 1] + [Last(s)];
      Insert(Last(s), sorted)
  }

  lemma {:induction false} WithQAppend(a: seq<Locale>, b: seq<Locale>, v: real)
    ensures WithQ(a + b, v) == WithQ(a, v) + WithQ(b, v)
  {
    if a == [] {
      assert a + b == b;
    } else {
      var h := if a[0].q == v then [a[0]] else [];
      assert (a + b)[0] == a[0] && (a + b)[1..] == a[1..] + b;
      assert WithQ(a + b, v) == h + WithQ(a[1..] + b, v);
      WithQAppend(a[1..], b, v);
      assert WithQ(a, v) == h + WithQ(a[1..], v);
    }
  }

  /** Insertion puts `x` after every element of the same quality. */
  lemma {:induction false} InsertStable(x: Locale, s: seq<Locale>, v: real)
    requires Descending(s)
    ensures WithQ(Insert(x, s), v) == WithQ(s, v) + (if x.q == v then [x] else [])
  {
    if s == [] {
      assert [x][1..] == [];
    } else if s[0].q < x.q {
      InsertFront(x, s, v);
    } else {
      DescendingTail(s);
      InsertStable(x, s[1..], v);
      InsertBehind(x, s, v);
    }
  }

  /** `x` goes in front of a sequence whose elements all have lower
      quality, so none of them shares its quality. */
  lemma InsertFront(x: Locale, s: seq<Locale>, v: real)
    requires Descending(s) && s != [] && s[0].q < x.q
    ensures WithQ(Insert(x, s), v) == WithQ(s, v) + (if x.q == v then [x] else [])
  {
    assert Insert(x, s) == [x] + s;
    assert ([x] + s)[1..] == s;
    if x.q == v {
      WithQNone(s, v);
    }
  }

  /** `x` goes behind the head: the head comes first either way. */
  lemma InsertBehind(x: Locale, s: seq<Locale>, v: real)
    requires s != [] && s[0].q >= x.q
    requires WithQ(Insert(x, s[1..]), v) == WithQ(s[1..], v) + (if x.q == v then [x] else [])
    ensures WithQ(Insert(x, s), v) == WithQ(s, v) + (if x.q == v then [x] else [])
  {
    var rest := Insert(x, s[1..]);
    var head := if s[0].q == v then [s[0]] else [];
    var tail := if x.q == v then [x] else [];
    calc {
      WithQ(Insert(x, s), v);
      WithQ([s[0]] + rest, v);
      { WithQCons(s[0], rest, v); }
      head + WithQ(rest, v);
      head + (WithQ(s[1..], v) + tail);
      (head + WithQ(s[1..], v)) + tail;
      WithQ(s, v) + tail;
    }
  }

  lemma WithQCons(y: Locale, t: seq<Locale>, v: real)
    ensures WithQ([y] + t, v) == (if y.q == v then [y] else []) + WithQ(t, v)
  {
    assert ([y] + t)[1..] == t;
  }

  lemma DescendingTail(s: seq<Locale>)
    requires Descending(s) && s != []
    ensures Descending(s[1..])
  {
    forall i, j | 0 <= i < j < |s| - 1 ensures s[1..][i].q >= s[1..][j].q {
      assert s[1..][i] == s[i + 1] && s[1..][j] == s[j + 1];
    }
  }

  /** Nothing in a descending sequence that starts below `v` has
      quality `v`. */
  lemma {:induction false} WithQNone(s: seq<Locale>, v: real)
    requires Descending(s) && s != [] && s[0].q < v
    ensures WithQ(s, v) == []
  {
    if |s| > 1 {
      assert s[1].q <= s[0].q;
      DescendingTail(s);
      WithQNone(s[1..], v);
    }
  }

  /** The sort is stable: the locales of any one quality come out in the
      order they went in. */
  lemma {:induction false} SortStable(s: seq<Locale>, v: real)
    ensures WithQ(SortByQ(s), v) == WithQ(s, v)
  {
    if s != [] {
      var init := s[..|s| - 1];
      var x := Last(s);
      var tail := if x.q == v then [x] else [];
      InitLast(s);
      assert [x][1..] == [];
      assert WithQ([x], v) == tail;
      calc {
        WithQ(SortByQ(s), v);
        WithQ(Insert(x, SortByQ(init)), v);
        { InsertStable(x, SortByQ(init), v); }
        WithQ(SortByQ(init), v) + tail;
        { SortStable(init, v); }
        WithQ(init, v) + tail;
        { WithQAppend(init, [x], v); }
        WithQ(init + [x], v);
      }
    }
  }

  // ---------------------------------------------------------------------
  // The whole function

  function Tags(s: seq<Locale>): (r: seq<string>)
    ensures |r| == |s|
    ensures forall i :: 0 <= i < |s| ==> r[i] == s[i].tag
  {
    seq(|s|, i requires 0 <= i < |s| => s[i].tag)
  }

  /** The locales `acceptLanguage` orders. */
  function Locales(header: string, parse: Parser): seq<Locale>
  {
    SortByQ(Kept(Items(header), parse))
  }

  /** `tags` are the tags of an ordering of `kept` that is descending by
      quality, loses and adds nothing, and keeps the order of `kept`
      among equal qualities. */
  ghost predicate QualityOrder(kept: seq<Locale>, tags: seq<string>)
  {
    exists sorted :: && tags == Tags(sorted) && Descending(sorted)
                     && multiset(sorted) == multiset(kept)
                     && forall v :: WithQ(sorted, v) == WithQ(kept, v)
  }

  /** `acceptLanguage(header)`: one tag per kept item, in quality order,
      header order among equal qualities. */
  function Parse(header: string, parse: Parser): (r: seq<string>)
    ensures |r| == |Kept(Items(header), parse)|
    ensures QualityOrder(Kept(Items(header), parse), r)
  {
    var kept := Kept(Items(header), parse);
    SortedTags(kept);
    Tags(SortByQ(kept))
  }

  lemma SortedTags(kept: seq<Locale>)
    ensures QualityOrder(kept, Tags(SortByQ(kept)))
  {
    SortStableAll(kept);
    var sorted := SortByQ(kept);
    assert Descending(sorted) && multiset(sorted) == multiset(kept);
  }

  lemma SortStableAll(s: seq<Locale>)
    ensures forall v :: WithQ(SortByQ(s), v) == WithQ(s, v)
  {
    forall v ensures WithQ(SortByQ(s), v) == WithQ(s, v) {
      SortStable(s, v);
    }
  }

  /** What the result is made of: the tags of the kept locales, ordered
      by quality, highest first; a permutation of the kept locales; and
      locales of equal quality in header order. */
  lemma ParseSpec(header: string, parse: Parser)
    ensures var kept := Kept(Items(header), parse);
            var sorted := SortByQ(kept);
            && Parse(header, parse) == Tags(sorted)
            && (forall i, j :: 0 <= i < j < |sorted| ==> sorted[i].q >= sorted[j].q)
            && multiset(sorted) == multiset(kept)
            && (forall v :: WithQ(sorted, v) == WithQ(kept, v))
  {
    var kept := Kept(Items(header), parse);
    forall v ensures WithQ(SortByQ(kept), v) == WithQ(kept, v) {
      SortStable(kept, v);
    }
  }
}
