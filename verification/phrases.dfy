/** The phrase splitter of the canvas text layout (`placeLetters`, first
    half). A phrase is a word together with the run of break characters
    that trails it; phrases are what the layout tries to keep on one
    line. The splitter walks the characters with a single `shouldBreak`
    flag that is NOT reset between segments, and pushes the current phrase
    at every segment end. */
module Phrases {
  import opened Common

  /** `StyledText`: text painted with one font and one fill. */
  datatype Styled = Styled(text: string, font: string, fill: string)

  /** The splitter's state after consuming some text: the phrases already
      pushed, the phrase still being built, and the `shouldBreak` flag. */
  datatype Scan = Scan(done: seq<string>, open: string, breaking: bool)

  function Texts(ps: seq<Styled>): (r: seq<string>)
    ensures |r| == |ps|
    ensures forall i :: 0 <= i < |ps| ==> r[i] == ps[i].text
  {
    seq(|ps|, i requires 0 <= i < |ps| => ps[i].text)
  }

  /** Gives every text the same font and fill. */
  function Stylise(texts: seq<string>, font: string, fill: string): (r: seq<Styled>)
    ensures Texts(r) == texts
    ensures forall k :: 0 <= k < |r| ==> r[k].font == font && r[k].fill == fill
  {
    seq(|texts|, k requires 0 <= k < |texts| => Styled(texts[k], font, fill))
  }

  /** The break test used when none is given, `/ /`. */
  predicate SpaceBreak(c: char)
  {
    c == ' '
  }

  /** The character loop of the splitter. While `breaking`, a break
      character extends the open phrase and a non-break character pushes
      it and opens a new one; otherwise the character extends the open
      phrase and `breaking` becomes whether it is a break character.
      No character is lost or repeated. */
  function ScanText(s: string, isBreak: char -> bool, breaking: bool, open: string): (r: Scan)
    ensures Concat(r.done) + r.open == open + s
    decreases |s|
  {
    if s == [] then Scan([], open, breaking)
    else if breaking && !isBreak(s[0]) then
      var rest := ScanText(s[1..], isBreak, false, [s[0]]);
      assert ([open] + rest.done)[1..] == rest.done;
      assert s == [s[0]] + s[1..];
      Scan([open] + rest.done, rest.open, rest.breaking)
    else if breaking then
      ScanText(s[1..], isBreak, true, open + [s[0]])
    else
      ScanText(s[1..], isBreak, isBreak(s[0]), open + [s[0]])
  }

  /** Every phrase a scan has produced, the open one last. */
  function Pieces(r: Scan): seq<string>
  {
    r.done + [r.open]
  }

  /** The phrase texts of one segment, entered with the carried flag. */
  function SegmentTexts(text: string, isBreak: char -> bool, breaking: bool): seq<string>
  {
    Pieces(ScanText(text, isBreak, breaking, []))
  }

  /** The segments' phrases, one group per segment, the flag threaded from
      each segment into the next. Each group is non-empty (a segment end
      always pushes), carries its segment's font and fill, and its texts
      concatenate to exactly its segment's text. */
  function Groups(segs: seq<Styled>, isBreak: char -> bool, breaking: bool): (g: seq<seq<Styled>>)
    ensures |g| == |segs|
    ensures forall i :: 0 <= i < |segs| ==> |g[i]| >= 1 && Concat(Texts(g[i])) == segs[i].text
    ensures forall i, k :: 0 <= i < |segs| && 0 <= k < |g[i]| ==>
              g[i][k].font == segs[i].font && g[i][k].fill == segs[i].fill
  {
    if segs == [] then []
    else
      var sc := ScanText(segs[0].text, isBreak, breaking, []);
      ConcatSnoc(sc.done, sc.open);
      [Stylise(Pieces(sc), segs[0].font, segs[0].fill)] + Groups(segs[1..], isBreak, sc.breaking)
  }

  /** The phrases of a paragraph: all groups in order. */
  function Split(segs: seq<Styled>, isBreak: char -> bool): (r: seq<Styled>)
    ensures Concat(Texts(r)) == Concat(Texts(segs))
  {
    var g := Groups(segs, isBreak, false);
    GroupsTexts(g, segs);
    Concat(g)
  }

  lemma TextsAppend(a: seq<Styled>, b: seq<Styled>)
    ensures Texts(a + b) == Texts(a) + Texts(b)
  {
  }

  /** Flattening the groups keeps the text of the segments. */
  lemma {:induction false} GroupsTexts(g: seq<seq<Styled>>, segs: seq<Styled>)
    requires |g| == |segs|
    requires forall i :: 0 <= i < |segs| ==> Concat(Texts(g[i])) == segs[i].text
    ensures Concat(Texts(Concat(g))) == Concat(Texts(segs))
  {
    if g != [] {
      GroupsTexts(g[1..], segs[1..]);
      TextsAppend(g[0], Concat(g[1..]));
      ConcatAppend(Texts(g[0]), Texts(Concat(g[1..])));
      assert Texts(segs)[1..] == Texts(segs[1..]);
    }
  }

  // ---------------------------------------------------------------------
  // The shape of a phrase

  /** Break characters only trail: no non-break character follows one. */
  predicate TrailingBreaks(p: string, isBreak: char -> bool)
  {
    forall i, j :: 0 <= i < j < |p| && isBreak(p[i]) ==> isBreak(p[j])
  }

  predicate HasBreak(p: string, isBreak: char -> bool)
  {
    exists i :: 0 <= i < |p| && isBreak(p[i])
  }

  predicate EndsInBreak(p: string, isBreak: char -> bool)
  {
    p != [] && isBreak(Last(p))
  }

  /** Consecutive phrases meet exactly where a break run ends: the later
      one starts with a non-break character, the earlier one is empty or
      ends with a break character. */
  ghost predicate Boundaries(ps: seq<string>, isBreak: char -> bool)
  {
    forall j, k :: 0 <= j < k < |ps| && k == j + 1 ==> Meet(ps[j], ps[k], isBreak)
  }

  predicate Meet(before: string, after: string, isBreak: char -> bool)
  {
    && after != [] && !isBreak(after[0])
    && (before == [] || EndsInBreak(before, isBreak))
  }

  /** The state a scan may start from: the open phrase has only trailing
      break characters, and the flag is set when it holds one, in which
      case its last character is one. */
  predicate ScanReady(open: string, isBreak: char -> bool, breaking: bool)
  {
    && TrailingBreaks(open, isBreak)
    && (HasBreak(open, isBreak) ==> breaking)
    && (breaking && open != [] ==> isBreak(Last(open)))
  }

  /** What one scan from `(breaking, open)` over `s` produces: every
      phrase has only trailing break characters, phrases meet where break
      runs end, the first phrase extends `open` and is empty exactly when
      nothing was open and the text is empty or starts with a non-break
      character while the flag was set, the flag left over is whether the
      last character is a break (unchanged for empty text), and the final
      state is ready for another scan. */
  ghost predicate ScanShaped(s: string, isBreak: char -> bool, breaking: bool, open: string)
  {
    var r := ScanText(s, isBreak, breaking, open);
    && (forall k :: 0 <= k < |Pieces(r)| ==> TrailingBreaks(Pieces(r)[k], isBreak))
    && Boundaries(Pieces(r), isBreak)
    && |open| <= |Pieces(r)[0]| && Pieces(r)[0][..|open|] == open
    && (Pieces(r)[0] == [] <==> open == [] && (s == [] || (breaking && !isBreak(s[0]))))
    && r.breaking == (if s == [] then breaking else isBreak(Last(s)))
    && ScanReady(r.open, isBreak, r.breaking)
  }

  /** Every scan from a ready state has the shape `ScanShaped` describes. */
  lemma {:induction false} ScanShape(s: string, isBreak: char -> bool, breaking: bool, open: string)
    requires ScanReady(open, isBreak, breaking)
    ensures ScanShaped(s, isBreak, breaking, open)
    decreases |s|
  {
    if s == [] {
    } else if breaking && !isBreak(s[0]) {
      ScanShape(s[1..], isBreak, false, [s[0]]);
      ScanShapeNew(s, isBreak, open);
    } else {
      var open' := open + [s[0]];
      var breaking' := if breaking then true else isBreak(s[0]);
      ScanReadyGrow(open, isBreak, breaking, s[0]);
      ScanShape(s[1..], isBreak, breaking', open');
      ScanShapeGrow(s, isBreak, breaking, open);
    }
  }

  /** Appending a character keeps a state ready. */
  lemma ScanReadyGrow(open: string, isBreak: char -> bool, breaking: bool, c: char)
    requires ScanReady(open, isBreak, breaking)
    requires !(breaking && !isBreak(c))
    ensures ScanReady(open + [c], isBreak, if breaking then true else isBreak(c))
  {
    var open' := open + [c];
    var breaking' := if breaking then true else isBreak(c);
    assert TrailingBreaks(open', isBreak) by {
      forall i, j | 0 <= i < j < |open'| && isBreak(open'[i]) ensures isBreak(open'[j]) {
        if j < |open| {
          assert open'[i] == open[i] && open'[j] == open[j];
        }
      }
    }
    assert HasBreak(open', isBreak) ==> breaking' by {
      if HasBreak(open', isBreak) && !breaking {
        var i :| 0 <= i < |open'| && isBreak(open'[i]);
        if i < |open| { assert open'[i] == open[i]; }
      }
    }
  }

  /** The step of `ScanShape` where a non-break character after a break
      run starts a new phrase. */
  lemma ScanShapeNew(s: string, isBreak: char -> bool, open: string)
    requires s != [] && !isBreak(s[0])
    requires ScanReady(open, isBreak, true)
    requires ScanShaped(s[1..], isBreak, false, [s[0]])
    ensures ScanShaped(s, isBreak, true, open)
  {
    var r := ScanText(s, isBreak, true, open);
    var rest := ScanText(s[1..], isBreak, false, [s[0]]);
    var P := Pieces(r);
    var P' := Pieces(rest);
    assert P == [open] + P';
    assert P'[0][..1] == [s[0]];
    assert Meet(P[0], P[1], isBreak);
    forall j, k | 0 <= j < k < |P| && k == j + 1 ensures Meet(P[j], P[k], isBreak) {
      if j > 0 { assert P[j] == P'[j - 1] && P[k] == P'[k - 1]; }
    }
    if s[1..] != [] { assert Last(s[1..]) == Last(s); }
  }

  /** The step of `ScanShape` where the character joins the open
      phrase. */
  lemma ScanShapeGrow(s: string, isBreak: char -> bool, breaking: bool, open: string)
    requires s != [] && !(breaking && !isBreak(s[0]))
    requires ScanReady(open, isBreak, breaking)
    requires ScanShaped(s[1..], isBreak, if breaking then true else isBreak(s[0]), open + [s[0]])
    ensures ScanShaped(s, isBreak, breaking, open)
  {
    var open' := open + [s[0]];
    assert open'[..|open|] == open;
    if s[1..] != [] { assert Last(s[1..]) == Last(s); }
  }

  /** The flag entering segment `i`: whether the text before it ends in a
      break character, or the initial flag if there is no text before. */
  function CarryIn(segs: seq<Styled>, isBreak: char -> bool, breaking: bool, i: nat): bool
    requires i <= |segs|
  {
    var before := Concat(Texts(segs[..i]));
    if before == [] then breaking else isBreak(Last(before))
  }

  /** Group `i` is segment `i` split with the flag carried over from the
      text before it. */
  lemma {:induction false} GroupAt(segs: seq<Styled>, isBreak: char -> bool, breaking: bool, i: nat)
    requires i < |segs|
    ensures Groups(segs, isBreak, breaking)[i]
            == Stylise(SegmentTexts(segs[i].text, isBreak, CarryIn(segs, isBreak, breaking, i)),
                       segs[i].font, segs[i].fill)
    decreases i
  {
    var sc := ScanText(segs[0].text, isBreak, breaking, []);
    var g := Groups(segs, isBreak, breaking);
    assert g == [Stylise(Pieces(sc), segs[0].font, segs[0].fill)] + Groups(segs[1..], isBreak, sc.breaking);
    if i > 0 {
      ScanFlag(segs[0].text, isBreak, breaking, []);
      GroupAt(segs[1..], isBreak, sc.breaking, i - 1);
      CarryShift(segs, isBreak, breaking, sc.breaking, i);
      assert g[i] == Groups(segs[1..], isBreak, sc.breaking)[i - 1];
    } else {
      assert Texts(segs[..0]) == [];
      assert CarryIn(segs, isBreak, breaking, 0) == breaking;
      assert g[0] == Stylise(SegmentTexts(segs[0].text, isBreak, breaking), segs[0].font, segs[0].fill);
    }
  }

  /** The flag a scan leaves is whether the last character is a break,
      or the flag it started with for empty text. */
  lemma {:induction false} ScanFlag(s: string, isBreak: char -> bool, breaking: bool, open: string)
    ensures ScanText(s, isBreak, breaking, open).breaking == (if s == [] then breaking else isBreak(Last(s)))
    decreases |s|
  {
    if s != [] {
      var b := if breaking && !isBreak(s[0]) then false else if breaking then true else isBreak(s[0]);
      var o := if breaking && !isBreak(s[0]) then [s[0]] else open + [s[0]];
      ScanFlag(s[1..], isBreak, b, o);
      if s[1..] != [] { assert Last(s[1..]) == Last(s); }
    }
  }

  /** Dropping the first segment shifts the carried flag by one segment. */
  lemma CarryShift(segs: seq<Styled>, isBreak: char -> bool, breaking: bool, next: bool, i: nat)
    requires 0 < i <= |segs|
    requires next == (if segs[0].text == [] then breaking else isBreak(Last(segs[0].text)))
    ensures CarryIn(segs[1..], isBreak, next, i - 1) == CarryIn(segs, isBreak, breaking, i)
  {
    assert segs[..i] == [segs[0]] + segs[1..][..i - 1];
    TextsAppend([segs[0]], segs[1..][..i - 1]);
    assert Texts(segs[..i]) == [segs[0].text] + Texts(segs[1..][..i - 1]);
    var rest := Concat(Texts(segs[1..][..i - 1]));
    assert Concat(Texts(segs[..i])) == segs[0].text + rest;
    if rest != [] {
      assert Last(segs[0].text + rest) == Last(rest);
    }
  }

  /** The phrases of every segment have only trailing break characters
      and meet exactly where break runs end. */
  lemma PhraseShape(segs: seq<Styled>, isBreak: char -> bool, i: nat)
    requires i < |segs|
    ensures var g := Groups(segs, isBreak, false)[i];
            && (forall k :: 0 <= k < |g| ==> TrailingBreaks(g[k].text, isBreak))
            && Boundaries(Texts(g), isBreak)
  {
    var carry := CarryIn(segs, isBreak, false, i);
    GroupAt(segs, isBreak, false, i);
    ScanShape(segs[i].text, isBreak, carry, []);
  }

  /** Empty phrases arise exactly as the first phrase of a segment that is
      empty, or whose first character is not a break while the text
      before the segment ends in a break character (the flag carried over
      the segment boundary). */
  lemma EmptyPhrases(segs: seq<Styled>, isBreak: char -> bool, i: nat, k: nat)
    requires i < |segs|
    requires k < |Groups(segs, isBreak, false)[i]|
    ensures Groups(segs, isBreak, false)[i][k].text == []
            <==> k == 0 && (segs[i].text == []
                            || (EndsInBreak(Concat(Texts(segs[..i])), isBreak) && !isBreak(segs[i].text[0])))
  {
    var carry := CarryIn(segs, isBreak, false, i);
    GroupAt(segs, isBreak, false, i);
    ScanShape(segs[i].text, isBreak, carry, []);
    assert carry == EndsInBreak(Concat(Texts(segs[..i])), isBreak);
    var P := SegmentTexts(segs[i].text, isBreak, carry);
    assert Groups(segs, isBreak, false)[i][k].text == P[k];
    if k > 0 {
      assert Meet(P[k - 1], P[k], isBreak);
    }
  }
}
