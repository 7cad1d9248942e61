/** The line layout of the canvas text (`placeLetters`, second half, the
    `place` generator): a greedy fold over the phrases that gives every
    code point a position `(left, top)` and a `bottom`. Text measurement
    (`ctx.measureText`) is a parameter; the rule for how far a new line
    moves down is the one point where the two copies of the engine
    differ. */
module Layout {
  import opened Common
  import opened Phrases

  /** What the layout reads from `measureText`: advance width, the
      bounding-box descent, and the em-box ascent and descent. */
  datatype Metrics = Metrics(width: real, boxDescent: real, emAscent: real, emDescent: real)

  /** Text measurement: font and text to metrics. */
  type Measurer = (string, string) -> Metrics

  /** How far down a new line starts: a fixed `leading`, or the measured
      em height `(emHeightDescent - emHeightAscent) * lineHeight` of the
      measurement that caused the new line. */
  datatype LineRule = Leading(leading: real) | EmHeight(lineHeight: real)

  datatype Config = Config(lineWidth: real, letterSpacing: real,
                           originLeft: real, originTop: real, rule: LineRule)

  /** The generator's mutable locals `left`, `top` and `descent`. */
  datatype Cursor = Cursor(left: real, top: real, descent: real)

  /** One placed code point. `em` is the line advance its own measurement
      calls for. */
  datatype Letter = Letter(ch: char, font: string, fill: string, em: real,
                           left: real, top: real, bottom: real)

  datatype Placement = Placement(cursor: Cursor, letters: seq<Letter>)

  function Advance(rule: LineRule, m: Metrics): real
  {
    match rule
    case Leading(leading) => leading
    case EmHeight(lineHeight) => (m.emDescent - m.emAscent) * lineHeight
  }

  function Start(cfg: Config): Cursor
  {
    Cursor(cfg.originLeft, cfg.originTop, 0.0)
  }

  /** `newline(measured)`. */
  function NewLine(cfg: Config, c: Cursor, m: Metrics): Cursor
  {
    Cursor(cfg.originLeft, c.top + Advance(cfg.rule, m), m.boxDescent)
  }

  /** The metrics of a letter's own code point in its own font. */
  function MetricsOf(measure: Measurer, l: Letter): Metrics
  {
    measure(l.font, [l.ch])
  }

  /** The phrase-level lookahead: a whole phrase moves to a new line
      exactly when it overflows the rest of the line but fits on a fresh
      one. The new line starts at the origin's left, one line advance
      (for the phrase's measurement) below the current top, with the
      phrase's descent as its running descent. Otherwise the cursor is
      left alone. */
  function Lookahead(cfg: Config, measure: Measurer, c: Cursor, p: Styled): (r: Cursor)
    ensures r != c ==> c.left + measure(p.font, p.text).width > cfg.lineWidth
                       && measure(p.font, p.text).width <= cfg.lineWidth
    ensures r == c || r.left == cfg.originLeft
    ensures var m := measure(p.font, p.text);
            c.left + m.width > cfg.lineWidth && m.width <= cfg.lineWidth ==>
              && r.left == cfg.originLeft
              && r.top == c.top + Advance(cfg.rule, m)
              && r.descent == m.boxDescent
    ensures var m := measure(p.font, p.text);
            !(c.left + m.width > cfg.lineWidth && m.width <= cfg.lineWidth) ==> r == c
  {
    var m := measure(p.font, p.text);
    if c.left + m.width > cfg.lineWidth && m.width <= cfg.lineWidth then NewLine(cfg, c, m) else c
  }

  /** A letter either fits within the line width or sits at the origin's
      left, where every new line starts (a code point wider than the line
      still gets placed there). */
  predicate FitsOrStartsLine(cfg: Config, measure: Measurer, l: Letter)
  {
    l.left == cfg.originLeft || l.left + MetricsOf(measure, l).width <= cfg.lineWidth
  }

  /** A letter's bottom lies at least its own descent below its top, and
      its `em` is the advance its own measurement calls for. */
  predicate Grounded(cfg: Config, measure: Measurer, l: Letter)
  {
    && l.bottom >= l.top + MetricsOf(measure, l).boxDescent
    && l.em == Advance(cfg.rule, MetricsOf(measure, l))
  }

  /** The character loop of one phrase: a code point wraps when it would
      overflow the line (strictly), otherwise it raises the line's running
      descent; it is placed, and `left` advances by its width plus the
      letter spacing. One letter per code point, in order, in the
      phrase's style; `PlaceCharsSteps` states where each one lands. */
  function PlaceChars(cfg: Config, measure: Measurer, c: Cursor, font: string, fill: string, s: string)
    : (r: Placement)
    ensures |r.letters| == |s|
    ensures forall i :: 0 <= i < |s| ==>
              r.letters[i].ch == s[i] && r.letters[i].font == font && r.letters[i].fill == fill
    decreases |s|
  {
    if s == [] then Placement(c, [])
    else
      var l := Land(cfg, measure, c, font, fill, s[0]);
      var rest := PlaceChars(cfg, measure, After(cfg, measure, l), font, fill, s[1..]);
      Placement(rest.cursor, [l] + rest.letters)
  }

  /** Where one code point lands from cursor `c`: on a new line when it
      would overflow, otherwise at the cursor with the line's running
      descent raised to its own. */
  function Land(cfg: Config, measure: Measurer, c: Cursor, font: string, fill: string, ch: char): (l: Letter)
    ensures l.ch == ch && l.font == font && l.fill == fill
  {
    var m := measure(font, [ch]);
    var here := if c.left + m.width > cfg.lineWidth then NewLine(cfg, c, m)
                else c.(descent := Max(c.descent, m.boxDescent));
    Letter(ch, font, fill, Advance(cfg.rule, m), here.left, here.top, here.top + here.descent)
  }

  /** One phrase: the lookahead, then its characters. */
  function PlacePhrase(cfg: Config, measure: Measurer, c: Cursor, p: Styled): Placement
  {
    PlaceChars(cfg, measure, Lookahead(cfg, measure, c, p), p.font, p.fill, p.text)
  }

  /** A code point in its style, as the layout must reproduce it. */
  datatype Glyph = Glyph(ch: char, font: string, fill: string)

  function Glyphs(ls: seq<Letter>): (r: seq<Glyph>)
    ensures |r| == |ls|
  {
    seq(|ls|, i requires 0 <= i < |ls| => Glyph(ls[i].ch, ls[i].font, ls[i].fill))
  }

  /** The code points of the phrases, in order, each tagged with its
      phrase's font and fill. */
  function Tagged(ps: seq<Styled>): seq<Glyph>
  {
    if ps == [] then [] else TagOne(ps[0]) + Tagged(ps[1..])
  }

  /** The code points of one styled text, each tagged with its style. */
  function TagOne(p: Styled): seq<Glyph>
  {
    seq(|p.text|, i requires 0 <= i < |p.text| => Glyph(p.text[i], p.font, p.fill))
  }

  /** Letters whose glyphs are one styled text are that text's code
      points, in order, in that style. */
  lemma GlyphsOfOne(ls: seq<Letter>, p: Styled)
    requires Glyphs(ls) == TagOne(p)
    ensures |ls| == |p.text|
    ensures forall i :: 0 <= i < |ls| ==> ls[i].ch == p.text[i] && ls[i].font == p.font && ls[i].fill == p.fill
  {
    forall i | 0 <= i < |ls|
      ensures ls[i].ch == p.text[i] && ls[i].font == p.font && ls[i].fill == p.fill
    {
      assert Glyphs(ls)[i] == TagOne(p)[i];
    }
  }

  lemma {:induction false} TaggedAppend(a: seq<Styled>, b: seq<Styled>)
    ensures Tagged(a + b) == Tagged(a) + Tagged(b)
  {
    if a == [] {
      assert a + b == b;
    } else {
      assert (a + b)[1..] == a[1..] + b;
      TaggedAppend(a[1..], b);
    }
  }

  /** Styled texts that share one style tag the same glyphs as their
      concatenation in that style. */
  lemma {:induction false} TaggedUniform(ps: seq<Styled>, font: string, fill: string)
    requires forall k :: 0 <= k < |ps| ==> ps[k].font == font && ps[k].fill == fill
    ensures Tagged(ps) == TagOne(Styled(Concat(Texts(ps)), font, fill))
  {
    if ps != [] {
      TaggedUniform(ps[1..], font, fill);
      assert Texts(ps) == [ps[0].text] + Texts(ps[1..]);
    }
  }

  /** Flattening groups whose phrases carry their segment's style and
      spell their segment's text tags the same glyphs as the segments. */
  lemma {:induction false} GroupsTagged(g: seq<seq<Styled>>, segs: seq<Styled>)
    requires |g| == |segs|
    requires forall i :: 0 <= i < |segs| ==> Concat(Texts(g[i])) == segs[i].text
    requires forall i, k :: 0 <= i < |segs| && 0 <= k < |g[i]| ==>
               g[i][k].font == segs[i].font && g[i][k].fill == segs[i].fill
    ensures Tagged(Concat(g)) == Tagged(segs)
  {
    if g != [] {
      GroupsTagged(g[1..], segs[1..]);
      TaggedAppend(g[0], Concat(g[1..]));
      TaggedUniform(g[0], segs[0].font, segs[0].fill);
    }
  }

  /** Cutting a paragraph into phrases changes nothing about what is to
      be drawn: the same code points, in the same order, each in the font
      and fill of the segment it came from. */
  lemma SplitTagged(segs: seq<Styled>, isBreak: char -> bool)
    ensures Tagged(Split(segs, isBreak)) == Tagged(segs)
  {
    GroupsTagged(Groups(segs, isBreak, false), segs);
  }

  /** There is one glyph per code point of the texts. */
  lemma {:induction false} TaggedLength(ps: seq<Styled>)
    ensures |Tagged(ps)| == |Concat(Texts(ps))|
  {
    if ps != [] {
      TaggedLength(ps[1..]);
      assert Texts(ps) == [ps[0].text] + Texts(ps[1..]);
    }
  }

  /** The fold over the phrases. The letters, read in order, are exactly
      the code points of the phrases in order, each in its phrase's font
      and fill. */
  function PlacePhrases(cfg: Config, measure: Measurer, c: Cursor, ps: seq<Styled>): (r: Placement)
    ensures Glyphs(r.letters) == Tagged(ps)
    decreases |ps|
  {
    if ps == [] then Placement(c, [])
    else
      var head := PlacePhrase(cfg, measure, c, ps[0]);
      var rest := PlacePhrases(cfg, measure, head.cursor, ps[1..]);
      PhraseGlyphs(cfg, measure, c, ps[0]);
      GlyphsAppend(head.letters, rest.letters);
      Placement(rest.cursor, head.letters + rest.letters)
  }

  /** One phrase's letters are its code points in its style. */
  lemma PhraseGlyphs(cfg: Config, measure: Measurer, c: Cursor, p: Styled)
    ensures Glyphs(PlacePhrase(cfg, measure, c, p).letters) == TagOne(p)
  {
    var L := PlacePhrase(cfg, measure, c, p).letters;
    assert forall i :: 0 <= i < |L| ==> Glyphs(L)[i] == TagOne(p)[i];
  }

  lemma GlyphsAppend(a: seq<Letter>, b: seq<Letter>)
    ensures Glyphs(a + b) == Glyphs(a) + Glyphs(b)
  {
  }

  /** The letters of a paragraph laid out from the origin. */
  function Place(cfg: Config, measure: Measurer, ps: seq<Styled>): seq<Letter>
  {
    PlacePhrases(cfg, measure, Start(cfg), ps).letters
  }

  // ---------------------------------------------------------------------
  // How consecutive letters relate

  /** The cursor right after a letter: `left` past its width and the
      letter spacing, same `top`, and the line's descent so far. */
  function After(cfg: Config, measure: Measurer, l: Letter): Cursor
  {
    Cursor(l.left + MetricsOf(measure, l).width + cfg.letterSpacing, l.top, l.bottom - l.top)
  }

  /** Where a letter lands from cursor `c`: it wraps exactly when
      `left + width > lineWidth`; a wrap resets `left` to the origin,
      moves `top` down by the letter's line advance and restarts the
      running descent at its own; otherwise it stays at the cursor and the
      running descent becomes the larger of the two. */
  predicate Follows(cfg: Config, measure: Measurer, c: Cursor, b: Letter)
  {
    var m := MetricsOf(measure, b);
    && b.em == Advance(cfg.rule, m)
    && if c.left + m.width > cfg.lineWidth then
         b.left == cfg.originLeft && b.top == c.top + b.em && b.bottom == b.top + m.boxDescent
       else
         b.left == c.left && b.top == c.top && b.bottom == c.top + Max(c.descent, m.boxDescent)
  }

  /** Placing a non-empty string places its first code point from the
      cursor, then the rest from the cursor right after that letter. */
  lemma PlaceCharsUnfold(cfg: Config, measure: Measurer, c: Cursor, font: string, fill: string, s: string)
    requires s != []
    ensures var r := PlaceChars(cfg, measure, c, font, fill, s);
            var rest := PlaceChars(cfg, measure, After(cfg, measure, r.letters[0]), font, fill, s[1..]);
            && Follows(cfg, measure, c, r.letters[0])
            && r.letters == [r.letters[0]] + rest.letters
            && r.cursor == rest.cursor
  {
    var l := Land(cfg, measure, c, font, fill, s[0]);
    assert MetricsOf(measure, l) == measure(font, [s[0]]);
  }

  /** Within a phrase, the first letter lands from the cursor, each later
      letter lands from the cursor right after the one before it, and the
      final cursor is the one after the last letter. */
  lemma {:induction false} PlaceCharsSteps(cfg: Config, measure: Measurer, c: Cursor,
                                           font: string, fill: string, s: string)
    ensures var r := PlaceChars(cfg, measure, c, font, fill, s);
            && (|s| > 0 ==> Follows(cfg, measure, c, r.letters[0]))
            && (forall i :: 0 <= i < |s| - 1 ==>
                  Follows(cfg, measure, After(cfg, measure, r.letters[i]), r.letters[i + 1]))
            && (|s| > 0 ==> r.cursor == After(cfg, measure, Last(r.letters)))
            && (|s| == 0 ==> r.cursor == c)
    decreases |s|
  {
    if s != [] {
      var r := PlaceChars(cfg, measure, c, font, fill, s);
      PlaceCharsUnfold(cfg, measure, c, font, fill, s);
      var next := After(cfg, measure, r.letters[0]);
      var rest := PlaceChars(cfg, measure, next, font, fill, s[1..]);
      PlaceCharsSteps(cfg, measure, next, font, fill, s[1..]);
      StepsShift(cfg, measure, r.letters, rest.letters, next);
      if |s| > 1 {
        assert Last(r.letters) == Last(rest.letters);
      }
    }
  }

  /** Prepending a letter whose successor cursor starts the rest extends
      the chain of `Follows` steps. */
  lemma StepsShift(cfg: Config, measure: Measurer, L: seq<Letter>, R: seq<Letter>, next: Cursor)
    requires |L| > 0 && L == [L[0]] + R
    requires After(cfg, measure, L[0]) == next
    requires |R| > 0 ==> Follows(cfg, measure, next, R[0])
    requires forall i :: 0 <= i < |R| - 1 ==> Follows(cfg, measure, After(cfg, measure, R[i]), R[i + 1])
    ensures forall i :: 0 <= i < |L| - 1 ==> Follows(cfg, measure, After(cfg, measure, L[i]), L[i + 1])
  {
    forall i | 0 <= i < |L| - 1
      ensures Follows(cfg, measure, After(cfg, measure, L[i]), L[i + 1])
    {
      if i > 0 {
        assert L[i] == R[i - 1] && L[i + 1] == R[i];
      }
    }
  }

  /** A letter that lands from a cursor fits or sits at the origin's left, and is
      grounded. */
  lemma FollowsFits(cfg: Config, measure: Measurer, c: Cursor, b: Letter)
    requires Follows(cfg, measure, c, b)
    ensures FitsOrStartsLine(cfg, measure, b) && Grounded(cfg, measure, b)
  {
  }

  /** Every letter of one phrase fits or sits at the origin's left and is grounded. */
  lemma PhraseLettersFit(cfg: Config, measure: Measurer, c: Cursor, p: Styled)
    ensures forall l :: l in PlacePhrase(cfg, measure, c, p).letters ==>
              FitsOrStartsLine(cfg, measure, l) && Grounded(cfg, measure, l)
  {
    var c1 := Lookahead(cfg, measure, c, p);
    var H := PlacePhrase(cfg, measure, c, p).letters;
    PlaceCharsSteps(cfg, measure, c1, p.font, p.fill, p.text);
    forall i | 0 <= i < |H|
      ensures FitsOrStartsLine(cfg, measure, H[i]) && Grounded(cfg, measure, H[i])
    {
      if i == 0 {
        FollowsFits(cfg, measure, c1, H[0]);
      } else {
        var j := i - 1;
        assert Follows(cfg, measure, After(cfg, measure, H[j]), H[j + 1]);
        FollowsFits(cfg, measure, After(cfg, measure, H[j]), H[j + 1]);
      }
    }
  }

  /** Every letter of a paragraph either fits within the line width or
      is the first of its line, its bottom lies at least its own descent
      below its top, and its `em` is its own line advance. */
  lemma {:induction false} LettersFit(cfg: Config, measure: Measurer, c: Cursor, ps: seq<Styled>)
    ensures forall l :: l in PlacePhrases(cfg, measure, c, ps).letters ==>
              FitsOrStartsLine(cfg, measure, l) && Grounded(cfg, measure, l)
    decreases |ps|
  {
    if ps != [] {
      var head := PlacePhrase(cfg, measure, c, ps[0]);
      PhraseLettersFit(cfg, measure, c, ps[0]);
      LettersFit(cfg, measure, head.cursor, ps[1..]);
    }
  }

  /** Every line advance the measurer can produce is non-negative. */
  ghost predicate DownwardLines(cfg: Config, measure: Measurer)
  {
    forall font, text :: Advance(cfg.rule, measure(font, text)) >= 0.0
  }

  /** `c2` is `c1`, or a line start no higher than `c1`. */
  predicate Reaches(cfg: Config, c1: Cursor, c2: Cursor)
  {
    c2 == c1 || (c2.left == cfg.originLeft && c2.top >= c1.top)
  }

  /** A letter continues the line of cursor `c` (same top, at `c.left`,
      the running descent not shrinking), or starts a line no higher. */
  predicate Continues(cfg: Config, c: Cursor, b: Letter)
  {
    || (b.left == c.left && b.top == c.top && b.bottom - b.top >= c.descent)
    || (b.left == cfg.originLeft && b.top >= c.top)
  }

  lemma FollowsContinues(cfg: Config, measure: Measurer, c1: Cursor, c2: Cursor, b: Letter)
    requires DownwardLines(cfg, measure)
    requires Reaches(cfg, c1, c2) && Follows(cfg, measure, c2, b)
    ensures Continues(cfg, c1, b)
  {
    assert Advance(cfg.rule, MetricsOf(measure, b)) >= 0.0;
  }

  /** Letters `L` laid from cursor `c` up to cursor `final`: each letter
      continues from the cursor before it, and the cursor moves on from
      the last letter (or from `c`) only by starting lines. */
  ghost predicate Chain(cfg: Config, measure: Measurer, c: Cursor, L: seq<Letter>, final: Cursor)
  {
    && (|L| > 0 ==> Continues(cfg, c, L[0]))
    && (forall i :: 0 <= i < |L| - 1 ==> Continues(cfg, After(cfg, measure, L[i]), L[i + 1]))
    && (|L| > 0 ==> Reaches(cfg, After(cfg, measure, Last(L)), final))
    && (|L| == 0 ==> Reaches(cfg, c, final))
  }

  /** Two chains laid one after the other form one chain. */
  lemma ChainAppend(cfg: Config, measure: Measurer, c: Cursor, H: seq<Letter>, mid: Cursor,
                    R: seq<Letter>, final: Cursor)
    requires Chain(cfg, measure, c, H, mid) && Chain(cfg, measure, mid, R, final)
    ensures Chain(cfg, measure, c, H + R, final)
  {
    var L := H + R;
    if |H| == 0 {
      assert L == R;
      if |R| > 0 {
        ContinuesFrom(cfg, c, mid, R[0]);
      }
    } else {
      assert L[0] == H[0];
      forall i | 0 <= i < |L| - 1
        ensures Continues(cfg, After(cfg, measure, L[i]), L[i + 1])
      {
        if i < |H| - 1 {
          assert L[i] == H[i] && L[i + 1] == H[i + 1];
        } else if i == |H| - 1 {
          assert L[i] == Last(H) && L[i + 1] == R[0];
          ContinuesFrom(cfg, After(cfg, measure, Last(H)), mid, R[0]);
        } else {
          assert L[i] == R[i - |H|] && L[i + 1] == R[i - |H| + 1];
        }
      }
      if |R| > 0 {
        assert Last(L) == Last(R);
      } else {
        assert Last(L) == Last(H);
      }
    }
  }

  /** One phrase, with downward line advances, is a chain from the cursor
      it starts at to the cursor after its last letter. */
  lemma PhraseChain(cfg: Config, measure: Measurer, c: Cursor, p: Styled)
    requires DownwardLines(cfg, measure)
    ensures var r := PlacePhrase(cfg, measure, c, p);
            Chain(cfg, measure, c, r.letters, r.cursor)
  {
    var c1 := Lookahead(cfg, measure, c, p);
    assert Reaches(cfg, c, c1) by {
      assert Advance(cfg.rule, measure(p.font, p.text)) >= 0.0;
    }
    var H := PlacePhrase(cfg, measure, c, p).letters;
    PlaceCharsSteps(cfg, measure, c1, p.font, p.fill, p.text);
    if |H| > 0 {
      FollowsContinues(cfg, measure, c, c1, H[0]);
    }
    forall i | 0 <= i < |H| - 1
      ensures Continues(cfg, After(cfg, measure, H[i]), H[i + 1])
    {
      var a := After(cfg, measure, H[i]);
      FollowsContinues(cfg, measure, a, a, H[i + 1]);
    }
  }

  /** Across the whole paragraph, with downward line advances: each letter
      either continues the line of the letter before it (right after it,
      same top) or starts a new line no higher than it. */
  lemma {:induction false} PlacePhrasesSteps(cfg: Config, measure: Measurer, c: Cursor, ps: seq<Styled>)
    requires DownwardLines(cfg, measure)
    ensures var r := PlacePhrases(cfg, measure, c, ps);
            Chain(cfg, measure, c, r.letters, r.cursor)
    decreases |ps|
  {
    if ps != [] {
      var head := PlacePhrase(cfg, measure, c, ps[0]);
      var rest := PlacePhrases(cfg, measure, head.cursor, ps[1..]);
      PhraseChain(cfg, measure, c, ps[0]);
      PlacePhrasesSteps(cfg, measure, head.cursor, ps[1..]);
      ChainAppend(cfg, measure, c, head.letters, head.cursor, rest.letters, rest.cursor);
    }
  }

  lemma ContinuesFrom(cfg: Config, c1: Cursor, c2: Cursor, b: Letter)
    requires Reaches(cfg, c1, c2) && Continues(cfg, c2, b)
    ensures Continues(cfg, c1, b)
  {
  }

  /** With downward line advances, `top` never decreases along the
      letters of a paragraph. */
  lemma TopsNonDecreasing(cfg: Config, measure: Measurer, ps: seq<Styled>, i: nat, j: nat)
    requires DownwardLines(cfg, measure)
    requires i <= j < |Place(cfg, measure, ps)|
    ensures Place(cfg, measure, ps)[i].top <= Place(cfg, measure, ps)[j].top
    decreases j - i
  {
    var L := Place(cfg, measure, ps);
    PlacePhrasesSteps(cfg, measure, Start(cfg), ps);
    if i < j {
      assert Continues(cfg, After(cfg, measure, L[i]), L[i + 1]);
      TopsNonDecreasing(cfg, measure, ps, i + 1, j);
    }
  }

  // ---------------------------------------------------------------------
  // The lookahead keeps a phrase that fits on one line

  /** The sum of the code points' own widths. */
  function WidthSum(measure: Measurer, font: string, s: string): real
  {
    if s == [] then 0.0 else measure(font, [s[0]]).width + WidthSum(measure, font, s[1..])
  }

  /** Characters whose widths all fit from the cursor are never wrapped:
      they all sit on the cursor's line. */
  lemma {:induction false} NoWrap(cfg: Config, measure: Measurer, c: Cursor, font: string, fill: string, s: string)
    requires cfg.letterSpacing <= 0.0
    requires forall i :: 0 <= i < |s| ==> measure(font, [s[i]]).width >= 0.0
    requires c.left + WidthSum(measure, font, s) <= cfg.lineWidth
    ensures forall i :: 0 <= i < |s| ==> PlaceChars(cfg, measure, c, font, fill, s).letters[i].top == c.top
    decreases |s|
  {
    if s != [] {
      var m := measure(font, [s[0]]);
      assert WidthSum(measure, font, s[1..]) >= 0.0 by {
        NonNegativeSum(measure, font, s[1..]);
      }
      var here := c.(descent := Max(c.descent, m.boxDescent));
      var next := here.(left := here.left + m.width + cfg.letterSpacing);
      NoWrap(cfg, measure, next, font, fill, s[1..]);
      var r := PlaceChars(cfg, measure, c, font, fill, s);
      forall i | 0 <= i < |s| ensures r.letters[i].top == c.top {
        if i > 0 {
          assert r.letters[i] == PlaceChars(cfg, measure, next, font, fill, s[1..]).letters[i - 1];
        }
      }
    }
  }

  lemma {:induction false} NonNegativeSum(measure: Measurer, font: string, s: string)
    requires forall i :: 0 <= i < |s| ==> measure(font, [s[i]]).width >= 0.0
    ensures WidthSum(measure, font, s) >= 0.0
  {
    if s != [] {
      assert measure(font, [s[0]]).width >= 0.0;
      NonNegativeSum(measure, font, s[1..]);
    }
  }

  /** The point of the lookahead: when a phrase's measured width is the
      sum of its code points' widths, none of those is negative, the
      letter spacing is not positive and the origin is at or left of 0, a
      phrase that fits within the line width is never broken: all its
      letters share one `top`, on the current line or on a fresh one. */
  lemma PhraseKeptWhole(cfg: Config, measure: Measurer, c: Cursor, p: Styled)
    requires cfg.letterSpacing <= 0.0 && cfg.originLeft <= 0.0
    requires forall i :: 0 <= i < |p.text| ==> measure(p.font, [p.text[i]]).width >= 0.0
    requires measure(p.font, p.text).width == WidthSum(measure, p.font, p.text)
    requires measure(p.font, p.text).width <= cfg.lineWidth
    ensures var c1 := Lookahead(cfg, measure, c, p);
            && (c1 == c || c1.left == cfg.originLeft)
            && forall i :: 0 <= i < |p.text| ==> PlacePhrase(cfg, measure, c, p).letters[i].top == c1.top
  {
    var c1 := Lookahead(cfg, measure, c, p);
    NoWrap(cfg, measure, c1, p.font, p.fill, p.text);
  }
}
