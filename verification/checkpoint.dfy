/** The single-style text renderer of the checkpoint page
    (`app/components/Checkpoint.tsx`): one string, cut into phrases, laid
    out against the canvas's box width with a line advance taken from the
    measured em box, and replayed in the context's current style. */
module Checkpoint {
  import opened Common
  import opened Phrases
  import opened Layout
  import opened Render

  /** The break test `useTextbox` passes, `/[:/.?]/u`. */
  predicate UrlBreak(c: char)
  {
    c in {':', '/', '.', '?'}
  }

  /** `PlaceLetters`: the text, the origin, and the optional break test,
      line height and letter spacing (`None` when absent). */
  datatype Options = Options(text: string, left: real, top: real, wordBreaks: Option<char -> bool>,
                             lineHeight: Option<real>, letterSpacing: Option<real>)

  /** What the layout reads from the context when it runs: the current
      font and fill, and the width of the canvas's bounding box at that
      moment. */
  datatype Context = Context(font: string, fill: string, boxWidth: real)

  function BreakTest(o: Options): char -> bool
  {
    if o.wordBreaks.Some? then o.wordBreaks.value else SpaceBreak
  }

  function LineHeight(o: Options): real
  {
    if o.lineHeight.Some? then o.lineHeight.value else 1.0
  }

  function Spacing(o: Options): real
  {
    if o.letterSpacing.Some? then o.letterSpacing.value else 0.0
  }

  /** The phrase split of one string. There is always at least one phrase
      (the final push), the phrases concatenate back to the text, the
      first one is empty only for empty text, every phrase has only
      trailing break characters, and consecutive phrases meet exactly
      where a break run ends. */
  function SplitText(text: string, isBreak: char -> bool): (r: seq<string>)
    ensures |r| >= 1 && Concat(r) == text
    ensures r[0] == [] <==> text == []
    ensures forall k :: 0 <= k < |r| ==> TrailingBreaks(r[k], isBreak)
    ensures Boundaries(r, isBreak)
  {
    var sc := ScanText(text, isBreak, false, []);
    ConcatSnoc(sc.done, sc.open);
    ScanShape(text, isBreak, false, []);
    Pieces(sc)
  }

  /** The single-string splitter is the paragraph splitter applied to one
      segment in the context's style. */
  lemma OneSegment(text: string, font: string, fill: string, isBreak: char -> bool)
    ensures Split([Styled(text, font, fill)], isBreak) == Stylise(SplitText(text, isBreak), font, fill)
  {
    var segs := [Styled(text, font, fill)];
    var g := Groups(segs, isBreak, false);
    assert segs[1..] == [];
    assert g == [Stylise(SplitText(text, isBreak), font, fill)];
    assert Concat(g) == g[0] + Concat(g[1..]);
  }

  /** The layout parameters: the line width is the box width, and a new
      line moves down by the em height times the line height. */
  function ConfigOf(o: Options, ctx: Context): Config
  {
    Config(ctx.boxWidth, Spacing(o), o.left, o.top, EmHeight(LineHeight(o)))
  }

  function PhrasesOf(o: Options, ctx: Context): seq<Styled>
  {
    Stylise(SplitText(o.text, BreakTest(o)), ctx.font, ctx.fill)
  }

  /** The generator's output: one letter per code point of the text, in
      order, in the context's style. `LettersFitBox` states where they
      land. */
  function PlaceLetters(o: Options, ctx: Context, measure: Measurer): (r: seq<Letter>)
    ensures |r| == |o.text|
    ensures forall i :: 0 <= i < |r| ==> r[i].ch == o.text[i] && r[i].font == ctx.font && r[i].fill == ctx.fill
  {
    var ps := PhrasesOf(o, ctx);
    var r := Place(ConfigOf(o, ctx), measure, ps);
    TaggedUniform(ps, ctx.font, ctx.fill);
    assert Concat(Texts(ps)) == o.text;
    GlyphsOfOne(r, Styled(o.text, ctx.font, ctx.fill));
    r
  }

  /** A letter fits within the box width or sits at the origin's left,
      its bottom lies at least its own descent below its top, and its `em` is
      `(emHeightDescent - emHeightAscent) * lineHeight` of its own
      measurement. */
  predicate InBox(o: Options, ctx: Context, measure: Measurer, l: Letter)
  {
    var m := MetricsOf(measure, l);
    && (l.left == o.left || l.left + m.width <= ctx.boxWidth)
    && l.bottom >= l.top + m.boxDescent
    && l.em == (m.emDescent - m.emAscent) * LineHeight(o)
  }

  /** Every placed letter is in the box in the sense of `InBox`. */
  lemma LettersFitBox(o: Options, ctx: Context, measure: Measurer)
    ensures forall l :: l in PlaceLetters(o, ctx, measure) ==> InBox(o, ctx, measure, l)
  {
    var cfg := ConfigOf(o, ctx);
    LettersFit(cfg, measure, Start(cfg), PhrasesOf(o, ctx));
    forall l | l in PlaceLetters(o, ctx, measure) ensures InBox(o, ctx, measure, l) {
      LetterInBox(o, ctx, measure, l);
    }
  }

  /** The layout's per-letter guarantees, read in the checkpoint's terms. */
  lemma LetterInBox(o: Options, ctx: Context, measure: Measurer, l: Letter)
    requires FitsOrStartsLine(ConfigOf(o, ctx), measure, l) && Grounded(ConfigOf(o, ctx), measure, l)
    ensures InBox(o, ctx, measure, l)
  {
  }

  /** The error `letters.slice(-1)[0].bottom` raises when nothing was
      placed. */
  const NoLetters: string := "Cannot read properties of undefined (reading 'bottom')"

  /** `height()`: the bottom of the last letter; it fails exactly for
      empty text. */
  function Height(o: Options, ctx: Context, measure: Measurer): (r: Result<real>)
    ensures r.Err? <==> o.text == []
    ensures r.Err? ==> r.message == NoLetters
    ensures r.Ok? ==> r.value == Last(PlaceLetters(o, ctx, measure)).bottom
  {
    var letters := PlaceLetters(o, ctx, measure);
    if |letters| == 0 then Err(NoLetters) else Ok(Last(letters).bottom)
  }

  /** `draw()`: the letters placed earlier are painted, in order, each at
      its `(left, top)` in whatever font and fill the canvas has now, with
      the baseline `top`; the canvas's pen and saved stack end as they
      were. */
  function Draw(letters: seq<Letter>, cv: Canvas): (r: Canvas)
    ensures r.pen == cv.pen && r.saved == cv.saved
    ensures r.painted == cv.painted + PlainPaints(letters, cv.pen)
  {
    PlainReplayPaints(letters, cv);
    Run(Replay(PlainOps(letters)), cv)
  }

  /** The options `useTextbox` passes for a text: origin `(0, 0)`, the
      URL break test and a line height of 1.2. */
  function TextboxOptions(text: string): Options
  {
    Options(text, 0.0, 0.0, Some(UrlBreak), Some(1.2), None)
  }

  /** The style `useTextbox` sets on the context. */
  const TextboxFont: string := "24px monospace"
  const TextboxFill: string := "rebeccapurple"

  /** The checkpoint's text box paints exactly the text's code points, in
      order, at their placed positions, in `24px monospace` and
      `rebeccapurple` with the baseline `top`. */
  lemma TextboxPaintsText(text: string, boxWidth: real, measure: Measurer, cv: Canvas, i: nat)
    requires cv.pen.font == TextboxFont && cv.pen.fill == TextboxFill
    requires i < |text|
    ensures var ctx := Context(TextboxFont, TextboxFill, boxWidth);
            var letters := PlaceLetters(TextboxOptions(text), ctx, measure);
            var p := Draw(letters, cv).painted[|cv.painted| + i];
            && p.ch == text[i] && p.pen == Pen(TextboxFont, TextboxFill, Top)
            && p.x == letters[i].left && p.y == letters[i].top
  {
  }
}
