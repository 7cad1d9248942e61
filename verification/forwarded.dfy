/** The multi-style text renderer of the forwarding page
    (`app/components/Forwarded/index.tsx`): a paragraph of styled
    segments is cut into phrases, laid out with a fixed leading, measured
    and replayed onto a canvas. */
module Forwarded {
  import opened Common
  import opened Phrases
  import opened Layout
  import opened Render

  /** The break test of the URL paragraph, `/[:/.?+ -]/u`. */
  predicate UrlBreak(c: char)
  {
    c in {':', '/', '.', '?', '+', ' ', '-'}
  }

  /** `StyledParagraph`: the optional fields are `None` when absent. */
  datatype Paragraph = Paragraph(text: seq<Styled>, wordBreaks: Option<char -> bool>, letterSpacing: Option<real>)

  /** `PlaceLetters`: the line width, the leading, the origin and the
      paragraph. */
  datatype Options = Options(width: real, leading: real, left: real, top: real, paragraph: Paragraph)

  function BreakTest(p: Paragraph): char -> bool
  {
    if p.wordBreaks.Some? then p.wordBreaks.value else SpaceBreak
  }

  function Spacing(p: Paragraph): real
  {
    if p.letterSpacing.Some? then p.letterSpacing.value else 0.0
  }

  /** The layout parameters: a new line moves down by `leading`. */
  function ConfigOf(o: Options): Config
  {
    Config(o.width, Spacing(o.paragraph), o.left, o.top, Leading(o.leading))
  }

  /** The phrases `placeLetters` collects before placing anything. */
  function PhrasesOf(o: Options): seq<Styled>
  {
    Split(o.paragraph.text, BreakTest(o.paragraph))
  }

  /** `[...place(ctx)]`: the letters, read in order, are the paragraph's
      code points in order, each in the font and fill of its segment;
      each one fits on its line or starts it, lies at least its own
      descent above its bottom, and a line advance is the leading. */
  function PlaceLetters(o: Options, measure: Measurer): (r: seq<Letter>)
    ensures Glyphs(r) == Tagged(o.paragraph.text)
    ensures forall l :: l in r ==>
              && FitsOrStartsLine(ConfigOf(o), measure, l)
              && l.bottom >= l.top + MetricsOf(measure, l).boxDescent
              && l.em == o.leading
  {
    var cfg := ConfigOf(o);
    SplitTagged(o.paragraph.text, BreakTest(o.paragraph));
    LettersFit(cfg, measure, Start(cfg), PhrasesOf(o));
    Place(cfg, measure, PhrasesOf(o))
  }

  /** What `measure()` returns. */
  datatype Measured = Measured(letters: seq<Letter>, height: real)

  /** The error `letters.slice(-1)[0].bottom` raises when nothing was
      placed. */
  const NoLetters: string := "Cannot read properties of undefined (reading 'bottom')"

  /** `measure()`: fails exactly when the paragraph has no code point at
      all; otherwise the height is the bottom of the last letter. */
  function MeasureText(o: Options, measure: Measurer): (r: Result<Measured>)
    ensures r.Err? <==> Concat(Texts(o.paragraph.text)) == []
    ensures r.Err? ==> r.message == NoLetters
    ensures r.Ok? ==> |r.value.letters| > 0 && Glyphs(r.value.letters) == Tagged(o.paragraph.text)
    ensures r.Ok? ==> r.value.height == Last(r.value.letters).bottom
    ensures r.Ok? ==> r.value.letters == PlaceLetters(o, measure)
  {
    var letters := PlaceLetters(o, measure);
    TaggedLength(o.paragraph.text);
    if |letters| == 0 then Err(NoLetters)
    else Ok(Measured(letters, Last(letters).bottom))
  }

  /** `draw(setup)`: measures, lets `setup` prepare the canvas for the
      measured height, then replays every letter in its own style at its
      `(left, top)` between `save` and `restore`. The canvas ends with its
      pen and saved stack as `setup` left them, and with exactly the
      paragraph's glyphs painted on top of what was there. */
  function Draw(o: Options, measure: Measurer, setup: real -> Canvas): (r: Result<Canvas>)
    ensures r.Err? <==> Concat(Texts(o.paragraph.text)) == []
    ensures r.Ok? ==>
              var m := MeasureText(o, measure).value;
              var cv := setup(m.height);
              && r.value.pen == cv.pen && r.value.saved == cv.saved
              && r.value.painted == cv.painted + StyledPaints(m.letters)
  {
    match MeasureText(o, measure)
    case Err(e) => Err(e)
    case Ok(m) =>
      var cv := setup(m.height);
      StyledReplayPaints(m.letters, cv);
      Ok(Run(Replay(StyledOps(m.letters)), cv))
  }

  /** The glyphs a successful draw paints are the paragraph's code points
      in order, each in its segment's font and fill, with the baseline
      `top`. */
  lemma DrawPaintsParagraph(o: Options, measure: Measurer, setup: real -> Canvas, i: nat)
    requires Draw(o, measure, setup).Ok?
    requires i < |Tagged(o.paragraph.text)|
    ensures var m := MeasureText(o, measure).value;
            var g := Tagged(o.paragraph.text)[i];
            var p := Draw(o, measure, setup).value.painted[|setup(m.height).painted| + i];
            && p.ch == g.ch && p.pen == Pen(g.font, g.fill, Top)
            && p.x == m.letters[i].left && p.y == m.letters[i].top
  {
    var m := MeasureText(o, measure).value;
    assert Glyphs(m.letters)[i] == Tagged(o.paragraph.text)[i];
  }

  // ---------------------------------------------------------------------
  // unwrap

  /** A JavaScript value that may be `null` or `undefined`. */
  datatype JsValue<T> = Null | Undefined | Value(value: T)

  /** `String(v)` for the two missing values. */
  function MissingName<T>(v: JsValue<T>): string
  {
    match v
    case Null => "null"
    case Undefined => "undefined"
    case Value(_) => "value"
  }

  /** `unwrap(data)`: only the first entry of the object is looked at. It
      yields that entry's value when there is one; a missing value raises
      an error naming the key, and an empty object raises the
      "unreachable" error. */
  function Unwrap<T>(data: seq<(string, JsValue<T>)>): (r: Result<T>)
    ensures data == [] ==> r == Err("unreachable: data is empty")
    ensures data != [] && data[0].1.Value? ==> r == Ok(data[0].1.value)
    ensures data != [] && !data[0].1.Value? ==> r.Err? && |data[0].0| <= |r.message| && r.message[..|data[0].0|] == data[0].0
    ensures r.Ok? <==> data != [] && data[0].1.Value?
  {
    if data == [] then Err("unreachable: data is empty")
    else
      var (k, v) := data[0];
      if v.Value? then Ok(v.value) else Err(k + " is " + MissingName(v))
  }

  /** Entries after the first never change the outcome. */
  lemma UnwrapFirst<T>(data: seq<(string, JsValue<T>)>, more: seq<(string, JsValue<T>)>)
    requires data != []
    ensures Unwrap(data + more) == Unwrap(data[..1])
  {
    assert (data + more)[0] == data[..1][0];
  }
}
