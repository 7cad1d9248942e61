/** Replaying placed letters onto a 2D canvas (`drawText(...).draw`). The
    canvas is reduced to what the replay touches: the current font, fill
    and text baseline, the stack that `save`/`restore` keep, and the list
    of glyphs painted so far. */
module Render {
  import opened Layout

  /** `CanvasTextBaseline`. */
  datatype Baseline = Top | Hanging | Middle | Alphabetic | Ideographic | Bottom

  /** The part of the drawing state the replay reads and writes. */
  datatype Pen = Pen(font: string, fill: string, baseline: Baseline)

  /** The canvas calls a replay makes. */
  datatype Op =
    | Save
    | Restore
    | SetBaseline(baseline: Baseline)
    | SetFont(font: string)
    | SetFill(fill: string)
    | FillText(ch: char, x: real, y: real)

  /** A glyph painted at `(x, y)` with the pen current at that moment. */
  datatype Paint = Paint(ch: char, pen: Pen, x: real, y: real)

  datatype Canvas = Canvas(pen: Pen, saved: seq<Pen>, painted: seq<Paint>)

  /** One canvas call. `restore` with nothing saved does nothing. */
  function Exec(op: Op, cv: Canvas): Canvas
  {
    match op
    case Save => cv.(saved := [cv.pen] + cv.saved)
    case Restore => if cv.saved == [] then cv else cv.(pen := cv.saved[0], saved := cv.saved[1..])
    case SetBaseline(b) => cv.(pen := cv.pen.(baseline := b))
    case SetFont(f) => cv.(pen := cv.pen.(font := f))
    case SetFill(f) => cv.(pen := cv.pen.(fill := f))
    case FillText(ch, x, y) => cv.(painted := cv.painted + [Paint(ch, cv.pen, x, y)])
  }

  function Run(ops: seq<Op>, cv: Canvas): Canvas
  {
    if ops == [] then cv else Run(ops[1..], Exec(ops[0], cv))
  }

  /** Running two call lists one after the other. */
  lemma {:induction false} RunAppend(a: seq<Op>, b: seq<Op>, cv: Canvas)
    ensures Run(a + b, cv) == Run(b, Run(a, cv))
  {
    if a == [] {
      assert a + b == b;
    } else {
      assert (a + b)[1..] == a[1..] + b;
      RunAppend(a[1..], b, Exec(a[0], cv));
    }
  }

  /** The loop body of the multi-style replay: per letter set the font,
      set the fill, paint the code point at `(left, top)`. */
  function StyledOps(letters: seq<Letter>): seq<Op>
  {
    if letters == [] then []
    else [SetFont(letters[0].font), SetFill(letters[0].fill), FillText(letters[0].ch, letters[0].left, letters[0].top)]
         + StyledOps(letters[1..])
  }

  /** The loop body of the single-style replay: paint each code point at
      `(left, top)` with whatever font and fill are current. */
  function PlainOps(letters: seq<Letter>): seq<Op>
  {
    if letters == [] then []
    else [FillText(letters[0].ch, letters[0].left, letters[0].top)] + PlainOps(letters[1..])
  }

  /** `save`, baseline `top`, the loop, `restore`. */
  function Replay(body: seq<Op>): seq<Op>
  {
    [Save, SetBaseline(Top)] + body + [Restore]
  }

  /** What the multi-style replay must paint: every letter, in order, at
      its `(left, top)`, in its own font and fill, with baseline `top`. */
  function StyledPaints(letters: seq<Letter>): seq<Paint>
  {
    seq(|letters|, i requires 0 <= i < |letters| =>
      Paint(letters[i].ch, Pen(letters[i].font, letters[i].fill, Top), letters[i].left, letters[i].top))
  }

  /** What the single-style replay must paint: every letter, in order, at
      its `(left, top)`, in the pen's font and fill, with baseline `top`. */
  function PlainPaints(letters: seq<Letter>, pen: Pen): seq<Paint>
  {
    seq(|letters|, i requires 0 <= i < |letters| =>
      Paint(letters[i].ch, pen.(baseline := Top), letters[i].left, letters[i].top))
  }

  /** Running a call list is running its first call, then the rest. */
  lemma RunCons(op: Op, rest: seq<Op>, cv: Canvas)
    ensures Run([op] + rest, cv) == Run(rest, Exec(op, cv))
  {
    assert ([op] + rest)[1..] == rest;
  }

  lemma {:induction false} StyledOpsRun(letters: seq<Letter>, cv: Canvas)
    requires cv.pen.baseline == Top
    ensures Run(StyledOps(letters), cv).saved == cv.saved
    ensures Run(StyledOps(letters), cv).pen.baseline == Top
    ensures Run(StyledOps(letters), cv).painted == cv.painted + StyledPaints(letters)
  {
    if letters != [] {
      var l := letters[0];
      var rest := StyledOps(letters[1..]);
      var cv1 := Exec(SetFont(l.font), cv);
      var cv2 := Exec(SetFill(l.fill), cv1);
      var cv3 := Exec(FillText(l.ch, l.left, l.top), cv2);
      assert StyledOps(letters) == [SetFont(l.font)] + ([SetFill(l.fill)] + ([FillText(l.ch, l.left, l.top)] + rest));
      RunCons(SetFont(l.font), [SetFill(l.fill)] + ([FillText(l.ch, l.left, l.top)] + rest), cv);
      RunCons(SetFill(l.fill), [FillText(l.ch, l.left, l.top)] + rest, cv1);
      RunCons(FillText(l.ch, l.left, l.top), rest, cv2);
      assert cv3.pen == Pen(l.font, l.fill, Top);
      assert cv3.painted == cv.painted + [Paint(l.ch, Pen(l.font, l.fill, Top), l.left, l.top)];
      StyledOpsRun(letters[1..], cv3);
      assert StyledPaints(letters) == [Paint(l.ch, Pen(l.font, l.fill, Top), l.left, l.top)]
                                      + StyledPaints(letters[1..]);
    }
  }

  lemma {:induction false} PlainOpsRun(letters: seq<Letter>, cv: Canvas)
    requires cv.pen.baseline == Top
    ensures Run(PlainOps(letters), cv) == cv.(painted := cv.painted + PlainPaints(letters, cv.pen))
  {
    if letters != [] {
      var l := letters[0];
      var cv' := Exec(FillText(l.ch, l.left, l.top), cv);
      RunCons(FillText(l.ch, l.left, l.top), PlainOps(letters[1..]), cv);
      PlainOpsRun(letters[1..], cv');
      assert cv'.pen == cv.pen;
      assert PlainPaints(letters, cv.pen) == [Paint(l.ch, cv.pen.(baseline := Top), l.left, l.top)]
                                             + PlainPaints(letters[1..], cv.pen);
    }
  }

  /** Running the replay's frame around a body: the body runs with the
      baseline `top` and one more saved pen, and afterwards the pen and
      the saved stack are back to what they were. */
  lemma ReplayFrame(body: seq<Op>, cv: Canvas)
    ensures var inner := Exec(SetBaseline(Top), Exec(Save, cv));
            Run(Replay(body), cv) == Exec(Restore, Run(body, inner))
  {
    var inner := Exec(SetBaseline(Top), Exec(Save, cv));
    assert Replay(body) == [Save] + ([SetBaseline(Top)] + (body + [Restore]));
    RunCons(Save, [SetBaseline(Top)] + (body + [Restore]), cv);
    RunCons(SetBaseline(Top), body + [Restore], Exec(Save, cv));
    RunAppend(body, [Restore], inner);
    RunCons(Restore, [], Run(body, inner));
  }

  /** Replaying letters with per-letter styles paints every letter, in
      order, at its `(left, top)` with its own font and fill and the
      baseline `top`, and leaves the canvas's pen and saved stack as they
      were. */
  lemma StyledReplayPaints(letters: seq<Letter>, cv: Canvas)
    ensures Run(Replay(StyledOps(letters)), cv) == cv.(painted := cv.painted + StyledPaints(letters))
  {
    var inner := Exec(SetBaseline(Top), Exec(Save, cv));
    ReplayFrame(StyledOps(letters), cv);
    StyledOpsRun(letters, inner);
    assert inner.saved == [cv.pen] + cv.saved;
  }

  /** Replaying letters with the context's style paints every letter, in
      order, at its `(left, top)` with the pen's font and fill and the
      baseline `top`, and leaves the canvas's pen and saved stack as they
      were. */
  lemma PlainReplayPaints(letters: seq<Letter>, cv: Canvas)
    ensures Run(Replay(PlainOps(letters)), cv) == cv.(painted := cv.painted + PlainPaints(letters, cv.pen))
  {
    var inner := Exec(SetBaseline(Top), Exec(Save, cv));
    ReplayFrame(PlainOps(letters), cv);
    PlainOpsRun(letters, inner);
    assert inner.pen == cv.pen.(baseline := Top);
    assert inner.saved == [cv.pen] + cv.saved;
    assert PlainPaints(letters, inner.pen) == PlainPaints(letters, cv.pen);
  }
}
