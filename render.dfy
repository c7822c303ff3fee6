/**
 * The terminal-to-cells renderer of helix_hl_diff/render.py.
 *
 * `render` reads captured terminal output, strips the set-mode and reset-mode
 * sequences, lets a tokeniser turn the rest into instructions, and then walks
 * those instructions with a small state machine (foreground, background, font
 * style, row, column), painting one cell per character onto a canvas that
 * starts out magenta. The model keeps that loop and the canvas, at the level
 * of cells: a cell is either still the sentinel or holds the character, its
 * colours and the font style it was drawn with.
 */
module Render {
  import opened Wrappers
  import opened Raster

  const ROWS: nat := 20
  const COLS: nat := 80
  const FONT_SIZE: nat := 12
  /** A cell is int(FONT_SIZE * 0.7) = 8 pixels wide. */
  const CHR_WIDTH: nat := FONT_SIZE * 7 / 10
  /** A cell is int(FONT_SIZE * 1.3) = 15 pixels high. */
  const CHR_HEIGHT: nat := FONT_SIZE * 13 / 10

  const ESC: char := '\U{1B}'

  // ---------------------------------------------------------------------
  // The pre-pass: every ESC [ ? <digits> h and ESC [ ? <digits> l goes.
  // ---------------------------------------------------------------------

  predicate IsDigit(c: char) {
    '0' <= c <= '9'
  }

  /** `m` is exactly one set-mode or reset-mode sequence. */
  predicate IsModeSeq(m: string) {
    && |m| >= 5
    && m[0] == ESC && m[1] == '[' && m[2] == '?'
    && (m[|m| - 1] == 'h' || m[|m| - 1] == 'l')
    && forall i :: 3 <= i < |m| - 1 ==> IsDigit(m[i])
  }

  /**
   * What the pattern matches and what it does not: the digits are required,
   * the '?' is required, and only 'h' or 'l' ends the sequence.
   */
  lemma IsModeSeqShapes()
    ensures IsModeSeq(HIDE_CURSOR) && IsModeSeq([ESC, '[', '?', '1', '0', '4', '9', 'h'])
    ensures !IsModeSeq(SGR_RESET) && !IsModeSeq([ESC, '[', '2', '5', 'l'])
    ensures !IsModeSeq([ESC, '[', '?', 'h']) && !IsModeSeq([ESC, '[', '?', '2', '5', 'm'])
  {
  }

  /** The length of the longest run of digits that `s` starts with. */
  function DigitRun(s: string): (n: nat)
    ensures n <= |s|
    ensures forall i :: 0 <= i < n ==> IsDigit(s[i])
    ensures n < |s| ==> !IsDigit(s[n])
  {
    if s != [] && IsDigit(s[0]) then 1 + DigitRun(s[1..]) else 0
  }

  /** The length of the mode sequence `s` starts with, or 0 when it starts with none. */
  function ModeSeqLen(s: string): (n: nat)
    ensures n == 0 || (n <= |s| && IsModeSeq(s[..n]))
  {
    if |s| >= 3 && s[0] == ESC && s[1] == '[' && s[2] == '?' then
      var d := DigitRun(s[3..]);
      if d > 0 && 3 + d < |s| && (s[3 + d] == 'h' || s[3 + d] == 'l') then 4 + d else 0
    else
      0
  }

  /** Whenever some prefix of `s` is a mode sequence, ModeSeqLen finds exactly that one. */
  lemma ModeSeqLenExact(s: string, k: nat)
    requires k <= |s| && IsModeSeq(s[..k])
    ensures ModeSeqLen(s) == k
  {
    var m := s[..k];
    assert forall i :: 0 <= i < k - 4 ==> s[3..][i] == m[3 + i];
    assert s[3..][k - 4] == m[k - 1];
  }

  /**
   * The pre-pass: one left-to-right scan that drops each mode sequence it
   * meets and copies every other character, as a single regular-expression
   * substitution does.
   */
  function Strip(s: string): (r: string)
    ensures |r| <= |s|
    decreases |s|
  {
    if s == [] then []
    else
      var n := ModeSeqLen(s);
      if n > 0 then Strip(s[n..]) else [s[0]] + Strip(s[1..])
  }

  /** A mode sequence at the front is removed and nothing else is touched. */
  lemma StripDropsModeSeq(m: string, rest: string)
    requires IsModeSeq(m)
    ensures Strip(m + rest) == Strip(rest)
  {
    assert (m + rest)[..|m|] == m;
    ModeSeqLenExact(m + rest, |m|);
    assert (m + rest)[|m|..] == rest;
  }

  /** A character at which no mode sequence starts is copied. */
  lemma StripStep(u: string)
    requires u != [] && ModeSeqLen(u) == 0
    ensures Strip(u) == [u[0]] + Strip(u[1..])
  {
  }

  /** One copied character in front of a copied stretch is a longer copied stretch. */
  lemma StripCopiesOneMore(s: string, k: nat, m: nat)
    requires k < m <= |s| && ModeSeqLen(s[k..]) == 0
    requires Strip(s[k + 1..]) == s[k + 1..m] + Strip(s[m..])
    ensures Strip(s[k..]) == s[k..m] + Strip(s[m..])
  {
    StripStep(s[k..]);
    SliceFront(s, k, m);
    ConcatAssoc([s[k]], s[k + 1..m], Strip(s[m..]));
  }

  lemma SliceFront(s: string, k: nat, m: nat)
    requires k < m <= |s|
    ensures s[k..][0] == s[k] && s[k..][1..] == s[k + 1..] && s[k..m] == [s[k]] + s[k + 1..m]
  {
  }

  lemma ConcatAssoc(a: string, b: string, c: string)
    ensures a + (b + c) == (a + b) + c
  {
  }

  /** Characters k to m of `s`, at none of which a mode sequence starts, are copied unchanged. */
  lemma {:induction false} StripCopiesFrom(s: string, k: nat, m: nat)
    requires k <= m <= |s|
    requires forall i {:trigger ModeSeqLen(s[i..])} :: k <= i < m ==> ModeSeqLen(s[i..]) == 0
    ensures Strip(s[k..]) == s[k..m] + Strip(s[m..])
    decreases m - k
  {
    if k < m {
      StripCopiesFrom(s, k + 1, m);
      StripCopiesOneMore(s, k, m);
    } else {
      assert s[k..m] == [];
    }
  }

  /**
   * Text at no position of which a mode sequence starts is copied
   * unchanged, in front of whatever the rest becomes: the substitution only
   * touches what the pattern matches.
   */
  lemma StripKeepsUnmatched(t: string, rest: string)
    requires forall i :: 0 <= i < |t| ==> ModeSeqLen((t + rest)[i..]) == 0
    ensures Strip(t + rest) == t + Strip(rest)
  {
    var s := t + rest;
    StripCopiesFrom(s, 0, |t|);
    assert s[0..] == s && s[0..|t|] == t && s[|t|..] == rest;
  }

  /** Text without an escape character passes through unchanged. */
  lemma StripKeepsPlainText(t: string, rest: string)
    requires ESC !in t
    ensures Strip(t + rest) == t + Strip(rest)
  {
    forall i | 0 <= i < |t| ensures ModeSeqLen((t + rest)[i..]) == 0 {
      assert (t + rest)[i..][0] == t[i];
    }
    StripKeepsUnmatched(t, rest);
  }

  /**
   * Every other escape sequence survives: text in which each ESC is
   * followed, two characters on, by something other than '?' (every
   * `ESC [ <parameters> m` colour or attribute sequence, for one) is copied
   * unchanged.
   */
  lemma StripKeepsOtherEscapes(t: string, rest: string)
    requires forall i :: 0 <= i < |t| && t[i] == ESC ==> i + 2 < |t| && t[i + 2] != '?'
    ensures Strip(t + rest) == t + Strip(rest)
  {
    forall i | 0 <= i < |t| ensures ModeSeqLen((t + rest)[i..]) == 0 {
      var u := (t + rest)[i..];
      assert u[0] == t[i];
      if t[i] == ESC {
        assert u[2] == t[i + 2];
      }
    }
    StripKeepsUnmatched(t, rest);
  }

  /** `ESC [ 0 m`, the reset of all colours and attributes. */
  const SGR_RESET: string := [ESC, '[', '0', 'm']
  /** `ESC [ ? 25 l`, which hides the cursor. */
  const HIDE_CURSOR: string := [ESC, '[', '?', '2', '5', 'l']

  /** After a reset, a following mode sequence is still removed and the reset kept. */
  lemma StripResetThenHideCursor(rest: string)
    ensures Strip(SGR_RESET + HIDE_CURSOR + rest) == SGR_RESET + Strip(rest)
  {
    ResetAndHideCursorShapes();
    StripKeepsOtherEscapes(SGR_RESET, HIDE_CURSOR + rest);
    StripDropsModeSeq(HIDE_CURSOR, rest);
    ConcatAssoc(SGR_RESET, HIDE_CURSOR, rest);
  }

  lemma ResetAndHideCursorShapes()
    ensures forall i :: 0 <= i < |SGR_RESET| && SGR_RESET[i] == ESC ==> i + 2 < |SGR_RESET| && SGR_RESET[i + 2] != '?'
    ensures IsModeSeq(HIDE_CURSOR)
  {
  }

  /**
   * The substitution is a single pass: removing an inner mode sequence can
   * join the characters around it into a new one, which then stays.
   */
  lemma StripIsSinglePass()
    ensures var inner := [ESC, '[', '?', '1', 'h'];
            Strip([ESC, '['] + inner + ['?', '1', 'h']) == inner && IsModeSeq(inner)
  {
    var inner, tail := [ESC, '[', '?', '1', 'h'], ['?', '1', 'h'];
    SinglePassShapes();
    StripKeepsUnmatched([ESC, '['], inner + tail);
    ConcatAssoc([ESC, '['], inner, tail);
    StripDropsModeSeq(inner, tail);
    StripKeepsPlainText(tail, []);
    assert tail + [] == tail;
  }

  lemma SinglePassShapes()
    ensures var u := [ESC, '['] + ([ESC, '[', '?', '1', 'h'] + ['?', '1', 'h']);
      forall i :: 0 <= i < 2 ==> ModeSeqLen(u[i..]) == 0
    ensures IsModeSeq([ESC, '[', '?', '1', 'h']) && ESC !in ['?', '1', 'h']
  {
    var u := [ESC, '['] + ([ESC, '[', '?', '1', 'h'] + ['?', '1', 'h']);
    assert u[0..][2] == ESC && u[1..][0] == '[';
  }

  // ---------------------------------------------------------------------
  // Instructions and the renderer's state
  // ---------------------------------------------------------------------

  /** The font face a glyph is drawn with. */
  datatype FontStyle = Regular | Italic

  /** The text attributes the tokeniser reports; only the italic pair matters. */
  datatype Attribute = AttrItalic | AttrNotItalic | AttrOther

  /**
   * One instruction of the tokenised stream. A colour of None is the
   * instruction without a colour payload; Unsupported stands for every other
   * kind of instruction the tokeniser yields.
   */
  datatype Instr =
    | SetFg(color: Option<RGB>)
    | SetBg(color: Option<RGB>)
    | SetAttr(attr: Attribute)
    | Text(text: string)
    | Unsupported

  datatype State = State(row: nat, col: nat, fg: RGB, bg: RGB, style: FontStyle)

  /** White on black, regular face, at the top-left cell. */
  const Initial: State := State(0, 0, WHITE, BLACK, Regular)

  /** The effect of one instruction on the state. */
  function Step(s: State, ins: Instr): (r: State)
    ensures s.col < COLS ==> r.col < COLS
    ensures r.row == s.row || (ins.Text? && r.row == s.row + 1)
    ensures !ins.Text? ==> r.row == s.row && r.col == s.col
    ensures ins.Text? ==> r.fg == s.fg && r.bg == s.bg && r.style == s.style
  {
    match ins
    case SetFg(c) => s.(fg := c.GetOr(WHITE))
    case SetBg(c) => s.(bg := c.GetOr(BLACK))
    case SetAttr(a) =>
      (match a
       case AttrItalic => s.(style := Italic)
       case AttrNotItalic => s.(style := Regular)
       case AttrOther => s)
    case Text(t) =>
      var col := s.col + |t|;
      if col >= COLS then s.(row := s.row + 1, col := 0) else s.(col := col)
    case Unsupported => s
  }

  /** The state after each instruction of `instrs` in turn. */
  function Run(s: State, instrs: seq<Instr>): (r: State)
    ensures s.col < COLS ==> r.col < COLS
    ensures s.row <= r.row
    decreases |instrs|
  {
    if instrs == [] then s
    else Step(Run(s, instrs[..|instrs| - 1]), instrs[|instrs| - 1])
  }

  /** The number of text runs in `instrs`. */
  function TextCount(instrs: seq<Instr>): nat {
    if instrs == [] then 0
    else TextCount(instrs[..|instrs| - 1]) + (if instrs[|instrs| - 1].Text? then 1 else 0)
  }

  // ---------------------------------------------------------------------
  // Paint operations and cells
  // ---------------------------------------------------------------------

  /** A request to fill cell (row, col) with `bg` and draw `ch` in `fg` with the face `style`. */
  datatype PaintOp = PaintOp(row: nat, col: nat, ch: char, fg: RGB, bg: RGB, style: FontStyle)

  /**
   * A cell of the canvas: still the Sentinel, which stands for the
   * (255, 0, 255) magenta fill `Image.new` starts with, or painted.
   */
  datatype Cell = Sentinel | Painted(ch: char, fg: RGB, bg: RGB, style: FontStyle)

  function CellOf(op: PaintOp): Cell {
    Painted(op.ch, op.fg, op.bg, op.style)
  }

  predicate Hits(op: PaintOp, row: nat, col: nat) {
    op.row == row && op.col == col
  }

  /**
   * The paint operations of one instruction: a text run paints character i
   * at (row, col + i), every position taken before the run wraps.
   */
  function Paints(s: State, ins: Instr): (ops: seq<PaintOp>)
    ensures !ins.Text? ==> ops == []
    ensures ins.Text? ==> (
      && |ops| == |ins.text|
      && forall i :: 0 <= i < |ops| ==>
           ops[i].row == s.row && ops[i].col == s.col + i &&
           CellOf(ops[i]) == Painted(ins.text[i], s.fg, s.bg, s.style))
  {
    match ins
    case Text(t) =>
      seq(|t|, i requires 0 <= i < |t| => PaintOp(s.row, s.col + i, t[i], s.fg, s.bg, s.style))
    case _ => []
  }

  /** One more instruction: one more Step and its paint operations after the others. */
  lemma RunSnoc(s: State, instrs: seq<Instr>, k: nat)
    requires k < |instrs|
    ensures Run(s, instrs[..k + 1]) == Step(Run(s, instrs[..k]), instrs[k])
    ensures AllPaints(s, instrs[..k + 1]) == AllPaints(s, instrs[..k]) + Paints(Run(s, instrs[..k]), instrs[k])
  {
    assert instrs[..k + 1][..k] == instrs[..k];
  }

  /** No two characters of one run are aimed at the same cell. */
  lemma PaintsHitDistinctCells(s: State, ins: Instr)
    ensures var ops := Paints(s, ins);
      forall i, j :: 0 <= i < j < |ops| ==> !Hits(ops[j], ops[i].row, ops[i].col)
  {
  }

  /** All paint operations of `instrs`, in order. */
  function AllPaints(s: State, instrs: seq<Instr>): (ops: seq<PaintOp>)
    ensures forall i :: 0 <= i < |ops| ==> s.row <= ops[i].row <= Run(s, instrs).row
    decreases |instrs|
  {
    if instrs == [] then []
    else
      var k := |instrs| - 1;
      AllPaints(s, instrs[..k]) + Paints(Run(s, instrs[..k]), instrs[k])
  }

  /** What cell (row, col) shows after `ops`: the last operation on it wins. */
  function CellAt(ops: seq<PaintOp>, row: nat, col: nat): (c: Cell)
    ensures c == Sentinel <==> forall i :: 0 <= i < |ops| ==> !Hits(ops[i], row, col)
    decreases |ops|
  {
    if ops == [] then Sentinel
    else if Hits(ops[|ops| - 1], row, col) then CellOf(ops[|ops| - 1])
    else CellAt(ops[..|ops| - 1], row, col)
  }

  /** One more operation changes its own cell and no other. */
  lemma CellAtSnoc(ops: seq<PaintOp>, op: PaintOp, row: nat, col: nat)
    ensures CellAt(ops + [op], row, col) == if Hits(op, row, col) then CellOf(op) else CellAt(ops, row, col)
  {
    assert (ops + [op])[..|ops|] == ops;
  }

  /** The last operation on a cell decides it, whatever came before. */
  lemma {:induction false} CellAtLastHit(ops: seq<PaintOp>, row: nat, col: nat, i: nat)
    requires i < |ops| && Hits(ops[i], row, col)
    requires forall j :: i < j < |ops| ==> !Hits(ops[j], row, col)
    ensures CellAt(ops, row, col) == CellOf(ops[i])
    decreases |ops|
  {
    if i < |ops| - 1 {
      CellAtLastHit(ops[..|ops| - 1], row, col, i);
    }
  }

  /** The pixel rectangle (x0, y0, x1, y1) render.py fills for the cell at (row, col). */
  function CellBox(row: nat, col: nat): (b: (nat, nat, nat, nat))
    ensures b.0 / CHR_WIDTH == col && b.1 / CHR_HEIGHT == row
    ensures b.2 - b.0 == CHR_WIDTH && b.3 - b.1 == CHR_HEIGHT
  {
    assert CHR_WIDTH == 8 && CHR_HEIGHT == 15;
    (col * CHR_WIDTH, row * CHR_HEIGHT, col * CHR_WIDTH + CHR_WIDTH, row * CHR_HEIGHT + CHR_HEIGHT)
  }

  /**
   * A cell outside the ROWS x COLS grid has its rectangle wholly right of or
   * below the canvas, so skipping it loses nothing; a cell inside starts on it.
   */
  lemma CellBoxOnCanvas(row: nat, col: nat)
    ensures var b := CellBox(row, col);
            (row < ROWS && col < COLS) <==> (b.0 < COLS * CHR_WIDTH && b.1 < ROWS * CHR_HEIGHT)
  {
    assert CHR_WIDTH == 8 && CHR_HEIGHT == 15;
  }

  // ---------------------------------------------------------------------
  // The canvas and the render loop
  // ---------------------------------------------------------------------

  /** The render target: ROWS x COLS cells of CHR_WIDTH x CHR_HEIGHT pixels. */
  class Canvas {
    const cells: array2<Cell>

    predicate Valid() {
      cells.Length0 == ROWS && cells.Length1 == COLS
    }

    function PixelWidth(): nat {
      cells.Length1 * CHR_WIDTH
    }

    function PixelHeight(): nat {
      cells.Length0 * CHR_HEIGHT
    }

    /** A fresh canvas, every cell the magenta sentinel. */
    constructor ()
      ensures Valid() && fresh(cells)
      ensures PixelWidth() == COLS * CHR_WIDTH && PixelHeight() == ROWS * CHR_HEIGHT
      ensures forall r, c :: 0 <= r < ROWS && 0 <= c < COLS ==> cells[r, c] == Sentinel
    {
      cells := new Cell[ROWS, COLS]((r, c) => Sentinel);
    }

    /** Fill one cell's rectangle and draw its glyph; a cell off the canvas is skipped. */
    method Paint(op: PaintOp)
      requires Valid()
      modifies cells
      ensures forall r, c :: 0 <= r < ROWS && 0 <= c < COLS ==>
        cells[r, c] == if Hits(op, r, c) then CellOf(op) else old(cells[r, c])
    {
      if op.row < ROWS && op.col < COLS {
        cells[op.row, op.col] := CellOf(op);
      }
    }
  }

  /**
   * Paint the characters of one text run, character i at (s.row, s.col + i)
   * with the colours and face of `s`; `ops` are the operations so far.
   */
  method PaintText(canvas: Canvas, s: State, t: string, ghost ops: seq<PaintOp>)
    requires canvas.Valid()
    requires forall r, c :: 0 <= r < ROWS && 0 <= c < COLS ==> canvas.cells[r, c] == CellAt(ops, r, c)
    modifies canvas.cells
    ensures forall r, c :: 0 <= r < ROWS && 0 <= c < COLS ==>
      canvas.cells[r, c] == CellAt(ops + Paints(s, Text(t)), r, c)
  {
    ghost var run := Paints(s, Text(t));
    assert ops + run[..0] == ops;
    for i := 0 to |t|
      invariant forall r, c :: 0 <= r < ROWS && 0 <= c < COLS ==> canvas.cells[r, c] == CellAt(ops + run[..i], r, c)
    {
      var op := PaintOp(s.row, s.col + i, t[i], s.fg, s.bg, s.style);
      canvas.Paint(op);
      forall r, c | 0 <= r < ROWS && 0 <= c < COLS
        ensures canvas.cells[r, c] == CellAt(ops + run[..i + 1], r, c)
      {
        CellAtSnoc(ops + run[..i], op, r, c);
        assert ops + run[..i + 1] == (ops + run[..i]) + [op];
      }
    }
    assert run[..|t|] == run;
  }

  /**
   * Render captured terminal output `text`, the file as `read_text` returns
   * it: decoded, with "\r\n" and "\r" already turned into "\n". `tokenize`
   * is the tokeniser the stripped text is handed to; the canvas ends up
   * showing, in every cell, the last paint operation of the instruction
   * stream aimed at it.
   */
  method Render(text: string, tokenize: string -> seq<Instr>) returns (canvas: Canvas)
    ensures fresh(canvas) && fresh(canvas.cells) && canvas.Valid()
    ensures forall r, c :: 0 <= r < ROWS && 0 <= c < COLS ==>
      canvas.cells[r, c] == CellAt(AllPaints(Initial, tokenize(Strip(text))), r, c)
  {
    var instrs := tokenize(Strip(text));
    canvas := new Canvas();
    var row: nat, col: nat := 0, 0;
    var fg, bg, style := WHITE, BLACK, Regular;
    ghost var ops: seq<PaintOp> := [];

    for k := 0 to |instrs|
      invariant State(row, col, fg, bg, style) == Run(Initial, instrs[..k])
      invariant ops == AllPaints(Initial, instrs[..k])
      invariant forall r, c :: 0 <= r < ROWS && 0 <= c < COLS ==> canvas.cells[r, c] == CellAt(ops, r, c)
    {
      RunSnoc(Initial, instrs, k);
      match instrs[k]
      case SetFg(c) =>
        fg := if c.Some? then c.value else WHITE;
      case SetBg(c) =>
        bg := if c.Some? then c.value else BLACK;
      case SetAttr(a) =>
        match a {
          case AttrItalic => style := Italic;
          case AttrNotItalic => style := Regular;
          case AttrOther =>
        }
      case Text(t) =>
        PaintText(canvas, State(row, col, fg, bg, style), t, ops);
        ops := ops + Paints(State(row, col, fg, bg, style), Text(t));
        col := col + |t|;
        if col >= COLS {
          col := 0;
          row := row + 1;
        }
      case Unsupported =>
    }
    assert instrs[..|instrs|] == instrs;
  }

  // ---------------------------------------------------------------------
  // Properties of the renderer
  // ---------------------------------------------------------------------

  /**
   * A colour instruction without a colour resets its channel to the default,
   * the italic pair switches the face, and no styling instruction moves the
   * cursor or touches the other fields.
   */
  lemma StylingInstructions(s: State, c: RGB)
    ensures Step(s, SetFg(None)) == s.(fg := WHITE) && Step(s, SetFg(Some(c))) == s.(fg := c)
    ensures Step(s, SetBg(None)) == s.(bg := BLACK) && Step(s, SetBg(Some(c))) == s.(bg := c)
    ensures Step(s, SetAttr(AttrItalic)) == s.(style := Italic)
    ensures Step(s, SetAttr(AttrNotItalic)) == s.(style := Regular)
    ensures Step(s, SetAttr(AttrOther)) == s && Step(s, Unsupported) == s
  {
  }

  /**
   * Across a whole stream the column stays on the grid, and the row never
   * goes down and rises by at most one per text run.
   */
  lemma {:induction false} RunInvariant(s: State, instrs: seq<Instr>)
    requires s.col < COLS
    ensures Run(s, instrs).col < COLS
    ensures s.row <= Run(s, instrs).row <= s.row + TextCount(instrs)
    decreases |instrs|
  {
    if instrs != [] {
      RunInvariant(s, instrs[..|instrs| - 1]);
    }
  }

  /** A text run of length L puts the column at col + L, or wraps to column 0 of exactly the next row once that reaches COLS. */
  lemma TextRunWrap(s: State, t: string)
    ensures s.col + |t| >= COLS ==> Step(s, Text(t)).row == s.row + 1 && Step(s, Text(t)).col == 0
    ensures s.col + |t| < COLS ==> Step(s, Text(t)).row == s.row && Step(s, Text(t)).col == s.col + |t|
  {
  }

  /** A stream with no text run paints nothing. */
  lemma {:induction false} NoTextNoPaint(s: State, instrs: seq<Instr>)
    requires forall i :: 0 <= i < |instrs| ==> !instrs[i].Text?
    ensures AllPaints(s, instrs) == []
    decreases |instrs|
  {
    if instrs != [] {
      NoTextNoPaint(s, instrs[..|instrs| - 1]);
    }
  }

  /** Instructions after the last text run add no paint operations. */
  lemma {:induction false} TrailingStylingPaintsNothing(s: State, instrs: seq<Instr>, rest: seq<Instr>)
    requires forall i :: 0 <= i < |rest| ==> !rest[i].Text?
    ensures AllPaints(s, instrs + rest) == AllPaints(s, instrs)
    decreases |rest|
  {
    if rest == [] {
      assert instrs + rest == instrs;
    } else {
      var all := instrs + rest;
      assert all[..|all| - 1] == instrs + rest[..|rest| - 1];
      TrailingStylingPaintsNothing(s, instrs, rest[..|rest| - 1]);
    }
  }

  /** A stream of one instruction is that instruction's Step and paint operations. */
  lemma SingleRun(s: State, ins: Instr)
    ensures Run(s, [ins]) == Step(s, ins) && AllPaints(s, [ins]) == Paints(s, ins)
  {
    assert [ins][..0] == [];
  }

  /**
   * Painted on its own, a text run shows character i at (row, col + i) in
   * the state's colours and face, and touches no other cell.
   */
  lemma RunFootprint(s: State, t: string)
    ensures forall i :: 0 <= i < |t| ==>
      CellAt(Paints(s, Text(t)), s.row, s.col + i) == Painted(t[i], s.fg, s.bg, s.style)
    ensures forall r: nat, c: nat :: r != s.row || c < s.col || c >= s.col + |t| ==>
      CellAt(Paints(s, Text(t)), r, c) == Sentinel
  {
    var ops := Paints(s, Text(t));
    forall i | 0 <= i < |t|
      ensures CellAt(ops, s.row, s.col + i) == Painted(t[i], s.fg, s.bg, s.style)
    {
      CellAtLastHit(ops, s.row, s.col + i, i);
    }
  }

  /**
   * A single text run from the initial state: its first COLS characters
   * show in row 0 white on black in the regular face, the rest of row 0 and
   * every other row stay the sentinel (characters past the last column are
   * not carried to the next row), and the run wraps once if it reaches COLS.
   */
  lemma SingleRunRender(t: string)
    ensures Run(Initial, [Text(t)]) ==
      if |t| >= COLS then Initial.(row := 1, col := 0) else Initial.(col := |t|)
    ensures forall c :: 0 <= c < |t| && c < COLS ==>
      CellAt(AllPaints(Initial, [Text(t)]), 0, c) == Painted(t[c], WHITE, BLACK, Regular)
    ensures forall r, c :: 0 <= r < ROWS && 0 <= c < COLS && (r > 0 || c >= |t|) ==>
      CellAt(AllPaints(Initial, [Text(t)]), r, c) == Sentinel
  {
    SingleRun(Initial, Text(t));
    SingleRunShows(t);
    SingleRunLeaves(t);
  }

  /** The run's characters appear in row 0 from column 0, white on black in the regular face. */
  lemma SingleRunShows(t: string)
    ensures forall c :: 0 <= c < |t| && c < COLS ==>
      CellAt(Paints(Initial, Text(t)), 0, c) == Painted(t[c], WHITE, BLACK, Regular)
  {
    RunFootprint(Initial, t);
    forall c | 0 <= c < |t| && c < COLS
      ensures CellAt(Paints(Initial, Text(t)), 0, c) == Painted(t[c], WHITE, BLACK, Regular)
    {
      assert CellAt(Paints(Initial, Text(t)), Initial.row, Initial.col + c) == Painted(t[c], WHITE, BLACK, Regular);
    }
  }

  /** Every cell of the grid outside row 0's first |t| columns stays the sentinel. */
  lemma SingleRunLeaves(t: string)
    ensures forall r, c :: 0 <= r < ROWS && 0 <= c < COLS && (r > 0 || c >= |t|) ==>
      CellAt(Paints(Initial, Text(t)), r, c) == Sentinel
  {
    RunFootprint(Initial, t);
  }

  /** The paint operations of red "Hi" from the initial state. */
  lemma RedHiPaints()
    ensures AllPaints(Initial, [SetFg(Some(RGB(255, 0, 0))), Text("Hi")]) ==
      [PaintOp(0, 0, 'H', RGB(255, 0, 0), BLACK, Regular), PaintOp(0, 1, 'i', RGB(255, 0, 0), BLACK, Regular)]
  {
    var red := RGB(255, 0, 0);
    var prefix := [SetFg(Some(red)), Text("Hi")];
    assert prefix[..1] == [SetFg(Some(red))];
    assert prefix[..1][..0] == [];
    assert Run(Initial, prefix[..1]) == Initial.(fg := red);
    NoTextNoPaint(Initial, prefix[..1]);
  }

  /**
   * Red "Hi" followed only by styling instructions: 'H' and 'i' in red on
   * black at columns 0 and 1, and the remaining 78 columns of row 0 magenta.
   */
  lemma RedHiScenario(rest: seq<Instr>)
    requires forall i :: 0 <= i < |rest| ==> !rest[i].Text?
    ensures var ops := AllPaints(Initial, [SetFg(Some(RGB(255, 0, 0))), Text("Hi")] + rest);
            && CellAt(ops, 0, 0) == Painted('H', RGB(255, 0, 0), BLACK, Regular)
            && CellAt(ops, 0, 1) == Painted('i', RGB(255, 0, 0), BLACK, Regular)
            && forall c :: 2 <= c < COLS ==> CellAt(ops, 0, c) == Sentinel
  {
    var prefix := [SetFg(Some(RGB(255, 0, 0))), Text("Hi")];
    TrailingStylingPaintsNothing(Initial, prefix, rest);
    RedHiPaints();
    var ops := AllPaints(Initial, prefix);
    CellAtLastHit(ops, 0, 0, 0);
    CellAtLastHit(ops, 0, 1, 1);
  }
}
