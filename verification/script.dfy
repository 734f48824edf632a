/** The size clamp of `showPreview`: an image wider than 300 is scaled down
    to width 300, then one still taller than 300 to height 300, each time
    keeping the aspect ratio. Sizes are reals, since the divisions are not
    rounded. */
module Preview {
  const MaxWidth: real := 300.0
  const MaxHeight: real := 300.0

  datatype Size = Size(width: real, height: real)

  function ScalePreview(s: Size): (r: Size)
  {
    var s1 := if s.width > MaxWidth then Size(MaxWidth, (s.height * MaxWidth) / s.width) else s;
    if s1.height > MaxHeight then Size((s1.width * MaxHeight) / s1.height, MaxHeight) else s1
  }

  lemma ScaleDown(x: real, m: real, d: real)
    requires x > 0.0 && d > m > 0.0
    ensures 0.0 < (x * m) / d < x
  {
    assert x - (x * m) / d == (x * (d - m)) / d;
    assert x * (d - m) > 0.0;
  }

  lemma ScaleUpTo(x: real, m: real, d: real)
    requires x > 0.0 && m > 0.0 && d > 0.0
    ensures (x * m) / d > 0.0
    ensures ((x * m) / d) * d == x * m
  {
  }

  /** a3 : b3 = a2 : b2 and a2 : b2 = a1 : b1 give a3 : b3 = a1 : b1. */
  lemma SameRatio(a1: real, b1: real, a2: real, b2: real, a3: real, b3: real)
    requires b2 != 0.0
    requires a2 * b1 == b2 * a1 && a3 * b2 == b3 * a2
    ensures a3 * b1 == b3 * a1
  {
    assert (a3 * b1) * b2 == (a3 * b2) * b1;
    assert (b3 * a1) * b2 == b3 * (a1 * b2);
    assert (a3 * b1 - b3 * a1) * b2 == 0.0;
  }

  /** A preview that already fits is left alone. */
  lemma PreviewUnchanged(s: Size)
    requires s.width <= MaxWidth && s.height <= MaxHeight
    ensures ScalePreview(s) == s
  {
  }

  /** Every positive size is brought within 300 by 300, stays positive, and
      touches the bound whenever it had to be scaled. */
  lemma PreviewFits(s: Size)
    requires s.width > 0.0 && s.height > 0.0
    ensures var r := ScalePreview(s);
      && 0.0 < r.width <= MaxWidth && 0.0 < r.height <= MaxHeight
      && ((s.width > MaxWidth || s.height > MaxHeight) ==> (r.width == MaxWidth || r.height == MaxHeight))
  {
    var s1 := if s.width > MaxWidth then Size(MaxWidth, (s.height * MaxWidth) / s.width) else s;
    if s.width > MaxWidth {
      ScaleDown(s.height, MaxWidth, s.width);
    }
    if s1.height > MaxHeight {
      ScaleDown(s1.width, MaxHeight, s1.height);
    }
  }

  /** Scaling keeps the aspect ratio: width : height is unchanged. */
  lemma PreviewAspect(s: Size)
    requires s.width > 0.0 && s.height > 0.0
    ensures ScalePreview(s).width * s.height == ScalePreview(s).height * s.width
  {
    var s1 := if s.width > MaxWidth then Size(MaxWidth, (s.height * MaxWidth) / s.width) else s;
    if s.width > MaxWidth {
      ScaleUpTo(s.height, MaxWidth, s.width);
    }
    assert s1.width * s.height == s1.height * s.width;
    assert s1.height > 0.0;
    if s1.height > MaxHeight {
      var r := ScalePreview(s);
      ScaleUpTo(s1.width, MaxHeight, s1.height);
      SameRatio(s.width, s.height, s1.width, s1.height, r.width, r.height);
    }
  }
}

/** The text layer of the editor: `getFont`, and the hit test and drag
    arithmetic of the mouse handlers. The measured text width comes from
    the canvas and is a parameter. */
module TextTool {
  import opened Decimal
  import opened Optional
  import Pixels

  datatype TextLayer = TextLayer(text: string, x: real, y: real, fontSize: nat, fontFamily: string,
                                 bold: bool, italic: bool)

  /** `isDragging`, `dragOffsetX` and `dragOffsetY`. */
  datatype Drag = Drag(dragging: bool, offsetX: real, offsetY: real)

  /** `getFont`: "bold " when bold, then "italic " when italic, then the
      size in pixels and the family. */
  function GetFont(t: TextLayer): string
  {
    (if t.bold then "bold " else "") + (if t.italic then "italic " else "")
      + NatToString(t.fontSize) + "px " + t.fontFamily
  }

  datatype Font = Font(bold: bool, italic: bool, size: nat, family: string)

  /** Whether s starts with prefix, and s with the prefix removed if so. */
  function StripPrefix(s: string, prefix: string): (r: (bool, string))
    ensures r.0 ==> s == prefix + r.1
    ensures !r.0 ==> r.1 == s
  {
    if |s| >= |prefix| && s[..|prefix|] == prefix then (true, s[|prefix|..]) else (false, s)
  }

  /** Reads the size and the family from "<digits>px <family>". */
  function ParseSize(s: string): Option<(nat, string)>
  {
    var n := LeadingDigits(s);
    var (px, family) := StripPrefix(s[n..], "px ");
    if n == 0 || !px then None else Some((DigitsToNat(s[..n]), family))
  }

  /** Reads a font string of the shape `getFont` writes back. */
  function ParseFont(s: string): Option<Font>
  {
    var (bold, s1) := StripPrefix(s, "bold ");
    var (italic, s2) := StripPrefix(s1, "italic ");
    match ParseSize(s2)
    case None => None
    case Some((size, family)) => Some(Font(bold, italic, size, family))
  }

  lemma SplitAt(a: string, b: string)
    ensures (a + b)[..|a|] == a && (a + b)[|a|..] == b
  {
  }

  lemma StripPresent(prefix: string, t: string)
    ensures StripPrefix(prefix + t, prefix) == (true, t)
  {
    assert (prefix + t)[..|prefix|] == prefix;
    assert (prefix + t)[|prefix|..] == t;
  }

  /** A string whose first character is not the prefix's first character
      does not start with it. */
  lemma StripAbsent(s: string, prefix: string)
    requires |prefix| > 0 && |s| > 0 && s[0] != prefix[0]
    ensures StripPrefix(s, prefix) == (false, s)
  {
    if |s| >= |prefix| {
      assert s[..|prefix|][0] != prefix[0];
    }
  }

  /** A run of digits followed by "px " and a family reads back as the
      digits' value and the family. */
  lemma ParseSizeOfDigits(d: string, family: string)
    requires |d| > 0 && AllDigits(d)
    ensures ParseSize(d + ("px " + family)) == Some((DigitsToNat(d), family))
  {
    var s := d + ("px " + family);
    LeadingDigitsOfNumeral(d, "px " + family);
    SplitAt(d, "px " + family);
    StripPresent("px ", family);
  }

  lemma ParseSizeOfNumeral(n: nat, family: string)
    ensures ParseSize(NatToString(n) + "px " + family) == Some((n, family))
  {
    var d := NatToString(n);
    assert d + "px " + family == d + ("px " + family);
    ParseSizeOfDigits(d, family);
    DigitsOfNatToString(n);
  }

  /** An optional prefix in front of a string that does not begin like the
      prefix is recognised exactly when it is there. */
  lemma StripFlag(flag: bool, prefix: string, rest: string)
    requires |prefix| > 0 && |rest| > 0 && rest[0] != prefix[0]
    ensures StripPrefix((if flag then prefix else "") + rest, prefix) == (flag, rest)
  {
    if flag {
      StripPresent(prefix, rest);
    } else {
      assert "" + rest == rest;
      StripAbsent(rest, prefix);
    }
  }

  /** The font string gives back the style flags, the size and the family
      it was built from. */
  lemma ParseGetFont(t: TextLayer)
    ensures ParseFont(GetFont(t)) == Some(Font(t.bold, t.italic, t.fontSize, t.fontFamily))
  {
    var rest := NatToString(t.fontSize) + "px " + t.fontFamily;
    assert IsDigit(rest[0]);
    var s1 := (if t.italic then "italic " else "") + rest;
    StripFlag(t.italic, "italic ", rest);
    assert s1[0] == 'i' || IsDigit(s1[0]);
    StripFlag(t.bold, "bold ", s1);
    var styleA: string := if t.bold then "bold " else "";
    var styleB: string := if t.italic then "italic " else "";
    var digits := NatToString(t.fontSize);
    Pixels.ConcatAssoc(styleA + styleB, digits, "px ");
    Pixels.ConcatAssoc(styleA + styleB, digits + "px ", t.fontFamily);
    Pixels.ConcatAssoc(styleA, styleB, rest);
    assert GetFont(t) == styleA + s1;
    ParseSizeOfNumeral(t.fontSize, t.fontFamily);
  }

  /** Two text layers with the same font string have the same style, size
      and family. */
  lemma GetFontInjective(t: TextLayer, u: TextLayer)
    requires GetFont(t) == GetFont(u)
    ensures t.bold == u.bold && t.italic == u.italic
    ensures t.fontSize == u.fontSize && t.fontFamily == u.fontFamily
  {
    ParseGetFont(t);
    ParseGetFont(u);
  }

  /** The click test of `handleMouseDown`: inside the box of the measured
      text width and the font size, centred on the text position. */
  predicate HitTest(t: TextLayer, px: real, py: real, textWidth: real)
  {
    && px >= t.x - textWidth / 2.0
    && px <= t.x + textWidth / 2.0
    && py >= t.y - t.fontSize as real / 2.0
    && py <= t.y + t.fontSize as real / 2.0
  }

  function Abs(r: real): real
  {
    if r < 0.0 then -r else r
  }

  /** `handleMouseDown`: nothing without a text layer; a click on the text
      starts dragging and records the offset of the cursor from the text
      position; a click elsewhere leaves the drag state as it was. */
  function MouseDown(layer: Option<TextLayer>, d: Drag, px: real, py: real, textWidth: real): (d': Drag)
    ensures d'.dragging <==> d.dragging || (layer.Some? && HitTest(layer.value, px, py, textWidth))
    ensures layer.Some? && HitTest(layer.value, px, py, textWidth) ==>
      layer.value.x + d'.offsetX == px && layer.value.y + d'.offsetY == py
    ensures !(layer.Some? && HitTest(layer.value, px, py, textWidth)) ==> d' == d
  {
    if layer.None? then d
    else if HitTest(layer.value, px, py, textWidth) then Drag(true, px - layer.value.x, py - layer.value.y)
    else d
  }

  /** `handleMouseMove`: while dragging, the text follows the cursor at
      the recorded offset; otherwise nothing moves. */
  function MouseMove(t: TextLayer, d: Drag, px: real, py: real): (t': TextLayer)
    ensures d.dragging ==> t'.x + d.offsetX == px && t'.y + d.offsetY == py
    ensures !d.dragging ==> t' == t
    ensures t'.text == t.text && t'.fontSize == t.fontSize && t'.fontFamily == t.fontFamily
    ensures t'.bold == t.bold && t'.italic == t.italic
  {
    if !d.dragging then t else t.(x := px - d.offsetX, y := py - d.offsetY)
  }

  /** `handleMouseUp`. */
  function MouseUp(d: Drag): (d': Drag)
    ensures !d'.dragging && d'.offsetX == d.offsetX && d'.offsetY == d.offsetY
  {
    d.(dragging := false)
  }

  /** The click test is a box of half-widths textWidth / 2 and
      fontSize / 2 around the text position. */
  lemma HitTestBox(t: TextLayer, px: real, py: real, textWidth: real)
    ensures HitTest(t, px, py, textWidth)
        <==> Abs(px - t.x) <= textWidth / 2.0 && Abs(py - t.y) <= t.fontSize as real / 2.0
  {
  }

  /** Moving the cursor back to where the text was grabbed puts the text
      back where it was. */
  lemma GrabRoundTrip(t: TextLayer, d: Drag, px: real, py: real, textWidth: real, qx: real, qy: real)
    requires HitTest(t, px, py, textWidth)
    ensures var d' := MouseDown(Some(t), d, px, py, textWidth);
      MouseMove(MouseMove(t, d', qx, qy), d', px, py) == t
  {
  }

  /** A move of the cursor by (ddx, ddy) moves a dragged text by the same
      amount. */
  lemma DragTranslates(t: TextLayer, d: Drag, px: real, py: real, ddx: real, ddy: real)
    requires d.dragging
    ensures MouseMove(t, d, px + ddx, py + ddy).x == MouseMove(t, d, px, py).x + ddx
    ensures MouseMove(t, d, px + ddx, py + ddy).y == MouseMove(t, d, px, py).y + ddy
  {
  }

  /** After the button is released the text no longer moves. */
  lemma ReleasedDoesNotMove(t: TextLayer, d: Drag, px: real, py: real)
    ensures MouseMove(t, MouseUp(d), px, py) == t
  {
  }
}
