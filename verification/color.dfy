/** Colours (Color.cpp): four float channels and a flag saying whether red,
    green and blue have already been multiplied by alpha. Channels are exact
    reals; `aeq` is the tolerance test of Utils.h with its epsilon. */
module Colors {

  /** `SbEpsilon`. */
  const Epsilon: real := 0.00005

  function Abs(x: real): (r: real)
    ensures 0.0 <= r && (r == x || r == -x)
  {
    if x < 0.0 then -x else x
  }

  /** `aeq(n1, n2)`: the difference is within epsilon, absolutely or
      relative to the second number. */
  predicate Aeq(n1: real, n2: real)
  {
    Abs(n2 - n1) <= Epsilon || Abs(n2 - n1) <= Epsilon * Abs(n2)
  }

  /** Near zero means within epsilon of it. */
  lemma AeqZero(x: real)
    ensures Aeq(x, 0.0) <==> Abs(x) <= Epsilon
  {
  }

  /** The value of a colour. */
  datatype Rgba = Rgba(r: real, g: real, b: real, a: real, premultiplied: bool)

  /** `Color()`: transparent black, not premultiplied. */
  const Black: Rgba := Rgba(0.0, 0.0, 0.0, 0.0, false)

  /** `fromRGB`: an opaque colour. */
  function FromRGB(r: real, g: real, b: real): (c: Rgba)
    ensures c.a == 1.0 && !c.premultiplied
    ensures c.r == r && c.g == g && c.b == b
  {
    Rgba(r, g, b, 1.0, false)
  }

  /** `fromRGBA`. */
  function FromRGBA(r: real, g: real, b: real, a: real): (c: Rgba)
    ensures !c.premultiplied
    ensures c.r == r && c.g == g && c.b == b && c.a == a
  {
    Rgba(r, g, b, a, false)
  }

  // ---------------------------------------------------------------------
  // Packing

  /** One byte of the packed form, as the source reads it: masked, then
      shifted down. */
  function Byte(rgba: bv32, mask: bv32, shift: bv32): (n: int)
    requires shift <= 24
    ensures 0 <= n
  {
    ((rgba & mask) >> shift) as int
  }

  /** `fromPackedRGBA(rgba)`: red from the top byte down to alpha in the
      bottom byte, each divided by 255. */
  function FromPackedRGBA(rgba: bv32): (c: Rgba)
  {
    Rgba(Byte(rgba, 0xFF00_0000, 24) as real / 255.0,
         Byte(rgba, 0x00FF_0000, 16) as real / 255.0,
         Byte(rgba, 0x0000_FF00, 8) as real / 255.0,
         Byte(rgba, 0x0000_00FF, 0) as real / 255.0,
         false)
  }

  /** A float-to-integer cast: toward zero. */
  function Trunc(x: real): (n: int)
    ensures 0.0 <= x ==> n == x.Floor
    ensures x < 0.0 ==> n == -((-x).Floor)
  {
    if 0.0 <= x then x.Floor else -((-x).Floor)
  }

  /** `(int32_t)(v * 255) & 0xFF`: the low byte of the truncated channel (a
      two's-complement mask, which is the non-negative remainder). */
  function PackedChannel(v: real): (n: int)
    ensures 0 <= n < 256
  {
    Trunc(v * 255.0) % 256
  }

  /** `packedRGBA()`: red in the low byte up to alpha in the top byte. */
  function PackedRGBA(c: Rgba): (rgba: bv32)
  {
    (PackedChannel(c.r) as bv32 << 0) | (PackedChannel(c.g) as bv32 << 8) |
    (PackedChannel(c.b) as bv32 << 16) | (PackedChannel(c.a) as bv32 << 24)
  }

  /** The four bytes of a word in reverse order. */
  function ByteSwapped(x: bv32): bv32
  {
    ((x & 0x0000_00FF) << 24) | ((x & 0x0000_FF00) << 8) | ((x & 0x00FF_0000) >> 8) | ((x & 0xFF00_0000) >> 24)
  }

  /** Every channel read from a packed word lies in [0, 1] and the colour is
      not premultiplied. */
  lemma FromPackedInRange(rgba: bv32)
    ensures var c := FromPackedRGBA(rgba);
            !c.premultiplied && InRange(c.r) && InRange(c.g) && InRange(c.b) && InRange(c.a)
  {
    ByteBound(rgba, 0xFF00_0000, 24);
    ByteBound(rgba, 0x00FF_0000, 16);
    ByteBound(rgba, 0x0000_FF00, 8);
    ByteBound(rgba, 0x0000_00FF, 0);
  }

  /** A masked and shifted byte is below 256 when the mask covers one byte. */
  lemma ByteBound(rgba: bv32, mask: bv32, shift: bv32)
    requires (mask == 0xFF00_0000 && shift == 24) || (mask == 0x00FF_0000 && shift == 16) ||
             (mask == 0x0000_FF00 && shift == 8) || (mask == 0x0000_00FF && shift == 0)
    ensures Byte(rgba, mask, shift) < 256
  {
    assert (rgba & mask) >> shift <= 0xFF;
  }

  /** A byte divided by 255 and packed again gives the byte back. */
  lemma PackedChannelOfByte(n: int)
    requires 0 <= n < 256
    ensures PackedChannel(n as real / 255.0) == n
  {
    assert (n as real / 255.0) * 255.0 == n as real;
  }

  /** A byte read from a packed word, divided by 255 and packed again, is
      the same byte, still shifted down. */
  lemma ChannelBack(rgba: bv32, mask: bv32, shift: bv32, v: real)
    requires (mask == 0xFF00_0000 && shift == 24) || (mask == 0x00FF_0000 && shift == 16) ||
             (mask == 0x0000_FF00 && shift == 8) || (mask == 0x0000_00FF && shift == 0)
    requires v == Byte(rgba, mask, shift) as real / 255.0
    ensures PackedChannel(v) as bv32 == (rgba & mask) >> shift
  {
    ByteBound(rgba, mask, shift);
    PackedChannelOfByte(Byte(rgba, mask, shift));
  }

  /** Putting the four shifted-down bytes back at the opposite ends reverses
      the word. */
  lemma SwapBytes(x: bv32, p0: bv32, p1: bv32, p2: bv32, p3: bv32)
    requires p0 == (x & 0xFF00_0000) >> 24 && p1 == (x & 0x00FF_0000) >> 16
    requires p2 == (x & 0x0000_FF00) >> 8 && p3 == (x & 0x0000_00FF) >> 0
    ensures (p0 << 0) | (p1 << 8) | (p2 << 16) | (p3 << 24) == ByteSwapped(x)
  {
  }

  /** Unpacking and packing again reverses the order of the bytes: the two
      formats put red at opposite ends of the word, so packing is not the
      inverse of unpacking. */
  lemma PackUnpack(rgba: bv32)
    ensures PackedRGBA(FromPackedRGBA(rgba)) == ByteSwapped(rgba)
  {
    var c := FromPackedRGBA(rgba);
    var p0, p1, p2, p3 := PackedChannel(c.r) as bv32, PackedChannel(c.g) as bv32, PackedChannel(c.b) as bv32, PackedChannel(c.a) as bv32;
    assert PackedRGBA(c) == (p0 << 0) | (p1 << 8) | (p2 << 16) | (p3 << 24);
    ChannelBack(rgba, 0xFF00_0000, 24, c.r);
    ChannelBack(rgba, 0x00FF_0000, 16, c.g);
    ChannelBack(rgba, 0x0000_FF00, 8, c.b);
    ChannelBack(rgba, 0x0000_00FF, 0, c.a);
    SwapBytes(rgba, p0, p1, p2, p3);
  }

  /** Opaque red in the unpacking format (0xFF000000) packs to 0x000000FF. */
  lemma PackUnpackRed()
    ensures PackedRGBA(FromPackedRGBA(0xFF00_0000)) == 0x0000_00FF
  {
    PackUnpack(0xFF00_0000);
  }

  // ---------------------------------------------------------------------
  // Clamping and premultiplication, on values

  predicate InRange(x: real) { 0.0 <= x <= 1.0 }

  /** One channel as `clamp()` treats it. */
  function ClampChannel(x: real): (y: real)
    ensures InRange(y)
    ensures InRange(x) ==> y == x
    ensures x <= 0.0 ==> y == 0.0
    ensures 1.0 <= x ==> y == 1.0
  {
    if x <= 0.0 then 0.0 else if x >= 1.0 then 1.0 else x
  }

  /** `clamped()`: a copy with every channel in [0, 1]. */
  function Clamped(c: Rgba): Rgba
  {
    c.(r := ClampChannel(c.r), g := ClampChannel(c.g), b := ClampChannel(c.b), a := ClampChannel(c.a))
  }

  predicate IsClamped(c: Rgba) { InRange(c.r) && InRange(c.g) && InRange(c.b) && InRange(c.a) }

  /** Clamping puts every channel in [0, 1], keeps the flag, changes a
      colour that is already in range not at all, and so is idempotent. */
  lemma ClampedProperties(c: Rgba)
    ensures IsClamped(Clamped(c)) && Clamped(c).premultiplied == c.premultiplied
    ensures IsClamped(c) ==> Clamped(c) == c
    ensures Clamped(Clamped(c)) == Clamped(c)
  {
  }

  /** One channel as `snap()` treats it: near 0 becomes 0, then near 1
      becomes 1. */
  function SnapChannel(x: real): real
  {
    var y := if Aeq(x, 0.0) then 0.0 else x;
    if Aeq(y, 1.0) then 1.0 else y
  }

  /** `snap()` on a value. */
  function Snapped(c: Rgba): Rgba
  {
    c.(r := SnapChannel(c.r), g := SnapChannel(c.g), b := SnapChannel(c.b), a := SnapChannel(c.a))
  }

  /** Snapping moves a channel by at most epsilon, sets it to exactly 0 or 1
      when it was that close, and leaves it alone otherwise. */
  lemma SnapChannelProperties(x: real)
    ensures Abs(x) <= Epsilon ==> SnapChannel(x) == 0.0
    ensures Aeq(x, 1.0) ==> SnapChannel(x) == 1.0
    ensures !Aeq(x, 0.0) && !Aeq(x, 1.0) ==> SnapChannel(x) == x
    ensures Abs(SnapChannel(x) - x) <= Epsilon
  {
  }

  /** `preMultiplied()`: unchanged when already premultiplied; otherwise red,
      green and blue are multiplied by alpha and the flag is set. */
  function PreMultiplied(c: Rgba): (p: Rgba)
    ensures p.premultiplied && p.a == c.a
  {
    if c.premultiplied then c else Rgba(c.r * c.a, c.g * c.a, c.b * c.a, c.a, true)
  }

  /** `nonPreMultiplied()`: unchanged when not premultiplied; with alpha near
      zero only the flag is cleared; otherwise red, green and blue are
      divided by alpha. */
  function NonPreMultiplied(c: Rgba): (n: Rgba)
    ensures !n.premultiplied && n.a == c.a
  {
    if !c.premultiplied then c
    else if Aeq(c.a, 0.0) then c.(premultiplied := false)
    else Rgba(c.r / c.a, c.g / c.a, c.b / c.a, c.a, false)
  }

  /** Premultiplying is idempotent. */
  lemma PreMultipliedIdempotent(c: Rgba)
    ensures PreMultiplied(PreMultiplied(c)) == PreMultiplied(c)
  {
  }

  /** Reverting a premultiplication gives the colour back unless alpha is
      within epsilon of zero. */
  lemma RevertUndoesPreMultiply(c: Rgba)
    requires !c.premultiplied && !Aeq(c.a, 0.0)
    ensures NonPreMultiplied(PreMultiplied(c)) == c
  {
    assert c.a != 0.0;
    assert c.r * c.a / c.a == c.r;
    assert c.g * c.a / c.a == c.g;
    assert c.b * c.a / c.a == c.b;
  }

  /** With alpha near zero the colour channels are lost: premultiplying
      and reverting keeps the products. */
  lemma RevertKeepsNearTransparent(c: Rgba)
    requires !c.premultiplied && Aeq(c.a, 0.0)
    ensures NonPreMultiplied(PreMultiplied(c)) == Rgba(c.r * c.a, c.g * c.a, c.b * c.a, c.a, false)
  {
  }

  // ---------------------------------------------------------------------
  // Arithmetic: channel by channel; the flag is the left operand's.

  function Plus(c1: Rgba, c2: Rgba): (c: Rgba)
    ensures c.premultiplied == c1.premultiplied
  {
    c1.(r := c1.r + c2.r, g := c1.g + c2.g, b := c1.b + c2.b, a := c1.a + c2.a)
  }

  function Minus(c1: Rgba, c2: Rgba): (c: Rgba)
    ensures c.premultiplied == c1.premultiplied
  {
    c1.(r := c1.r - c2.r, g := c1.g - c2.g, b := c1.b - c2.b, a := c1.a - c2.a)
  }

  function Times(c1: Rgba, c2: Rgba): (c: Rgba)
    ensures c.premultiplied == c1.premultiplied
  {
    c1.(r := c1.r * c2.r, g := c1.g * c2.g, b := c1.b * c2.b, a := c1.a * c2.a)
  }

  /** Division needs non-zero channels in the exact model (a float division
      by zero gives an infinity). */
  function Divided(c1: Rgba, c2: Rgba): (c: Rgba)
    requires c2.r != 0.0 && c2.g != 0.0 && c2.b != 0.0 && c2.a != 0.0
    ensures c.premultiplied == c1.premultiplied
  {
    c1.(r := c1.r / c2.r, g := c1.g / c2.g, b := c1.b / c2.b, a := c1.a / c2.a)
  }

  /** `c * t` and `t * c`. */
  function Scaled(c: Rgba, t: real): (s: Rgba)
    ensures s.premultiplied == c.premultiplied
  {
    c.(r := c.r * t, g := c.g * t, b := c.b * t, a := c.a * t)
  }

  /** Unary minus builds a fresh colour, so the flag is cleared. */
  function Negated(c: Rgba): (n: Rgba)
    ensures !n.premultiplied
  {
    FromRGBA(-c.r, -c.g, -c.b, -c.a)
  }

  /** `lerp(f, c1, c2) = (1 - f) * c1 + f * c2`. */
  function Lerp(f: real, c1: Rgba, c2: Rgba): Rgba
  {
    Plus(Scaled(c1, 1.0 - f), Scaled(c2, f))
  }

  /** Interpolation starts at the first colour and ends at the channels of
      the second (keeping the first one's flag). */
  lemma LerpEnds(c1: Rgba, c2: Rgba)
    ensures Lerp(0.0, c1, c2) == c1
    ensures Lerp(1.0, c1, c2) == c2.(premultiplied := c1.premultiplied)
  {
  }

  /** Subtraction undoes addition. */
  lemma MinusUndoesPlus(c1: Rgba, c2: Rgba)
    ensures Minus(Plus(c1, c2), c2) == c1
  {
  }

  // ---------------------------------------------------------------------
  // Comparison

  /** `==`: the four channels; the premultiplied flag is not compared. */
  predicate Same(c1: Rgba, c2: Rgba)
  {
    c1.r == c2.r && c1.g == c2.g && c1.b == c2.b && c1.a == c2.a
  }

  /** `!=`. */
  predicate Differ(c1: Rgba, c2: Rgba)
  {
    c1.r != c2.r || c1.g != c2.g || c1.b != c2.b || c1.a != c2.a
  }

  /** `<`: lexicographic over red, green, blue, alpha. */
  predicate Less(c1: Rgba, c2: Rgba)
  {
    if c1.r == c2.r then
      if c1.g == c2.g then
        if c1.b == c2.b then c1.a < c2.a else c1.b < c2.b
      else c1.g < c2.g
    else c1.r < c2.r
  }

  /** `>`. */
  predicate Greater(c1: Rgba, c2: Rgba)
  {
    if c1.r == c2.r then
      if c1.g == c2.g then
        if c1.b == c2.b then c1.a > c2.a else c1.b > c2.b
      else c1.g > c2.g
    else c1.r > c2.r
  }

  /** `<=`: equal, or else the `<` comparison. */
  predicate LessOrSame(c1: Rgba, c2: Rgba)
  {
    Same(c1, c2) || Less(c1, c2)
  }

  /** `>=`. */
  predicate GreaterOrSame(c1: Rgba, c2: Rgba)
  {
    Same(c1, c2) || Greater(c1, c2)
  }

  /** `<` is a strict total order over the channels: irreflexive,
      transitive, and exactly one of less, equal and greater holds; `>` is
      its converse and `!=` the negation of `==`. */
  lemma OrderLaws(c1: Rgba, c2: Rgba, c3: Rgba)
    ensures !Less(c1, c1)
    ensures Less(c1, c2) && Less(c2, c3) ==> Less(c1, c3)
    ensures Greater(c1, c2) <==> Less(c2, c1)
    ensures Differ(c1, c2) <==> !Same(c1, c2)
    ensures (Less(c1, c2) || Same(c1, c2) || Less(c2, c1))
    ensures !(Less(c1, c2) && Same(c1, c2)) && !(Less(c1, c2) && Less(c2, c1))
    ensures LessOrSame(c1, c2) <==> !Less(c2, c1)
    ensures GreaterOrSame(c1, c2) <==> LessOrSame(c2, c1)
  {
  }

  // ---------------------------------------------------------------------
  // A colour object whose operations update it in place

  class Color {
    var r: real
    var g: real
    var b: real
    var a: real
    var premultiplied: bool

    /** The colour's current value. */
    function Value(): Rgba
      reads this
    {
      Rgba(r, g, b, a, premultiplied)
    }

    /** `Color()`. */
    constructor ()
      ensures Value() == Black
    {
      r, g, b, a, premultiplied := 0.0, 0.0, 0.0, 0.0, false;
    }

    /** `clamp()`: every channel clamped to [0, 1] in place; `clamped()`
        is this on a copy. */
    method Clamp()
      modifies this
      ensures Value() == Clamped(old(Value()))
    {
      r := ClampChannel(r);
      g := ClampChannel(g);
      b := ClampChannel(b);
      a := ClampChannel(a);
    }

    /** `snap()`: channels near 0 or 1 are set to exactly that. */
    method Snap()
      modifies this
      ensures Value() == Snapped(old(Value()))
    {
      if Aeq(r, 0.0) { r := 0.0; }
      if Aeq(r, 1.0) { r := 1.0; }
      if Aeq(g, 0.0) { g := 0.0; }
      if Aeq(g, 1.0) { g := 1.0; }
      if Aeq(b, 0.0) { b := 0.0; }
      if Aeq(b, 1.0) { b := 1.0; }
      if Aeq(a, 0.0) { a := 0.0; }
      if Aeq(a, 1.0) { a := 1.0; }
    }

    /** `preMultiply()`. */
    method PreMultiply()
      modifies this
      ensures Value() == PreMultiplied(old(Value()))
    {
      if premultiplied {
        return;
      }
      r := r * a;
      g := g * a;
      b := b * a;
      premultiplied := true;
    }

    /** `revertPreMultiply()`. */
    method RevertPreMultiply()
      modifies this
      ensures Value() == NonPreMultiplied(old(Value()))
    {
      if !premultiplied {
        return;
      }
      if Aeq(a, 0.0) {
        premultiplied := false;
      } else {
        r := r / a;
        g := g / a;
        b := b / a;
        premultiplied := false;
      }
    }

    /** `+=`. */
    method AddAssign(c2: Rgba)
      modifies this
      ensures Value() == Plus(old(Value()), c2)
    {
      r, g, b, a := r + c2.r, g + c2.g, b + c2.b, a + c2.a;
    }

    /** `*=` by a scalar. */
    method ScaleAssign(t: real)
      modifies this
      ensures Value() == Scaled(old(Value()), t)
    {
      r, g, b, a := r * t, g * t, b * t, a * t;
    }
  }
}
