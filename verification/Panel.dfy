/** From the face to the framebuffer: fit to the panel, reshape 2:1, rotate. */
module Panel {
  import opened Images
  import GoArith

  const WIDTH: nat := 250
  const HEIGHT: nat := 122
  const ENC_SRC_H: nat := 132
  const ENC_THR: nat := 128

  const BLACK: byte := 0
  const WHITE: byte := 255

  /**
   The encode options.  The content scale enters as the size (cw, ch) of the scaled face, which is
   (250, 122) at scale 1.
   */
  datatype EncodeOpts = EncodeOpts(
    tft: bool, rotation: int, mirrorX: bool, mirrorY: bool, invert: bool,
    srcW: int, srcH: int, cw: int, ch: int, offX: int, offY: int)

  const DEFAULT_OPTS := EncodeOpts(true, 90, true, false, false, 0, 0, WIDTH, HEIGHT, -1, 5)

  function SrcW(o: EncodeOpts): nat {
    if o.srcW <= 0 then WIDTH else o.srcW
  }

  function SrcH(o: EncodeOpts): nat {
    if o.srcH <= 0 then ENC_SRC_H else o.srcH
  }

  /** Where the scaled face starts on an axis: centered, then nudged. */
  function Origin(size: int, content: int, off: int): int {
    GoArith.Div(size - content, 2) + off
  }

  /** The panel's size, as asked for, or the default on an axis where nothing positive is. */
  lemma SourceSize(o: EncodeOpts)
    ensures o.srcW >= 1 ==> SrcW(o) == o.srcW
    ensures o.srcH >= 1 ==> SrcH(o) == o.srcH
    ensures o.srcW < 1 ==> SrcW(o) == 250
    ensures o.srcH < 1 ==> SrcH(o) == 132
  {
  }

  /**
   What centering means, for every size: what fits is centered, an odd pixel left over on its far side; what
   is too large sticks out as what is too small stays away, by the same truncated half; and the nudge adds up.
   */
  lemma Centered(size: int, content: int, off: int)
    ensures content <= size ==> 0 <= size - content - 2 * Origin(size, content, 0) <= 1
    ensures Origin(size, content, 0) == -Origin(content, size, 0)
    ensures Origin(size, content, off) == Origin(size, content, 0) + off
  {
  }

  /** The face pixel that shows at panel pixel (x, y), or 0 where the scaled face does not reach. */
  function FaceAt(face: Image, o: EncodeOpts, x: int, y: int): byte {
    var dx := x - Origin(SrcW(o), o.cw, o.offX);
    var dy := y - Origin(SrcH(o), o.ch, o.offY);
    if 0 <= dx < o.cw && 0 <= dy < o.ch then face.At(dx * WIDTH / o.cw, dy * HEIGHT / o.ch) else 0
  }

  function Ink(v: byte): byte {
    if v == 1 then BLACK else WHITE
  }

  ghost function PanelPic(face: Picture, o: EncodeOpts): Picture {
    Build(SrcW(o), SrcH(o), (x, y) => Ink(FaceAt(face, o, x, y)))
  }

  /** The scaling loops draw, pixel by pixel, what `PanelPic` says each panel pixel shows. */
  method GrayPanel(img: array2<byte>, o: EncodeOpts) returns (src: array2<byte>)
    ensures fresh(src)
    ensures Pic(src) == PanelPic(Pic(img), o)
  {
    var sw, sh := SrcW(o), SrcH(o);
    src := new byte[sh, sw]((_, _) => WHITE);
    ghost var face := Pic(img);
    var ox := Origin(sw, o.cw, o.offX);
    var oy := Origin(sh, o.ch, o.offY);
    if o.cw >= 1 && o.ch >= 1 {
      for dy := 0 to o.ch
        invariant forall x, y | 0 <= x < sw && 0 <= y < sh ::
            src[y, x] == if y - oy < dy then Ink(FaceAt(face, o, x, y)) else WHITE
      {
        var ty := oy + dy;
        if 0 <= ty < sh {
          var sy := dy * HEIGHT / o.ch;
          for dx := 0 to o.cw
            invariant forall x, y | 0 <= x < sw && 0 <= y < sh ::
                src[y, x] == if y < ty || (y == ty && x - ox < dx) then Ink(FaceAt(face, o, x, y)) else WHITE
          {
            var tx := ox + dx;
            if 0 <= tx < sw {
              var sx := dx * WIDTH / o.cw;
              assert FaceAt(face, o, tx, ty) == face.At(sx, sy);
              if PixelAt(img, sx, sy) == 1 {
                src[ty, tx] := BLACK;
              }
            }
          }
        }
      }
    }
    SamePixels(Pic(src), PanelPic(face, o));
  }

  ghost function ReshapePic(p: Picture): Picture {
    Build(p.w / 2, 2 * p.h, (x, y) =>
      if p.At(2 * x, y / 2) < ENC_THR || p.At(2 * x + 1, y / 2) < ENC_THR then BLACK else WHITE)
  }

  method Reshape(g: array2<byte>) returns (rz: array2<byte>)
    ensures fresh(rz)
    ensures Pic(rz) == ReshapePic(Pic(g))
  {
    var w, h := g.Length1 / 2, g.Length0 * 2;
    ghost var goal := ReshapePic(Pic(g));
    rz := new byte[h, w]((_, _) => WHITE);
    for dy := 0 to h
      invariant forall x, y | 0 <= x < w && 0 <= y < h ::
          rz[y, x] == if y < dy then goal.At(x, y) else WHITE
    {
      var sy := dy / 2;
      for dx := 0 to w
        invariant forall x, y | 0 <= x < w && 0 <= y < h ::
            rz[y, x] == if y < dy || (y == dy && x < dx) then goal.At(x, y) else WHITE
      {
        assert goal.Has(dx, dy);
        var black := PixelAt(g, 2 * dx, sy) < ENC_THR || PixelAt(g, 2 * dx + 1, sy) < ENC_THR;
        if black {
          rz[dy, dx] := BLACK;
        }
      }
    }
    SamePixels(Pic(rz), goal);
  }

  /** Reshaping keeps thin strokes: a pixel is black exactly if one of the two source pixels it covers is dark. */
  lemma ReshapeKeepsInk(p: Picture, x: nat, y: nat)
    requires p.Has(x, y) && x < 2 * (p.w / 2)
    ensures ReshapePic(p).w == p.w / 2 && ReshapePic(p).h == 2 * p.h
    ensures p.At(x, y) < 128 ==> ReshapePic(p).At(x / 2, 2 * y) == 0 && ReshapePic(p).At(x / 2, 2 * y + 1) == 0
    ensures p.At(x, y) >= 128 && p.At(if x % 2 == 0 then x + 1 else x - 1, y) >= 128 ==>
              ReshapePic(p).At(x / 2, 2 * y) == 255 && ReshapePic(p).At(x / 2, 2 * y + 1) == 255
  {
    assert ReshapePic(p).Has(x / 2, 2 * y) && ReshapePic(p).Has(x / 2, 2 * y + 1);
    assert x == 2 * (x / 2) || x == 2 * (x / 2) + 1;
  }

  /** A quarter turn counter-clockwise. */
  ghost function Turn(p: Picture): Picture {
    Build(p.h, p.w, (x, y) => p.At(p.w - 1 - y, x))
  }

  /** A half turn, in closed form. */
  ghost function HalfTurn(p: Picture): Picture {
    Build(p.w, p.h, (x, y) => p.At(p.w - 1 - x, p.h - 1 - y))
  }

  ghost function Turns(p: Picture, n: nat): Picture {
    if n == 0 then p else Turn(Turns(p, n - 1))
  }

  /** The number of quarter turns made for a count k: `((k % 4) + 4) % 4`. */
  function QuarterTurns(k: int): (n: nat)
    ensures n < 4 && n == k % 4
  {
    GoArith.Reduced(k);
    (GoArith.Mod(k, 4) + 4) % 4
  }

  ghost function Rotated(p: Picture, k: int): Picture {
    Turns(p, QuarterTurns(k))
  }

  method TurnOnce(g: array2<byte>) returns (n: array2<byte>)
    ensures Pic(n) == Turn(Pic(g))
  {
    var ow, oh := g.Length1, g.Length0;
    n := new byte[ow, oh]((_, _) => 0);
    for ny := 0 to ow
      invariant forall x, y | 0 <= x < oh && 0 <= y < ny :: n[y, x] == Pic(g).At(ow - 1 - y, x)
    {
      for nx := 0 to oh
        invariant forall x, y | 0 <= x < oh && 0 <= y < ny :: n[y, x] == Pic(g).At(ow - 1 - y, x)
        invariant forall x | 0 <= x < nx :: n[ny, x] == Pic(g).At(ow - 1 - ny, x)
      {
        n[ny, nx] := PixelAt(g, ow - 1 - ny, nx);
      }
    }
    SamePixels(Pic(n), Turn(Pic(g)));
  }

  /** `rotateCCW` on gray images, `RotatePalettedCCW` on paletted ones. */
  method RotateCCW(src: array2<byte>, k: int) returns (g: array2<byte>)
    ensures Pic(g) == Rotated(Pic(src), k)
  {
    var turns := QuarterTurns(k);
    g := src;
    for i := 0 to turns
      invariant Pic(g) == Turns(Pic(src), i)
    {
      g := TurnOnce(g);
    }
  }

  ghost function Unturned(face: Picture, o: EncodeOpts): Picture {
    if o.tft then ReshapePic(PanelPic(face, o)) else PanelPic(face, o)
  }

  /** The framebuffer the encoder walks. */
  ghost function Framebuffer(face: Picture, o: EncodeOpts): Picture {
    Rotated(Unturned(face, o), GoArith.Div(o.rotation, 90))
  }

  // ----- where rotation takes a pixel -----

  /** Where a pixel at (x, y) of a w by h picture is after n quarter turns counter-clockwise. */
  function Place(w: int, h: int, n: nat, x: int, y: int): (int, int) {
    match n
    case 0 => (x, y)
    case 1 => (y, w - 1 - x)
    case 2 => (w - 1 - x, h - 1 - y)
    case _ => (h - 1 - y, x)
  }

  lemma TurnMoves(p: Picture, x: int, y: int)
    requires p.Has(x, y)
    ensures Turn(p).Has(y, p.w - 1 - x) && Turn(p).At(y, p.w - 1 - x) == p.At(x, y)
  {
  }

  lemma {:induction false} TurnsMove(p: Picture, n: nat, x: int, y: int)
    requires p.Has(x, y) && n < 4
    ensures var (u, v) := Place(p.w, p.h, n, x, y); Turns(p, n).Has(u, v) && Turns(p, n).At(u, v) == p.At(x, y)
    decreases n
  {
    if n > 0 {
      var (u, v) := Place(p.w, p.h, n - 1, x, y);
      TurnsMove(p, n - 1, x, y);
      TurnsDims(p, n - 1);
      TurnMoves(Turns(p, n - 1), u, v);
    }
  }

  /** Go's quotient of an angle by 90: q quarter turns and less than one more, in the direction of the angle. */
  predicate QuarterParts(rotation: int, q: int) {
    var r := rotation - 90 * q;
    -90 < r < 90 && (r > 0 ==> rotation > 0) && (r < 0 ==> rotation < 0)
  }

  lemma QuartersOf(rotation: int, q: int)
    requires QuarterParts(rotation, q)
    ensures GoArith.Div(rotation, 90) == q
  {
  }

  /** Rotation by any count takes the pixel at (x, y) where that many quarter turns, full circles dropped, take it. */
  lemma RotationMoves(p: Picture, k: int, x: int, y: int)
    requires p.Has(x, y)
    ensures var (u, v) := Place(p.w, p.h, k % 4, x, y); Rotated(p, k).Has(u, v) && Rotated(p, k).At(u, v) == p.At(x, y)
  {
    TurnsMove(p, k % 4, x, y);
  }

  // ----- rotation is a group action -----

  lemma TwoTurns(p: Picture)
    ensures Turn(Turn(p)) == HalfTurn(p)
  {
    var one := Turn(p);
    forall x, y | HalfTurn(p).Has(x, y)
      ensures HalfTurn(p).At(x, y) == Turn(one).At(x, y)
    {
      assert one.At(one.w - 1 - y, x) == p.At(p.w - 1 - x, one.w - 1 - y);
    }
    SamePixels(HalfTurn(p), Turn(one));
  }

  lemma TwoHalfTurns(p: Picture)
    ensures HalfTurn(HalfTurn(p)) == p
  {
    SamePixels(HalfTurn(HalfTurn(p)), p);
  }

  lemma FourMore(p: Picture, n: nat)
    ensures Turns(p, n + 4) == Turns(p, n)
  {
    var q := Turns(p, n);
    var half := Turns(p, n + 2);
    TwoTurns(q);
    assert half == Turn(Turns(p, n + 1)) == HalfTurn(q);
    TwoTurns(half);
    assert Turns(p, n + 4) == Turn(Turns(p, n + 3)) == HalfTurn(half);
    TwoHalfTurns(q);
  }

  lemma {:induction false} TurnsModFour(p: Picture, n: nat)
    ensures Turns(p, n) == Turns(p, n % 4)
    decreases n
  {
    if n >= 4 {
      FourMore(p, n - 4);
      TurnsModFour(p, n - 4);
    }
  }

  lemma {:induction false} TurnsAdd(p: Picture, m: nat, n: nat)
    ensures Turns(Turns(p, m), n) == Turns(p, m + n)
    decreases n
  {
    if n > 0 {
      TurnsAdd(p, m, n - 1);
    }
  }

  lemma TurnCountsAdd(a: int, b: int)
    ensures (QuarterTurns(a) + QuarterTurns(b)) % 4 == QuarterTurns(a + b)
  {
    GoArith.RemaindersAdd(a, b);
  }

  /**
   Rotating by a and then by b is rotating by a + b, for all integers.  In particular rotation is a
   bijection on pixels, undone by turning back, and full circles are the identity.
   */
  lemma RotationAdds(p: Picture, a: int, b: int)
    ensures Rotated(Rotated(p, a), b) == Rotated(p, a + b)
    ensures QuarterTurns(a + b) == 0 ==> Rotated(Rotated(p, a), b) == p
  {
    var m, n := QuarterTurns(a), QuarterTurns(b);
    TurnsAdd(p, m, n);
    TurnsModFour(p, m + n);
    TurnCountsAdd(a, b);
  }

  lemma {:induction false} TurnsDims(p: Picture, n: nat)
    ensures Turns(p, n).w == (if n % 2 == 0 then p.w else p.h)
    ensures Turns(p, n).h == (if n % 2 == 0 then p.h else p.w)
    decreases n
  {
    if n > 0 {
      TurnsDims(p, n - 1);
    }
  }

  lemma RotatedDims(p: Picture, q: int)
    ensures Rotated(p, q).w == (if q % 2 == 0 then p.w else p.h)
    ensures Rotated(p, q).h == (if q % 2 == 0 then p.h else p.w)
  {
    TurnsDims(p, QuarterTurns(q));
    GoArith.EvenQuarters(q);
  }

  function EncodedDims(o: EncodeOpts): (int, int) {
    var w := if o.tft then SrcW(o) / 2 else SrcW(o);
    var h := if o.tft then SrcH(o) * 2 else SrcH(o);
    if GoArith.Mod(GoArith.Div(o.rotation, 90), 2) != 0 then (h, w) else (w, h)
  }

  /**
   The framebuffer's size in plain numbers: half the columns, an odd one dropped, and twice the rows under
   the reshape, swapped by an odd number of quarter turns.
   */
  lemma DimsAre(o: EncodeOpts, q: int)
    requires QuarterParts(o.rotation, q)
    ensures var w, h := if o.srcW < 1 then 250 else o.srcW, if o.srcH < 1 then 132 else o.srcH;
            var (fw, fh) := if q % 2 == 0 then EncodedDims(o) else (EncodedDims(o).1, EncodedDims(o).0);
            if o.tft then 2 * fw <= w <= 2 * fw + 1 && fh == 2 * h else fw == w && fh == h
  {
    QuartersOf(o.rotation, q);
    GoArith.Parity(q);
    GoArith.EvenQuarters(q);
  }

  /** The decoder's idea of the framebuffer size is the size the encoder's pipeline produces. */
  lemma DimsAgree(face: Picture, o: EncodeOpts)
    ensures EncodedDims(o) == (Framebuffer(face, o).w, Framebuffer(face, o).h)
  {
    var k := GoArith.Div(o.rotation, 90);
    TurnsDims(Unturned(face, o), QuarterTurns(k));
    GoArith.Parity(k);
  }
}
