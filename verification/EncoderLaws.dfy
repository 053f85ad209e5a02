/** What the encoders promise across functions: round trip, agreement, wire layout, symmetry. */
module EncoderLaws {
  import opened Images
  import opened Packing
  import opened Panel
  import opened Encoder
  import GoArith

  /**
   Round trip, for every face and all options: the buffer has one bit per framebuffer pixel and zero
   padding, also when there is no pixel, and the decoder's read at each step of the walk stays inside the
   buffer and finds the whiteness of the pixel the walk is at, xor `invert`.  `BitIndexIs` says that it
   reads bit `w * yi + xi`.
   */
  lemma EncodeThenDecode(face: Picture, o: EncodeOpts, w: nat, h: nat, xi: nat, yi: nat)
    requires (w, h) == EncodedDims(o)
    ensures |Encoded(face, o)| == (w * h + 7) / 8
    ensures forall j: nat :: !ReadBit(Encoded(face, o), PadIndex(w, h, j))
    ensures xi < w && yi < h ==>
              var enc, i := Encoded(face, o), BitIndex(w, xi, yi);
              var x, y := if o.mirrorX then w - 1 - xi else xi, if o.mirrorY then h - 1 - yi else yi;
              && i / 8 < |enc|
              && ReadBit(enc, i) == (WhiteLum(Framebuffer(face, o).At(x, y)) != o.invert)
  {
    DimsAgree(face, o);
    WireDecodes(Framebuffer(face, o), o, WhiteLum, w, h, xi, yi);
  }

  lemma WireDecodes(p: Picture, o: EncodeOpts, white: byte -> bool, w: nat, h: nat, xi: nat, yi: nat)
    requires w == p.w && h == p.h
    ensures |Wire(p, o, white)| == (w * h + 7) / 8
    ensures forall j: nat :: !ReadBit(Wire(p, o, white), PadIndex(w, h, j))
    ensures xi < w && yi < h ==>
              var enc, i := Wire(p, o, white), BitIndex(w, xi, yi);
              var x, y := if o.mirrorX then w - 1 - xi else xi, if o.mirrorY then h - 1 - yi else yi;
              i / 8 < |enc| && ReadBit(enc, i) == (white(p.At(x, y)) != o.invert)
  {
    WireShape(p, o, white);
    if xi < w && yi < h {
      DecodedBit(p, o, white, xi, yi);
    }
  }

  lemma WireShape(p: Picture, o: EncodeOpts, white: byte -> bool)
    ensures |Wire(p, o, white)| == (p.w * p.h + 7) / 8
    ensures forall j: nat :: !ReadBit(Wire(p, o, white), PadIndex(p.w, p.h, j))
  {
    assert IsWire(Wire(p, o, white), p, o, white);
    BitIndexIs(p.w, 0, p.h);
  }

  lemma DecodedBit(p: Picture, o: EncodeOpts, white: byte -> bool, xi: nat, yi: nat)
    requires xi < p.w && yi < p.h
    ensures var enc, i := Wire(p, o, white), BitIndex(p.w, xi, yi);
            var x, y := if o.mirrorX then p.w - 1 - xi else xi, if o.mirrorY then p.h - 1 - yi else yi;
            i / 8 < |enc| && ReadBit(enc, i) == (white(p.At(x, y)) != o.invert)
  {
    assert ReadBit(Wire(p, o, white), BitIndex(p.w, xi, yi)) == WalkBit(p, o, white, xi, yi);
    BitIndexInside(p.w, xi, yi, p.h);
  }

  // ----- scaling -----

  /** The scaled face lies inside the panel. */
  predicate ContentInside(o: EncodeOpts) {
    var ox, oy := Origin(SrcW(o), o.cw, o.offX), Origin(SrcH(o), o.ch, o.offY);
    0 <= ox && ox + o.cw <= SrcW(o) && 0 <= oy && oy + o.ch <= SrcH(o)
  }

  /** Panel pixel (x, y) shows face pixel (fx, fy). */
  predicate Samples(o: EncodeOpts, x: int, y: int, fx: int, fy: int) {
    var dx, dy := x - Origin(SrcW(o), o.cw, o.offX), y - Origin(SrcH(o), o.ch, o.offY);
    0 <= dx < o.cw && 0 <= dy < o.ch && dx * WIDTH / o.cw == fx && dy * HEIGHT / o.ch == fy
  }

  lemma Sampled(full: nat, c: nat, f: nat) returns (d: nat)
    requires f < full <= c
    ensures d < c && d * full / c == f
  {
    d := (f * c + full - 1) / full;
    assert d * full == f * c + full - 1 - (f * c + full - 1) % full;
    assert f * c <= d * full < f * c + c;
    GoArith.Quotient(d * full, c, f);
    GoArith.Scaled(f + 1, full, c);
    assert d * full < c * full;
    GoArith.Scaled(c, d, full);
  }

  /**
   Nearest-neighbour scaling: black panel pixels come from ink and stay within the face; and when the face
   is not shrunk and lands inside the panel, every ink pixel shows.
   */
  lemma ScalingKeepsInk(face: Picture, o: EncodeOpts)
    ensures forall x, y | PanelPic(face, o).Has(x, y) ::
              PanelPic(face, o).At(x, y) == BLACK
              <==> exists fx, fy :: Samples(o, x, y, fx, fy) && face.At(fx, fy) == 1
    ensures ContentInside(o) && o.cw >= WIDTH && o.ch >= HEIGHT ==>
              forall fx, fy | FaceInk(face, fx, fy) ::
                exists x, y :: PanelPic(face, o).Has(x, y) && Samples(o, x, y, fx, fy) &&
                               PanelPic(face, o).At(x, y) == BLACK
  {
    var p := PanelPic(face, o);
    var ox, oy := Origin(SrcW(o), o.cw, o.offX), Origin(SrcH(o), o.ch, o.offY);
    forall x, y | p.Has(x, y)
      ensures p.At(x, y) == BLACK <==> exists fx, fy :: Samples(o, x, y, fx, fy) && face.At(fx, fy) == 1
    {
      PanelSample(face, o, x, y);
    }
    if ContentInside(o) && o.cw >= WIDTH && o.ch >= HEIGHT {
      forall fx, fy | FaceInk(face, fx, fy)
        ensures exists x, y :: p.Has(x, y) && Samples(o, x, y, fx, fy) && p.At(x, y) == BLACK
      {
        var dx := Sampled(WIDTH, o.cw, fx);
        var dy := Sampled(HEIGHT, o.ch, fy);
        assert p.Has(ox + dx, oy + dy) && Samples(o, ox + dx, oy + dy, fx, fy);
        PanelSample(face, o, ox + dx, oy + dy);
      }
    }
  }

  lemma PanelSample(face: Picture, o: EncodeOpts, x: int, y: int)
    requires PanelPic(face, o).Has(x, y)
    ensures PanelPic(face, o).At(x, y) == BLACK
       <==> exists fx, fy :: Samples(o, x, y, fx, fy) && face.At(fx, fy) == 1
  {
    assert PanelPic(face, o).At(x, y) == Ink(FaceAt(face, o, x, y));
    var dx, dy := x - Origin(SrcW(o), o.cw, o.offX), y - Origin(SrcH(o), o.ch, o.offY);
    if 0 <= dx < o.cw && 0 <= dy < o.ch {
      var fx, fy := dx * WIDTH / o.cw, dy * HEIGHT / o.ch;
      assert Samples(o, x, y, fx, fy) && FaceAt(face, o, x, y) == face.At(fx, fy);
    }
  }

  // ----- the wire under any options -----

  /** Panel pixel (px, py) is one of those that pixel (u, v) stands for before rotation. */
  predicate Covers(tft: bool, px: int, py: int, u: int, v: int) {
    if tft then px / 2 == u && py == v / 2 else px == u && py == v
  }

  /** Some ink pixel of the face is shown by the panel pixels that (u, v) stands for. */
  ghost predicate Inked(face: Image, o: EncodeOpts, u: int, v: int) {
    exists px, py, fx, fy :: Covers(o.tft, px, py, u, v) && Samples(o, px, py, fx, fy) && face.At(fx, fy) == 1
  }

  lemma UnturnedInk(face: Picture, o: EncodeOpts, u: int, v: int)
    requires Unturned(face, o).Has(u, v)
    ensures WhiteLum(Unturned(face, o).At(u, v)) <==> !Inked(face, o, u, v)
  {
    var p := PanelPic(face, o);
    if o.tft {
      assert p.Has(2 * u, v / 2) && p.Has(2 * u + 1, v / 2);
      PanelSample(face, o, 2 * u, v / 2);
      PanelSample(face, o, 2 * u + 1, v / 2);
      PanelIsBinary(face, o, 2 * u, v / 2);
      PanelIsBinary(face, o, 2 * u + 1, v / 2);
      assert forall px, py :: Covers(true, px, py, u, v) <==> (px == 2 * u || px == 2 * u + 1) && py == v / 2;
    } else {
      PanelSample(face, o, u, v);
      PanelIsBinary(face, o, u, v);
    }
  }

  lemma PanelIsBinary(face: Picture, o: EncodeOpts, x: int, y: int)
    requires PanelPic(face, o).Has(x, y)
    ensures PanelPic(face, o).At(x, y) == BLACK || PanelPic(face, o).At(x, y) == WHITE
  {
  }

  /**
   The whole encoder, for every face and all options, without reference to its stages: the bit of the pixel
   that stands for panel pixels (u, v) before the rotation by q quarter turns is found where that rotation
   and the mirrored walk take it, at place `w * yi + xi` (`BitIndexIs`), and is white unless one of those
   panel pixels shows ink, xor `invert`.
   */
  lemma {:induction false} WireIsSampled(face: Picture, o: EncodeOpts, q: int, u: nat, v: nat)
    requires QuarterParts(o.rotation, q)
    requires if o.tft then u < SrcW(o) / 2 && v < 2 * SrcH(o) else u < SrcW(o) && v < SrcH(o)
    ensures var w0, h0 := if o.tft then SrcW(o) / 2 else SrcW(o), if o.tft then 2 * SrcH(o) else SrcH(o);
            var w, h := if q % 2 == 0 then w0 else h0, if q % 2 == 0 then h0 else w0;
            var (x, y) := Place(w0, h0, q % 4, u, v);
            var xi, yi := if o.mirrorX then w - 1 - x else x, if o.mirrorY then h - 1 - y else y;
            && 0 <= xi < w && 0 <= yi < h
            && ReadBit(Encoded(face, o), BitIndex(w, xi, yi)) == (!Inked(face, o, u, v) != o.invert)
  {
    assert Unturned(face, o).Has(u, v);
    UnturnedInk(face, o, u, v);
    QuartersOf(o.rotation, q);
    WireTurned(Unturned(face, o), o, q, u, v);
  }

  lemma WireTurned(base: Picture, o: EncodeOpts, q: int, u: int, v: int)
    requires base.Has(u, v)
    ensures var w, h := if q % 2 == 0 then base.w else base.h, if q % 2 == 0 then base.h else base.w;
            var (x, y) := Place(base.w, base.h, q % 4, u, v);
            var xi, yi := if o.mirrorX then w - 1 - x else x, if o.mirrorY then h - 1 - y else y;
            && 0 <= xi < w && 0 <= yi < h
            && ReadBit(Wire(Rotated(base, q), o, WhiteLum), BitIndex(w, xi, yi))
               == (WhiteLum(base.At(u, v)) != o.invert)
  {
    var p := Rotated(base, q);
    var (x, y) := Place(base.w, base.h, q % 4, u, v);
    RotationMoves(base, q, u, v);
    RotatedDims(base, q);
    ReadAt(p, o, WhiteLum, x, y);
  }

  /** Where the walk visits a pixel is where its bit is. */
  lemma ReadAt(p: Picture, o: EncodeOpts, white: byte -> bool, x: int, y: int)
    requires p.Has(x, y)
    ensures var xi, yi := if o.mirrorX then p.w - 1 - x else x, if o.mirrorY then p.h - 1 - y else y;
            && 0 <= xi < p.w && 0 <= yi < p.h
            && ReadBit(Wire(p, o, white), BitIndex(p.w, xi, yi)) == (white(p.At(x, y)) != o.invert)
  {
    var xi, yi := if o.mirrorX then p.w - 1 - x else x, if o.mirrorY then p.h - 1 - y else y;
    assert WalkBit(p, o, white, xi, yi) == (white(p.At(x, y)) != o.invert);
  }

  // ----- the two encoders -----

  /** The options under which no resampling takes place. */
  predicate Unscaled(o: EncodeOpts) {
    !o.tft && o.srcW == WIDTH && o.srcH == HEIGHT && o.cw == WIDTH && o.ch == HEIGHT && o.offX == o.offY == 0
  }

  ghost function InkPic(p: Picture): Picture {
    Build(p.w, p.h, (x, y) => Ink(p.At(x, y)))
  }

  lemma TurnInk(p: Picture)
    ensures Turn(InkPic(p)) == InkPic(Turn(p))
  {
    SamePixels(Turn(InkPic(p)), InkPic(Turn(p)));
  }

  lemma {:induction false} TurnsInk(p: Picture, n: nat)
    ensures Turns(InkPic(p), n) == InkPic(Turns(p, n))
    decreases n
  {
    if n > 0 {
      TurnsInk(p, n - 1);
      TurnInk(Turns(p, n - 1));
    }
  }

  lemma UnscaledPanel(face: Picture, o: EncodeOpts)
    requires Unscaled(o) && face.w == WIDTH && face.h == HEIGHT
    ensures PanelPic(face, o) == InkPic(face)
  {
    forall x, y | face.Has(x, y)
      ensures FaceAt(face, o, x, y) == face.At(x, y)
    {
      assert Origin(WIDTH, WIDTH, 0) == 0 && Origin(HEIGHT, HEIGHT, 0) == 0;
    }
    SamePixels(PanelPic(face, o), InkPic(face));
  }

  ghost predicate Binary(p: Image) {
    forall x, y | p.Has(x, y) :: p.At(x, y) <= 1
  }

  lemma {:induction false} TurnsBinary(p: Picture, n: nat)
    ensures Binary(Turns(p, n)) <==> Binary(p)
    decreases n
  {
    if n > 0 {
      TurnsBinary(p, n - 1);
      TurnBinary(Turns(p, n - 1));
    }
  }

  lemma TurnBinary(p: Picture)
    ensures Binary(Turn(p)) <==> Binary(p)
  {
    var q := Turn(p);
    forall x, y | p.Has(x, y)
      ensures q.Has(y, p.w - 1 - x) && p.At(x, y) == q.At(y, p.w - 1 - x)
    {
    }
    forall x, y | q.Has(x, y)
      ensures p.Has(p.w - 1 - y, x) && q.At(x, y) == p.At(p.w - 1 - y, x)
    {
    }
  }

  /**
   At the face's own size the resampling encoder and the native encoder of the rotated face send the
   same bytes, for every rotation, mirror and invert setting, exactly when the face uses only the
   palette indices 0 and 1.
   */
  lemma EncodersAgree(face: Picture, o: EncodeOpts)
    requires Unscaled(o) && face.w == WIDTH && face.h == HEIGHT
    ensures Encoded(face, o) == Wire(Rotated(face, GoArith.Div(o.rotation, 90)), o, WhiteIndex)
       <==> Binary(face)
  {
    var k := QuarterTurns(GoArith.Div(o.rotation, 90));
    var p, q := Turns(InkPic(face), k), Turns(face, k);
    UnscaledPanel(face, o);
    assert Framebuffer(face, o) == p;
    TurnsInk(face, k);
    TurnsBinary(face, k);
    SameBytes(q, o);
  }

  lemma SameBytes(q: Picture, o: EncodeOpts)
    ensures Wire(InkPic(q), o, WhiteLum) == Wire(q, o, WhiteIndex) <==> Binary(q)
  {
    var p := InkPic(q);
    if Binary(q) {
      forall xi, yi | 0 <= xi < p.w && 0 <= yi < p.h
        ensures WalkBit(p, o, WhiteLum, xi, yi) == WalkBit(q, o, WhiteIndex, xi, yi)
      {
        assert q.Has(Mirrored(o.mirrorX, q.w, xi), Mirrored(o.mirrorY, q.h, yi));
      }
      SameWire(Wire(p, o, WhiteLum), p, o, WhiteLum, Wire(q, o, WhiteIndex), q, o, WhiteIndex);
    } else {
      var x, y :| q.Has(x, y) && q.At(x, y) > 1;
      OtherIndex(q, o, x, y);
    }
  }

  lemma OtherIndex(q: Picture, o: EncodeOpts, x: int, y: int)
    requires q.Has(x, y) && q.At(x, y) > 1
    ensures Wire(InkPic(q), o, WhiteLum) != Wire(q, o, WhiteIndex)
  {
    var p := InkPic(q);
    var xi, yi := Mirrored(o.mirrorX, q.w, x), Mirrored(o.mirrorY, q.h, y);
    assert p.At(x, y) == WHITE;
    assert WalkBit(p, o, WhiteLum, xi, yi) != WalkBit(q, o, WhiteIndex, xi, yi);
  }

  // ----- mirroring both ways is a half turn -----

  function Flipped(o: EncodeOpts): EncodeOpts {
    o.(mirrorX := !o.mirrorX, mirrorY := !o.mirrorY)
  }

  function HalfTurned(o: EncodeOpts): EncodeOpts {
    o.(rotation := o.rotation + 180)
  }

  predicate WholeHalfTurn(rotation: int) {
    rotation >= 0 || rotation <= -180 || rotation % 90 == 0
  }

  lemma UnturnedIgnores(face: Picture, o: EncodeOpts, o': EncodeOpts)
    requires o' == o.(mirrorX := o'.mirrorX, mirrorY := o'.mirrorY, rotation := o'.rotation)
    ensures Unturned(face, o) == Unturned(face, o')
  {
    forall x, y
      ensures FaceAt(face, o, x, y) == FaceAt(face, o', x, y)
    {
    }
    SamePixels(PanelPic(face, o), PanelPic(face, o'));
  }

  lemma FlippedWalk(p: Picture, o: EncodeOpts)
    ensures Wire(p, Flipped(o), WhiteLum) == Wire(HalfTurn(p), HalfTurned(o), WhiteLum)
  {
    var q := HalfTurn(p);
    forall xi, yi | 0 <= xi < p.w && 0 <= yi < p.h
      ensures WalkBit(p, Flipped(o), WhiteLum, xi, yi) == WalkBit(q, HalfTurned(o), WhiteLum, xi, yi)
    {
      var x, y := Mirrored(o.mirrorX, p.w, xi), Mirrored(o.mirrorY, p.h, yi);
      assert q.At(x, y) == p.At(p.w - 1 - x, p.h - 1 - y);
    }
    SameWire(Wire(p, Flipped(o), WhiteLum), p, Flipped(o), WhiteLum,
             Wire(q, HalfTurned(o), WhiteLum), q, HalfTurned(o), WhiteLum);
  }

  lemma TurnCounts(rotation: int)
    ensures var k, k' := GoArith.Div(rotation, 90), GoArith.Div(rotation + 180, 90);
            if WholeHalfTurn(rotation) then k' == k + 2
            else var n, n' := QuarterTurns(k), QuarterTurns(k'); (n == 0 && n' == 1) || (n == 3 && n' == 0)
  {
    assert QuarterTurns(0) == 0 && QuarterTurns(1) == 1 && QuarterTurns(-1) == 3;
  }

  lemma FlippedTurns(g: Picture, k: int, o: EncodeOpts)
    ensures Wire(Rotated(g, k), Flipped(o), WhiteLum) == Wire(Rotated(g, k + 2), HalfTurned(o), WhiteLum)
  {
    HalfOf(g, k);
    FlippedWalk(Rotated(g, k), o);
  }

  lemma EncodedFrom(face: Picture, o: EncodeOpts, o': EncodeOpts)
    requires o' == o.(mirrorX := o'.mirrorX, mirrorY := o'.mirrorY, rotation := o'.rotation)
    ensures Encoded(face, o') == Wire(Rotated(Unturned(face, o), GoArith.Div(o'.rotation, 90)), o', WhiteLum)
  {
    UnturnedIgnores(face, o, o');
  }

  lemma FlipWith(face: Picture, o: EncodeOpts, k: int)
    requires GoArith.Div(o.rotation, 90) == k && GoArith.Div(o.rotation + 180, 90) == k + 2
    ensures Encoded(face, Flipped(o)) == Encoded(face, HalfTurned(o))
  {
    EncodedFrom(face, o, Flipped(o));
    EncodedFrom(face, o, HalfTurned(o));
    FlippedTurns(Unturned(face, o), k, o);
  }

  lemma HalfOf(g: Picture, k: int)
    ensures Rotated(g, k + 2) == HalfTurn(Rotated(g, k))
  {
    RotationAdds(g, k, 2);
    var p := Rotated(g, k);
    TwoTurns(p);
    assert Turns(p, 2) == Turn(Turns(p, 1)) == Turn(Turn(p));
  }

  /** A 2x2 panel whose only ink is its top left pixel, turned any way. */
  function Corner(rotation: int, flip: bool): EncodeOpts {
    EncodeOpts(false, rotation, flip, flip, false, 2, 2, 2, 1, 0, 0)
  }

  ghost function TwoByTwo(ix: int, iy: int): Picture {
    Build(2, 2, (x, y) => if x == ix && y == iy then BLACK else WHITE)
  }

  lemma CornerPixel(face: Image, o: EncodeOpts, x: int, y: int)
    requires o == Corner(o.rotation, o.mirrorX) && 0 <= x < 2 && 0 <= y < 2
    ensures FaceAt(face, o, x, y) == if y == 0 then face.At(125 * x, 0) else 0
  {
    assert Origin(2, 2, 0) == 0 && Origin(2, 1, 0) == 0;
    assert x * 250 / 2 == 125 * x;
    if y == 0 {
      assert y * HEIGHT / 1 == 0;
    }
  }

  /** A face with ink in its corner and none at the next pixel that this scale samples. */
  predicate Dotted(face: Image) {
    face.At(0, 0) == 1 && face.At(125, 0) != 1
  }

  lemma CornerPanel(face: Picture, o: EncodeOpts)
    requires o == Corner(o.rotation, o.mirrorX) && Dotted(face)
    ensures PanelPic(face, o) == TwoByTwo(0, 0)
  {
    var p, q := PanelPic(face, o), TwoByTwo(0, 0);
    forall x, y | p.Has(x, y)
      ensures p.At(x, y) == q.At(x, y)
    {
      CornerPixel(face, o, x, y);
    }
    SamePixels(p, q);
  }

  lemma TurnTwoByTwo(ix: int, iy: int)
    requires 0 <= ix < 2 && 0 <= iy < 2
    ensures Turn(TwoByTwo(ix, iy)) == TwoByTwo(iy, 1 - ix)
  {
    SamePixels(Turn(TwoByTwo(ix, iy)), TwoByTwo(iy, 1 - ix));
  }

  lemma {:induction false} CornerTurns(n: nat)
    requires n < 4
    ensures Turns(TwoByTwo(0, 0), n)
         == TwoByTwo(if n == 0 || n == 1 then 0 else 1, if n == 1 || n == 2 then 1 else 0)
    decreases n
  {
    if n > 0 {
      CornerTurns(n - 1);
      TurnTwoByTwo(if n <= 2 then 0 else 1, if n == 1 then 0 else 1);
    }
  }

  lemma CornerEncoded(face: Picture, o: EncodeOpts, n: nat)
    requires o == Corner(o.rotation, o.mirrorX) && Dotted(face)
    requires QuarterTurns(GoArith.Div(o.rotation, 90)) == n
    ensures Encoded(face, o) == Wire(Turns(TwoByTwo(0, 0), n), o, WhiteLum)
  {
    CornerPanel(face, o);
  }

  lemma TwoByTwoBit(ix: int, iy: int, o: EncodeOpts)
    requires o == Corner(o.rotation, o.mirrorX) && 0 <= ix < 2 && 0 <= iy < 2
    ensures !ReadBit(Wire(TwoByTwo(ix, iy), o, WhiteLum), 2)
       <==> ix == (if o.mirrorX then 1 else 0) && iy == (if o.mirrorX then 0 else 1)
  {
    var p := TwoByTwo(ix, iy);
    assert ReadBit(Wire(p, o, WhiteLum), BitIndex(2, 0, 1)) == WalkBit(p, o, WhiteLum, 0, 1);
    assert p.Has(Mirrored(o.mirrorX, 2, 0), Mirrored(o.mirrorY, 2, 1));
  }

  /** The wire bit at row 1, column 0 of the turned corner panel is black for one turn only. */
  lemma CornerBit(o: EncodeOpts, n: nat)
    requires o == Corner(o.rotation, o.mirrorX) && n < 4
    ensures !ReadBit(Wire(Turns(TwoByTwo(0, 0), n), o, WhiteLum), 2) <==> n == if o.mirrorX then 3 else 1
  {
    CornerTurns(n);
    TwoByTwoBit(if n == 0 || n == 1 then 0 else 1, if n == 1 || n == 2 then 1 else 0, o);
  }

  lemma WiresDiffer(o: EncodeOpts, n: nat, o': EncodeOpts, n': nat)
    requires o == Corner(o.rotation, true) && o' == Corner(o'.rotation, false) && n < 4 && n' < 4
    requires (n == 3) != (n' == 1)
    ensures Wire(Turns(TwoByTwo(0, 0), n), o, WhiteLum) != Wire(Turns(TwoByTwo(0, 0), n'), o', WhiteLum)
  {
    CornerBit(o, n);
    CornerBit(o', n');
  }

  lemma CornersDiffer(face: Picture, o: EncodeOpts, n: nat, o': EncodeOpts, n': nat)
    requires o == Corner(o.rotation, true) && o' == Corner(o'.rotation, false) && Dotted(face)
    requires QuarterTurns(GoArith.Div(o.rotation, 90)) == n
    requires QuarterTurns(GoArith.Div(o'.rotation, 90)) == n'
    requires (n == 3) != (n' == 1)
    ensures Encoded(face, o) != Encoded(face, o')
  {
    CornerEncoded(face, o, n);
    CornerEncoded(face, o', n');
    WiresDiffer(o, n, o', n');
  }

  /**
   Toggling both mirrors sends the same bytes as adding 180 degrees, whatever the face and the other
   options, exactly for the rotations that are not negative, or at most -180, or multiples of 90:
   Go's `/` truncates, so between -180 and 0 the other rotations lose a quarter turn.
   */
  lemma MirrorsAndHalfTurn(rotation: int)
    ensures (forall face: Picture, o: EncodeOpts | o.rotation == rotation ::
               Encoded(face, Flipped(o)) == Encoded(face, HalfTurned(o)))
       <==> WholeHalfTurn(rotation)
  {
    var k, k' := GoArith.Div(rotation, 90), GoArith.Div(rotation + 180, 90);
    TurnCounts(rotation);
    if WholeHalfTurn(rotation) {
      forall face: Picture, o: EncodeOpts | o.rotation == rotation
        ensures Encoded(face, Flipped(o)) == Encoded(face, HalfTurned(o))
      {
        FlipWith(face, o, k);
      }
    } else {
      var face := Build(1, 1, (_, _) => 1);
      assert face.Has(0, 0);
      var o := Corner(rotation, false);
      CornersDiffer(face, Flipped(o), QuarterTurns(k), HalfTurned(o), QuarterTurns(k'));
    }
  }

  // ----- the wire layout under the default options -----

  predicate Black(bytes: seq<byte>, r: nat, c: nat) {
    !ReadBit(bytes, 264 * r + c)
  }

  predicate FaceInk(face: Image, fx: int, fy: int) {
    0 <= fx < WIDTH && 0 <= fy < HEIGHT && face.At(fx, fy) == 1
  }

  lemma OneTurn(p: Picture, k: int)
    requires QuarterTurns(k) == 1
    ensures Rotated(p, k) == Turn(p)
  {
    assert Turns(p, 1) == Turn(Turns(p, 0));
  }

  lemma ReshapedTurn(face: Picture, o: EncodeOpts, x: nat, y: nat)
    requires o.tft && QuarterTurns(GoArith.Div(o.rotation, 90)) == 1
    requires x < 2 * SrcH(o) && y < SrcW(o) / 2
    ensures var p, dx := PanelPic(face, o), SrcW(o) / 2 - 1 - y;
            Framebuffer(face, o).At(x, y)
            == if p.At(2 * dx, x / 2) < ENC_THR || p.At(2 * dx + 1, x / 2) < ENC_THR then BLACK else WHITE
  {
    var p := PanelPic(face, o);
    OneTurn(ReshapePic(p), GoArith.Div(o.rotation, 90));
    TurnedReshape(p, x, y);
  }

  lemma TurnedReshape(p: Picture, x: nat, y: nat)
    requires x < 2 * p.h && y < p.w / 2
    ensures var dx := p.w / 2 - 1 - y;
            Turn(ReshapePic(p)).At(x, y)
            == if p.At(2 * dx, x / 2) < ENC_THR || p.At(2 * dx + 1, x / 2) < ENC_THR then BLACK else WHITE
  {
    var rz := ReshapePic(p);
    assert Turn(rz).Has(x, y) && rz.Has(rz.w - 1 - y, x);
    assert Turn(rz).At(x, y) == rz.At(rz.w - 1 - y, x);
  }

  lemma PanelInk(face: Picture, x: nat, y: nat)
    requires x < 250 && y < 132
    ensures PanelPic(face, DEFAULT_OPTS).At(x, y) == if FaceInk(face, x + 1, y - 10) then BLACK else WHITE
  {
    var o := DEFAULT_OPTS;
    assert Origin(250, 250, -1) == -1 && Origin(132, 122, 5) == 10;
    assert (x + 1) * 250 / 250 == x + 1 && (y - 10) * 122 / 122 == y - 10;
    assert PanelPic(face, o).Has(x, y);
    assert PanelPic(face, o).At(x, y) == Ink(FaceAt(face, o, x, y));
  }

  lemma DefaultShape()
    ensures SrcW(DEFAULT_OPTS) == 250 && SrcH(DEFAULT_OPTS) == 132
    ensures QuarterTurns(GoArith.Div(DEFAULT_OPTS.rotation, 90)) == 1
    ensures EncodedDims(DEFAULT_OPTS) == (264, 125)
  {
    assert GoArith.Div(90, 90) == 1 && QuarterTurns(1) == 1;
  }

  /** A pair of panel columns is black if either of its two face pixels is ink. */
  lemma PanelPair(face: Picture, dx: nat, y: nat)
    requires dx < 125 && y < 132
    ensures var p := PanelPic(face, DEFAULT_OPTS);
            p.At(2 * dx, y) < ENC_THR || p.At(2 * dx + 1, y) < ENC_THR
            <==> FaceInk(face, 2 * dx + 1, y - 10) || FaceInk(face, 2 * dx + 2, y - 10)
  {
    PanelInk(face, 2 * dx, y);
    PanelInk(face, 2 * dx + 1, y);
  }

  lemma DefaultPixel(face: Picture, x: nat, y: nat)
    requires x < 264 && y < 125
    ensures var fy := x / 2 - 10;
            WhiteLum(Framebuffer(face, DEFAULT_OPTS).At(x, y))
            <==> !(FaceInk(face, 249 - 2 * y, fy) || FaceInk(face, 250 - 2 * y, fy))
  {
    var dx, sy := 124 - y, x / 2;
    DefaultShape();
    ReshapedTurn(face, DEFAULT_OPTS, x, y);
    PanelPair(face, dx, sy);
    assert 2 * dx + 1 == 249 - 2 * y && 2 * dx + 2 == 250 - 2 * y;
  }

  lemma DefaultRead(face: Picture, r: nat, c: nat)
    requires r < 125 && c < 264
    ensures |Encoded(face, DEFAULT_OPTS)| == 4125
    ensures Black(Encoded(face, DEFAULT_OPTS), r, c) <==> !WhiteLum(Framebuffer(face, DEFAULT_OPTS).At(263 - c, r))
  {
    DefaultShape();
    EncodeThenDecode(face, DEFAULT_OPTS, 264, 125, c, r);
    assert Mirrored(DEFAULT_OPTS.mirrorX, 264, c) == 263 - c && Mirrored(DEFAULT_OPTS.mirrorY, 125, r) == r;
    BitIndexIs(264, c, r);
  }

  /** Bit `264 * r + c` is black exactly when one of the two face pixels it stands for is ink. */
  lemma DefaultLayout(face: Picture, r: nat, c: nat)
    requires r < 125 && c < 264
    ensures |Encoded(face, DEFAULT_OPTS)| == 4125
    ensures Black(Encoded(face, DEFAULT_OPTS), r, c)
       <==> var fy := (263 - c) / 2 - 10;
            FaceInk(face, 249 - 2 * r, fy) || FaceInk(face, 250 - 2 * r, fy)
  {
    DefaultRead(face, r, c);
    DefaultPixel(face, 263 - c, r);
  }

  /** Face pixel (fx, fy) is sent as bit (r, c). */
  predicate SentAs(fx: int, fy: int, r: int, c: int) {
    fx >= 1 && r == (250 - fx) / 2 && (c == 242 - 2 * fy || c == 243 - 2 * fy)
  }

  lemma SentBack(fx: int, fy: int, r: int, c: int)
    ensures SentAs(fx, fy, r, c) && 0 <= r < 125
       <==> 0 <= r < 125 && fy == (263 - c) / 2 - 10 && (fx == 249 - 2 * r || fx == 250 - 2 * r)
  {
  }

  /**
   The black bits on the wire are exactly the two bits of each ink pixel off column 0: every such pixel
   survives as two bits inside the buffer, nothing else is black, and only column 0 is clipped.
   */
  lemma WireIsInk(face: Picture)
    ensures forall r, c | 0 <= r < 125 && 0 <= c < 264 ::
              Black(Encoded(face, DEFAULT_OPTS), r, c)
              <==> exists fx, fy :: FaceInk(face, fx, fy) && SentAs(fx, fy, r, c)
    ensures forall fx, fy, r, c | 1 <= fx < WIDTH && 0 <= fy < HEIGHT && SentAs(fx, fy, r, c) ::
              0 <= r < 125 && 0 <= c < 264
  {
    forall r, c | 0 <= r < 125 && 0 <= c < 264
      ensures Black(Encoded(face, DEFAULT_OPTS), r, c)
         <==> exists fx, fy :: FaceInk(face, fx, fy) && SentAs(fx, fy, r, c)
    {
      var fy := (263 - c) / 2 - 10;
      DefaultLayout(face, r, c);
      SentBack(249 - 2 * r, fy, r, c);
      SentBack(250 - 2 * r, fy, r, c);
      forall fx, fy' | FaceInk(face, fx, fy') && SentAs(fx, fy', r, c)
        ensures Black(Encoded(face, DEFAULT_OPTS), r, c)
      {
        SentBack(fx, fy', r, c);
      }
    }
  }

  // ----- the preview -----

  /**
   The preview is what the wire says: three by three canvas pixels per framebuffer pixel (x, y), paper where
   the bit at that pixel's place in the walk is 1 and dark where it is 0.
   */
  lemma PreviewShowsWire(fb: Picture, o: EncodeOpts, x: nat, y: nat, i: nat, j: nat)
    requires x < fb.w && y < fb.h && i < 3 && j < 3
    ensures PreviewPic(fb, o.invert).w == 3 * fb.w && PreviewPic(fb, o.invert).h == 3 * fb.h
    ensures var xi, yi := if o.mirrorX then fb.w - 1 - x else x, if o.mirrorY then fb.h - 1 - y else y;
            && 0 <= xi < fb.w && 0 <= yi < fb.h
            && PreviewPic(fb, o.invert).At(3 * x + i, 3 * y + j)
               == if ReadBit(Wire(fb, o, WhiteLum), BitIndex(fb.w, xi, yi)) then PAPER else DARK
  {
    ReadAt(fb, o, WhiteLum, x, y);
    Tripled(fb, o.invert, x, y, i, j);
  }

  lemma Tripled(fb: Picture, invert: bool, x: nat, y: nat, i: nat, j: nat)
    requires x < fb.w && y < fb.h && i < 3 && j < 3
    ensures PreviewPic(fb, invert).w == 3 * fb.w && PreviewPic(fb, invert).h == 3 * fb.h
    ensures PreviewPic(fb, invert).At(3 * x + i, 3 * y + j) == if WhiteLum(fb.At(x, y)) != invert then PAPER else DARK
  {
    assert (3 * x + i) / 3 == x && (3 * y + j) / 3 == y;
    assert PreviewPic(fb, invert).Has(3 * x + i, 3 * y + j);
  }
}
