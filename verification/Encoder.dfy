/** The two encoders and the decoder of the panel's wire format. */
module Encoder {
  import opened Images
  import opened Packing
  import opened Panel
  import GoArith

  // ----- the walk -----

  /** The column or row visited i-th on an axis of the given size. */
  function Mirrored(mirror: bool, size: int, i: int): int {
    if mirror then size - 1 - i else i
  }

  /** The bit written for the pixel at column xi, row yi of the walk. */
  function WalkBit(p: Image, o: EncodeOpts, white: byte -> bool, xi: int, yi: int): bool {
    white(p.At(Mirrored(o.mirrorX, p.w, xi), Mirrored(o.mirrorY, p.h, yi))) != o.invert
  }

  ghost function WalkRow(p: Image, o: EncodeOpts, white: byte -> bool, yi: int, n: nat): (row: seq<bool>)
    ensures |row| == n
    ensures forall xi | 0 <= xi < n :: row[xi] == WalkBit(p, o, white, xi, yi)
  {
    if n == 0 then [] else WalkRow(p, o, white, yi, n - 1) + [WalkBit(p, o, white, n - 1, yi)]
  }

  /** The place of row yi, column xi of a walk over rows of width w. */
  function BitIndex(w: nat, xi: nat, yi: nat): nat
    decreases yi
  {
    if yi == 0 then xi else w + BitIndex(w, xi, yi - 1)
  }

  lemma {:induction false} BitIndexIs(w: nat, xi: nat, yi: nat)
    ensures BitIndex(w, xi, yi) == w * yi + xi
    decreases yi
  {
    if yi > 0 {
      BitIndexIs(w, xi, yi - 1);
    }
  }

  lemma {:induction false} BitIndexSplits(w: nat, xi: nat, yi: nat)
    ensures BitIndex(w, xi, yi) == BitIndex(w, 0, yi) + xi
    decreases yi
  {
    if yi > 0 {
      BitIndexSplits(w, xi, yi - 1);
    }
  }

  lemma {:induction false} BitIndexInside(w: nat, xi: nat, yi: nat, h: nat)
    requires xi < w && yi < h
    ensures BitIndex(w, xi, yi) < BitIndex(w, 0, h)
    decreases h
  {
    if yi == h - 1 {
      BitIndexSplits(w, xi, yi);
    } else {
      BitIndexInside(w, xi, yi, h - 1);
    }
  }

  /** The wire format: one bit per pixel in walk order, first bit most significant, zeros to the last byte's end. */
  ghost predicate IsWire(bytes: seq<byte>, p: Image, o: EncodeOpts, white: byte -> bool) {
    && |bytes| == (BitIndex(p.w, 0, p.h) + 7) / 8
    && (forall xi, yi {:trigger WalkBit(p, o, white, xi, yi)} | 0 <= xi < p.w && 0 <= yi < p.h ::
          ReadBit(bytes, BitIndex(p.w, xi, yi)) == WalkBit(p, o, white, xi, yi))
    && (forall j: nat :: !ReadBit(bytes, PadIndex(p.w, p.h, j)))
  }

  /** The j-th place after the last pixel's. */
  function PadIndex(w: nat, h: nat, j: nat): nat {
    BitIndex(w, 0, h) + j
  }

  /** The bits of the first n rows of the walk, row after row. */
  ghost function Walk(p: Image, o: EncodeOpts, white: byte -> bool, n: nat): seq<bool> {
    if n == 0 then [] else Walk(p, o, white, n - 1) + WalkRow(p, o, white, n - 1, p.w)
  }

  /** Row yi, column xi of the walk is bit `yi * w + xi`. */
  lemma {:induction false} WalkIndex(p: Image, o: EncodeOpts, white: byte -> bool, n: nat, xi: nat, yi: nat)
    requires xi < p.w && yi < n
    ensures BitIndex(p.w, xi, yi) < |Walk(p, o, white, n)|
    ensures Walk(p, o, white, n)[BitIndex(p.w, xi, yi)] == WalkBit(p, o, white, xi, yi)
  {
    var earlier, row := Walk(p, o, white, n - 1), WalkRow(p, o, white, n - 1, p.w);
    if yi < n - 1 {
      WalkIndex(p, o, white, n - 1, xi, yi);
      Among(earlier, row, BitIndex(p.w, xi, yi));
    } else {
      WalkLength(p, o, white, yi);
      BitIndexSplits(p.w, xi, yi);
      Among(row, [], xi);
    }
  }

  lemma Among(a: seq<bool>, b: seq<bool>, k: nat)
    requires k < |a|
    ensures (a + b)[k] == a[k]
  {
  }

  lemma {:induction false} WalkLength(p: Image, o: EncodeOpts, white: byte -> bool, n: nat)
    ensures |Walk(p, o, white, n)| == BitIndex(p.w, 0, n)
  {
    if n > 0 {
      WalkLength(p, o, white, n - 1);
    }
  }

  lemma WalkIsWire(p: Image, o: EncodeOpts, white: byte -> bool)
    ensures IsWire(PackBits(Walk(p, o, white, p.h)), p, o, white)
  {
    var bits := Walk(p, o, white, p.h);
    WalkLength(p, o, white, p.h);
    forall xi, yi | 0 <= xi < p.w && 0 <= yi < p.h
      ensures ReadBit(PackBits(bits), BitIndex(p.w, xi, yi)) == WalkBit(p, o, white, xi, yi)
    {
      WalkIndex(p, o, white, p.h, xi, yi);
      PackThenRead(bits, BitIndex(p.w, xi, yi));
    }
    forall j: nat
      ensures !ReadBit(PackBits(bits), PadIndex(p.w, p.h, j))
    {
      PackThenRead(bits, PadIndex(p.w, p.h, j));
    }
  }

  /** The bytes on the wire for a picture. */
  ghost function Wire(p: Image, o: EncodeOpts, white: byte -> bool): (bytes: seq<byte>)
    ensures IsWire(bytes, p, o, white)
  {
    WalkIsWire(p, o, white);
    var bytes :| IsWire(bytes, p, o, white);
    bytes
  }

  lemma {:induction false} PlaceOf(i: nat, w: nat, h: nat) returns (xi: nat, yi: nat)
    requires i < BitIndex(w, 0, h)
    ensures xi < w && yi < h && BitIndex(w, xi, yi) == i
    decreases h
  {
    if i < BitIndex(w, 0, h - 1) {
      xi, yi := PlaceOf(i, w, h - 1);
    } else {
      xi, yi := i - BitIndex(w, 0, h - 1), h - 1;
      BitIndexSplits(w, xi, yi);
    }
  }

  lemma SameBit(a: seq<byte>, p: Image, o: EncodeOpts, f: byte -> bool,
                b: seq<byte>, q: Image, o': EncodeOpts, g: byte -> bool, i: nat)
    requires IsWire(a, p, o, f) && IsWire(b, q, o', g) && p.w == q.w && p.h == q.h
    requires forall xi, yi | 0 <= xi < p.w && 0 <= yi < p.h :: WalkBit(p, o, f, xi, yi) == WalkBit(q, o', g, xi, yi)
    ensures ReadBit(a, i) == ReadBit(b, i)
  {
    if i < BitIndex(p.w, 0, p.h) {
      var xi, yi := PlaceOf(i, p.w, p.h);
      assert WalkBit(p, o, f, xi, yi) == WalkBit(q, o', g, xi, yi);
    } else {
      assert i == PadIndex(p.w, p.h, i - BitIndex(p.w, 0, p.h));
    }
  }

  /** The wire format leaves no choice: pictures of one size whose walks agree bit by bit have the same bytes. */
  lemma SameWire(a: seq<byte>, p: Image, o: EncodeOpts, f: byte -> bool,
                 b: seq<byte>, q: Image, o': EncodeOpts, g: byte -> bool)
    requires IsWire(a, p, o, f) && IsWire(b, q, o', g) && p.w == q.w && p.h == q.h
    requires forall xi, yi | 0 <= xi < p.w && 0 <= yi < p.h :: WalkBit(p, o, f, xi, yi) == WalkBit(q, o', g, xi, yi)
    ensures a == b
  {
    forall i: nat
      ensures ReadBit(a, i) == ReadBit(b, i)
    {
      SameBit(a, p, o, f, b, q, o', g, i);
    }
    SameReads(a, b);
  }

  lemma WireIsWalk(p: Image, o: EncodeOpts, white: byte -> bool)
    ensures Wire(p, o, white) == PackBits(Walk(p, o, white, p.h))
  {
    WalkIsWire(p, o, white);
    SameWire(Wire(p, o, white), p, o, white, PackBits(Walk(p, o, white, p.h)), p, o, white);
  }

  // ----- the encoders -----

  predicate WhiteLum(v: byte) {
    v > ENC_THR
  }

  predicate WhiteIndex(v: byte) {
    v == 0
  }

  /** The bytes the encoder sends for a face. */
  ghost function Encoded(face: Picture, o: EncodeOpts): seq<byte> {
    Wire(Framebuffer(face, o), o, WhiteLum)
  }

  method GiciskyEncodeOpts(img: array2<byte>, o: EncodeOpts) returns (out: seq<byte>)
    ensures out == Encoded(Pic(img), o)
  {
    var g := GrayPanel(img, o);
    if o.tft {
      g := Reshape(g);
    }
    g := RotateCCW(g, GoArith.Div(o.rotation, 90));
    out := EmitGray(g, o);
  }

  /** The encoder's walk over the gray framebuffer. */
  method EmitGray(img: array2<byte>, o: EncodeOpts) returns (out: seq<byte>)
    ensures out == Wire(Pic(img), o, WhiteLum)
  {
    var bw := new BitWriter();
    for yi := 0 to img.Length0
      invariant fresh(bw) && bw.Valid()
      invariant bw.bits == Walk(Pic(img), o, WhiteLum, yi)
    {
      EmitGrayRow(img, o, yi, bw);
    }
    out := bw.Flush();
    WireIsWalk(Pic(img), o, WhiteLum);
  }

  function EmitGrayBit(img: array2<byte>, o: EncodeOpts, xi: nat, yi: nat): (white: bool)
    requires xi < img.Length1 && yi < img.Length0
    reads img
    ensures white == WalkBit(Pic(img), o, WhiteLum, xi, yi)
  {
    var w, h := img.Length1, img.Length0;
    var y := if o.mirrorY then h - 1 - yi else yi;
    var x := if o.mirrorX then w - 1 - xi else xi;
    var white := PixelAt(img, x, y) > ENC_THR;
    if o.invert then !white else white
  }

  method EmitGrayRow(img: array2<byte>, o: EncodeOpts, yi: nat, bw: BitWriter)
    requires bw.Valid() && yi < img.Length0
    modifies bw
    ensures bw.Valid()
    ensures bw.bits == old(bw.bits) + WalkRow(Pic(img), o, WhiteLum, yi, img.Length1)
  {
    for xi := 0 to img.Length1
      invariant bw.Valid()
      invariant bw.bits == old(bw.bits) + WalkRow(Pic(img), o, WhiteLum, yi, xi)
    {
      bw.Emit(EmitGrayBit(img, o, xi, yi));
    }
  }

  /** The native encoder's own walk, over palette indices. */
  method PackNative(img: array2<byte>, o: EncodeOpts) returns (out: seq<byte>)
    ensures out == Wire(Pic(img), o, WhiteIndex)
  {
    var bw := new BitWriter();
    for yi := 0 to img.Length0
      invariant fresh(bw) && bw.Valid()
      invariant bw.bits == Walk(Pic(img), o, WhiteIndex, yi)
    {
      PackNativeRow(img, o, yi, bw);
    }
    out := bw.Flush();
    WireIsWalk(Pic(img), o, WhiteIndex);
  }

  function PackNativeBit(img: array2<byte>, o: EncodeOpts, xi: nat, yi: nat): (white: bool)
    requires xi < img.Length1 && yi < img.Length0
    reads img
    ensures white == WalkBit(Pic(img), o, WhiteIndex, xi, yi)
  {
    var w, h := img.Length1, img.Length0;
    var y := if o.mirrorY then h - 1 - yi else yi;
    var x := if o.mirrorX then w - 1 - xi else xi;
    var white := PixelAt(img, x, y) == 0;
    if o.invert then !white else white
  }

  method PackNativeRow(img: array2<byte>, o: EncodeOpts, yi: nat, bw: BitWriter)
    requires bw.Valid() && yi < img.Length0
    modifies bw
    ensures bw.Valid()
    ensures bw.bits == old(bw.bits) + WalkRow(Pic(img), o, WhiteIndex, yi, img.Length1)
  {
    for xi := 0 to img.Length1
      invariant bw.Valid()
      invariant bw.bits == old(bw.bits) + WalkRow(Pic(img), o, WhiteIndex, yi, xi)
    {
      bw.Emit(PackNativeBit(img, o, xi, yi));
    }
  }

  // ----- the decoder -----

  const SCALE: nat := 3

  /** Colors of the preview canvas; a pixel never set stays transparent. */
  const CLEAR: byte := 0
  const PAPER: byte := 1
  const DARK: byte := 2

  /** The preview a faithful decoder draws: each framebuffer pixel, inverted as on the wire, tripled. */
  ghost function PreviewPic(fb: Image, invert: bool): Picture {
    Build(SCALE * fb.w, SCALE * fb.h, (x, y) => PreviewColor(fb, invert, x, y))
  }

  function PreviewColor(fb: Image, invert: bool, x: int, y: int): byte {
    if WhiteLum(fb.At(x / SCALE, y / SCALE)) != invert then PAPER else DARK
  }

  /**
   The decoder redraws the framebuffer from the bytes alone: whatever the options, each of its pixels
   comes back at its place with its whiteness xor `invert`, and no preview pixel is left unset.
   */
  method EncodedPreviewOpts(img: array2<byte>, o: EncodeOpts) returns (out: array2<byte>)
    ensures Pic(out) == PreviewPic(Framebuffer(Pic(img), o), o.invert)
  {
    var enc := GiciskyEncodeOpts(img, o);
    ghost var fb := Framebuffer(Pic(img), o);
    DimsAgree(Pic(img), o);
    var (fbW, fbH) := EncodedDims(o);
    out := DrawBits(enc, fbW, fbH, o, fb);
  }

  method DrawBits(enc: seq<byte>, fbW: nat, fbH: nat, o: EncodeOpts, ghost fb: Picture)
    returns (out: array2<byte>)
    requires fbW == fb.w && fbH == fb.h
    requires enc == Wire(fb, o, WhiteLum)
    ensures Pic(out) == PreviewPic(fb, o.invert)
  {
    ghost var goal := PreviewPic(fb, o.invert);
    out := new byte[fbH * SCALE, fbW * SCALE]((_, _) => CLEAR);
    var i := 0;
    for yi := 0 to fbH
      invariant i == BitIndex(fbW, 0, yi)
      invariant forall r, c | 0 <= r < out.Length0 && 0 <= c < out.Length1 &&
                              Mirrored(o.mirrorY, fbH, r / SCALE) < yi ::
          out[r, c] == goal.At(c, r)
    {
      var y := if o.mirrorY then fbH - 1 - yi else yi;
      i := DrawRow(enc, i, out, y, yi, o, fb);
    }
    SamePixels(Pic(out), goal);
  }

  method DrawRow(enc: seq<byte>, i0: nat, out: array2<byte>, y: nat, yi: nat, o: EncodeOpts, ghost fb: Picture)
    returns (i: nat)
    requires out.Length1 == fb.w * SCALE && out.Length0 == fb.h * SCALE
    requires enc == Wire(fb, o, WhiteLum)
    requires yi < fb.h && y == Mirrored(o.mirrorY, fb.h, yi) && i0 == BitIndex(fb.w, 0, yi)
    modifies out
    ensures i == i0 + fb.w
    ensures forall r, c | 0 <= r < out.Length0 && 0 <= c < out.Length1 ::
        out[r, c] == if r / SCALE == y then PreviewPic(fb, o.invert).At(c, r) else old(out[r, c])
  {
    var fbW := out.Length1 / SCALE;
    i := i0;
    for xi := 0 to fbW
      invariant i == i0 + xi
      invariant forall r, c | 0 <= r < out.Length0 && 0 <= c < out.Length1 ::
          out[r, c] ==
            if r / SCALE == y && Mirrored(o.mirrorX, fbW, c / SCALE) < xi
            then PreviewColor(fb, o.invert, c, r) else old(out[r, c])
    {
      var x := if o.mirrorX then fbW - 1 - xi else xi;
      BitIndexSplits(fb.w, xi, yi);
      var white := ReadBit(enc, i);
      assert white == WalkBit(fb, o, WhiteLum, xi, yi);
      Put(out, x, y, if white then PAPER else DARK);
      i := i + 1;
    }
  }

  method Put(out: array2<byte>, x: int, y: int, c: byte)
    requires 0 <= x && x * SCALE + SCALE <= out.Length1
    requires 0 <= y && y * SCALE + SCALE <= out.Length0
    modifies out
    ensures forall i, j | 0 <= j < out.Length1 && 0 <= i < out.Length0 ::
      out[i, j] == if i / SCALE == y && j / SCALE == x then c else old(out[i, j])
  {
    for sy := 0 to SCALE
      invariant forall i, j | 0 <= j < out.Length1 && 0 <= i < out.Length0 ::
        out[i, j] == if 0 <= i - y * SCALE < sy && j / SCALE == x then c else old(out[i, j])
    {
      for sx := 0 to SCALE
        invariant forall i, j | 0 <= j < out.Length1 && 0 <= i < out.Length0 ::
          out[i, j] ==
            if (0 <= i - y * SCALE < sy && j / SCALE == x) || (i - y * SCALE == sy && 0 <= j - x * SCALE < sx)
            then c else old(out[i, j])
      {
        out[y * SCALE + sy, x * SCALE + sx] := c;
      }
    }
  }
}
