/**
 Raster images.  A `Picture` is the value of an image; an `array2<byte>` indexed [row, column] is the
 buffer that the renderer fills.  A buffer stands for both of the library's image kinds, gray and
 paletted: reading outside the bounds yields 0 and writing outside the bounds does nothing in both.
 */
module Images {

  type byte = b: int | 0 <= b < 256

  datatype Image = Image(w: nat, h: nat, rows: seq<seq<byte>>) {
    ghost predicate Valid() {
      |rows| == h && forall y | 0 <= y < h :: |rows[y]| == w
    }

    predicate Has(x: int, y: int) {
      0 <= x < w && 0 <= y < h
    }

    /** The pixel at (x, y), 0 outside the bounds. */
    function At(x: int, y: int): byte {
      if 0 <= y < |rows| && 0 <= x < |rows[y]| then rows[y][x] else 0
    }
  }

  type Picture = im: Image | im.Valid() witness Image(0, 0, [])

  /** p is the picture of the given size whose pixels f describes. */
  ghost predicate IsBuilt(p: Picture, w: nat, h: nat, f: (int, int) -> byte) {
    p.w == w && p.h == h && forall x, y {:trigger p.At(x, y)} | p.Has(x, y) :: p.At(x, y) == f(x, y)
  }

  lemma CanBuild(w: nat, h: nat, f: (int, int) -> byte)
    ensures exists p: Picture :: IsBuilt(p, w, h, f)
  {
    var p: Picture := Image(w, h, seq(h, y => seq(w, x => f(x, y))));
    assert IsBuilt(p, w, h, f);
  }

  ghost function Build(w: nat, h: nat, f: (int, int) -> byte): (p: Picture)
    ensures IsBuilt(p, w, h, f)
  {
    CanBuild(w, h, f);
    var p: Picture :| IsBuilt(p, w, h, f);
    p
  }

  /** Pictures are determined by their dimensions and pixels. */
  lemma SamePixels(p: Picture, q: Picture)
    requires p.w == q.w && p.h == q.h
    requires forall x, y {:trigger p.At(x, y)} | p.Has(x, y) :: p.At(x, y) == q.At(x, y)
    ensures p == q
  {
    forall y | 0 <= y < p.h
      ensures p.rows[y] == q.rows[y]
    {
      forall x | 0 <= x < p.w
        ensures p.rows[y][x] == q.rows[y][x]
      {
        assert p.Has(x, y);
        assert p.At(x, y) == q.At(x, y);
      }
    }
    assert p.rows == q.rows;
  }

  /** p is the picture a buffer holds. */
  ghost predicate Holds(a: array2<byte>, p: Picture)
    reads a
  {
    && p.w == a.Length1 && p.h == a.Length0
    && forall x, y {:trigger p.At(x, y)} | p.Has(x, y) :: p.At(x, y) == a[y, x]
  }

  lemma CanRead(a: array2<byte>)
    ensures exists p: Picture :: Holds(a, p)
  {
    var p: Picture := Image(a.Length1, a.Length0,
                            seq(a.Length0, y requires 0 <= y < a.Length0 reads a =>
                              seq(a.Length1, x requires 0 <= x < a.Length1 reads a => a[y, x])));
    assert Holds(a, p);
  }

  /** The value of a buffer. */
  ghost function Pic(a: array2<byte>): (p: Picture)
    reads a
    ensures Holds(a, p)
  {
    CanRead(a);
    var p: Picture :| Holds(a, p);
    p
  }

  /** GrayAt and ColorIndexAt. */
  function PixelAt(a: array2<byte>, x: int, y: int): (v: byte)
    reads a
    ensures v == Pic(a).At(x, y)
  {
    if 0 <= x < a.Length1 && 0 <= y < a.Length0 then a[y, x] else 0
  }
}
