/** The procedural checkerboard texture of the lighting demo
    (`Gui.createCheckboardTexture`): a `texSize` by `texSize` RGBA image of
    `numChecks` by `numChecks` black and white squares. */
module Checkerboard {
  import opened Common

  /** The square a row or column index falls in: the floor of
      `i / (texSize / numChecks)` in exact arithmetic. With no checks the
      square size is infinite and every index falls in square 0. */
  function Patch(i: nat, size: nat, checks: nat): nat {
    if checks == 0 || size == 0 then 0 else (i * checks) / size
  }

  /** The grey level of pixel (i, j): white where the two squares differ in
      parity, black where they agree. */
  function Texel(size: nat, checks: nat, i: nat, j: nat): Byte {
    if Patch(i, size, checks) % 2 != Patch(j, size, checks) % 2 then 255 else 0
  }

  /** Byte k of the image: pixel p = k / 4 is pixel (p / size, p % size);
      its first three bytes hold the grey level, the last an opaque alpha. */
  function ByteAt(size: nat, checks: nat, k: nat): Byte
    requires size > 0
  {
    if k % 4 == 3 then 255 else Texel(size, checks, k / 4 / size, k / 4 % size)
  }

  /** The whole image, `texSize * texSize` pixels of four bytes each. */
  function Checkers(size: nat, checks: nat): (bytes: seq<Byte>)
    ensures |bytes| == 4 * (size * size)
    ensures forall k :: 0 <= k < |bytes| ==> size > 0 && bytes[k] == ByteAt(size, checks, k)
  {
    if size == 0 then [] else seq(4 * (size * size), k requires 0 <= k => ByteAt(size, checks, k))
  }

  /** Where the source writes pixel (i, j). */
  function Offset(size: nat, i: nat, j: nat): nat {
    4 * i * size + 4 * j
  }

  /** Pixel (i, j) sits at byte offset `4 * i * size + 4 * j`: three grey
      bytes, then alpha 255. */
  lemma PixelBytes(size: nat, checks: nat, i: nat, j: nat)
    requires i < size && j < size
    ensures var o, c := Offset(size, i, j), Texel(size, checks, i, j);
            o + 4 <= |Checkers(size, checks)| && Checkers(size, checks)[o..o + 4] == [c, c, c, 255]
  {
    var p := i * size + j;
    MulLe(i + 1, size, size);
    DivModUnique(p, size, i, j);
    var o := Offset(size, i, j);
    assert o == 4 * p;
    DivModUnique(o, 4, p, 0);
    DivModUnique(o + 1, 4, p, 1);
    DivModUnique(o + 2, 4, p, 2);
    DivModUnique(o + 3, 4, p, 3);
  }

  /** The pixel after the last of row i is the first of row i + 1. */
  lemma NextRow(size: nat, i: nat)
    ensures Offset(size, i, size) == Offset(size, i + 1, 0)
  {
  }

  /** Builds the image row by row as the nested loops of the source do;
      each inner step fills the four bytes of one pixel, at the offset just
      past the previous pixel's. */
  method CreateCheckerboard(size: nat, checks: nat) returns (bytes: seq<Byte>)
    ensures bytes == Checkers(size, checks)
  {
    ghost var all := Checkers(size, checks);
    bytes := [];
    var i := 0;
    while i < size
      invariant 0 <= i <= size
      invariant |bytes| == Offset(size, i, 0) <= |all|
      invariant bytes == all[..|bytes|]
    {
      var j := 0;
      while j < size
        invariant 0 <= j <= size
        invariant |bytes| == Offset(size, i, j) <= |all|
        invariant bytes == all[..|bytes|]
      {
        var c := Texel(size, checks, i, j);
        PixelBytes(size, checks, i, j);
        var o := |bytes|;
        assert all[..o + 4] == all[..o] + all[o..o + 4];
        bytes := bytes + [c, c, c, 255];
        j := j + 1;
      }
      NextRow(size, i);
      i := i + 1;
    }
    assert |bytes| == |all|;
  }

  /** Every pixel is grey (R = G = B), black or white, and opaque. */
  lemma PixelsGreyAndOpaque(size: nat, checks: nat, p: nat)
    requires p < size * size
    ensures var bytes := Checkers(size, checks);
            4 * p + 3 < |bytes| &&
            bytes[4 * p] == bytes[4 * p + 1] == bytes[4 * p + 2] &&
            (bytes[4 * p] == 0 || bytes[4 * p] == 255) &&
            bytes[4 * p + 3] == 255
  {
    DivModUnique(4 * p, 4, p, 0);
    DivModUnique(4 * p + 1, 4, p, 1);
    DivModUnique(4 * p + 2, 4, p, 2);
    DivModUnique(4 * p + 3, 4, p, 3);
  }

  /** When the number of checks divides the size, each square is
      `size / checks` pixels wide, and pixel (i, j) is white exactly when
      its row square and its column square differ in parity. */
  lemma ParityWhenDivides(size: nat, checks: nat, i: nat, j: nat)
    requires checks > 0 && size % checks == 0 && i < size && j < size
    ensures var w := size / checks;
            w > 0 && (Texel(size, checks, i, j) == 255 <==> (i / w) % 2 != (j / w) % 2)
  {
    var w := size / checks;
    DivModUnique(size, checks, w, 0);
    assert size == w * checks;
    PatchOfWidth(i, w, checks);
    PatchOfWidth(j, w, checks);
  }

  /** With squares of width `w`, the square of index i is `i / w`. */
  lemma PatchOfWidth(i: nat, w: nat, checks: nat)
    requires checks > 0 && w > 0
    ensures Patch(i, w * checks, checks) == i / w
  {
    var size := w * checks;
    var q, r := i / w, i % w;
    assert i * checks == q * size + r * checks by {
      assert i == q * w + r;
    }
    MulLe(r + 1, w, checks);
    DivModUnique(i * checks, size, q, r * checks);
  }

  /** The image is symmetric about its diagonal: pixel (i, j) and pixel
      (j, i) hold the same bytes. */
  lemma Symmetric(size: nat, checks: nat, i: nat, j: nat)
    requires i < size && j < size
    ensures var bytes, o, o' := Checkers(size, checks), Offset(size, i, j), Offset(size, j, i);
            o + 4 <= |bytes| && o' + 4 <= |bytes| && bytes[o..o + 4] == bytes[o'..o' + 4]
  {
    PixelBytes(size, checks, i, j);
    PixelBytes(size, checks, j, i);
  }

  /** Without checks the image is black: every grey byte is 0. */
  lemma NoChecksBlack(size: nat, i: nat, j: nat)
    requires i < size && j < size
    ensures var o := Offset(size, i, j);
            o + 4 <= |Checkers(size, 0)| && Checkers(size, 0)[o..o + 4] == [0, 0, 0, 255]
  {
    PixelBytes(size, 0, i, j);
  }
}
