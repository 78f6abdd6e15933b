/** Turning cairo pixels, whose colours are multiplied by alpha, into pixbuf pixels (red, green, blue,
    alpha), in images whose rows may have padding. A cairo pixel is a word: its bytes are blue, green,
    red and alpha on a little-endian machine and the other way round on a big-endian one. */
module Pixels {
  type Byte = x: int | 0 <= x < 256

  /** Dividing a colour by alpha: an unsigned int that is then stored in an unsigned char. */
  function Unmul(c: Byte, a: Byte): Byte {
    (if a == 0 then 0 else c * 255 / a) % 256
  }

  /** Multiplying by alpha, rounding up. */
  function Premul(u: Byte, a: Byte): int {
    (u * a + 254) / 255
  }

  /** The shape of an image. The bytes of a row behind its pixels are padding, which the last row
      need not have. */
  datatype Shape = Shape(width: nat, height: nat, stride: nat, littleEndian: bool) {
    /** Which byte of a cairo pixel is which. */
    const red: nat := if littleEndian then 2 else 1
    const green: nat := if littleEndian then 1 else 2
    const blue: nat := if littleEndian then 0 else 3
    const alpha: nat := if littleEndian then 3 else 0

    predicate Valid() {
      stride >= 4 * width
    }

    function At(i: nat, j: nat): nat {
      i * stride + 4 * j
    }

    predicate Fits(length: nat) {
      height > 0 ==> At(height - 1, width) <= length
    }
  }

  /** The pixel at p of the source has become the one at p of the result. */
  predicate Becomes(src: seq<Byte>, out: seq<Byte>, shape: Shape, p: nat) {
    && p + 3 < |src| && p + 3 < |out|
    && out[p] == Unmul(src[p + shape.red], src[p + shape.alpha])
    && out[p + 1] == Unmul(src[p + shape.green], src[p + shape.alpha])
    && out[p + 2] == Unmul(src[p + shape.blue], src[p + shape.alpha])
    && out[p + 3] == src[p + shape.alpha]
  }

  predicate InRow(shape: Shape, i: nat, k: nat) {
    shape.At(i, 0) <= k < shape.At(i, shape.width)
  }

  /** Every pixel has been converted, and every byte that is in no pixel is untouched. */
  predicate Converted(dst: seq<Byte>, src: seq<Byte>, out: seq<Byte>, shape: Shape) {
    && |out| == |dst|
    && (forall i, j :: 0 <= i < shape.height && 0 <= j < shape.width ==> Becomes(src, out, shape, shape.At(i, j)))
    && (forall k :: 0 <= k < |out| && (forall i :: 0 <= i < shape.height ==> !InRow(shape, i, k)) ==> out[k] == dst[k])
  }

  // ---------------------------------------------------------------- the loops

  lemma RowsInOrder(shape: Shape, i: nat, k: nat)
    requires i <= k
    ensures shape.At(i, 0) <= shape.At(k, 0)
    ensures i < k ==> shape.At(i, 0) + shape.stride <= shape.At(k, 0)
  {
    if i < k {
      assert (i + 1) * shape.stride <= k * shape.stride;
    }
  }

  lemma PixelFits(shape: Shape, length: nat, i: nat, j: nat)
    requires shape.Valid() && shape.Fits(length) && i < shape.height && j < shape.width
    ensures shape.At(i, j) + 3 < length
  {
    RowsInOrder(shape, i, shape.height - 1);
  }

  lemma NextPixel(shape: Shape, i: nat, j: nat)
    ensures shape.At(i, j + 1) == shape.At(i, j) + 4
    ensures shape.At(i + 1, 0) == shape.At(i, 0) + shape.stride
    ensures shape.At(i, j) == shape.At(i, 0) + 4 * j
  {
  }

  /** The rows before i and the pixels before j in row i are converted, the rest is untouched. */
  ghost predicate Progress(dst: seq<Byte>, src: seq<Byte>, now: seq<Byte>, shape: Shape, i: nat, j: nat) {
    && |now| == |dst|
    && (forall r, c :: 0 <= r < i && 0 <= c < shape.width ==> Becomes(src, now, shape, shape.At(r, c)))
    && (forall c :: 0 <= c < j ==> Becomes(src, now, shape, shape.At(i, c)))
    && (forall k :: shape.At(i, j) <= k < |now| ==> now[k] == dst[k])
    && (forall k :: 0 <= k < |now| && (forall r :: 0 <= r < shape.height ==> !InRow(shape, r, k)) ==> now[k] == dst[k])
  }

  /** Writing the pixel (i, j) is progress, because pixels do not overlap. */
  lemma OnePixel(dst: seq<Byte>, src: seq<Byte>, now: seq<Byte>, next: seq<Byte>, shape: Shape, i: nat, j: nat)
    requires shape.Valid() && i < shape.height && j < shape.width
    requires Progress(dst, src, now, shape, i, j)
    requires |next| == |now| && Becomes(src, next, shape, shape.At(i, j))
    requires forall k :: 0 <= k < |now| && !(shape.At(i, j) <= k < shape.At(i, j) + 4) ==> next[k] == now[k]
    ensures Progress(dst, src, next, shape, i, j + 1)
  {
    var p := shape.At(i, j);
    NextPixel(shape, i, j);
    forall r, c | 0 <= r < i && 0 <= c < shape.width ensures Becomes(src, next, shape, shape.At(r, c)) {
      RowsInOrder(shape, r, i);
      NextPixel(shape, r, c);
      assert Becomes(src, now, shape, shape.At(r, c));
    }
    forall c | 0 <= c < j + 1 ensures Becomes(src, next, shape, shape.At(i, c)) {
      NextPixel(shape, i, c);
      assert c < j ==> Becomes(src, now, shape, shape.At(i, c));
    }
    forall k | 0 <= k < |next| && forall r :: 0 <= r < shape.height ==> !InRow(shape, r, k) ensures next[k] == dst[k] {
      assert !InRow(shape, i, k);
      NextPixel(shape, i, shape.width);
    }
  }

  lemma EndOfRow(dst: seq<Byte>, src: seq<Byte>, now: seq<Byte>, shape: Shape, i: nat)
    requires shape.Valid() && Progress(dst, src, now, shape, i, shape.width)
    ensures Progress(dst, src, now, shape, i + 1, 0)
  {
    NextPixel(shape, i, shape.width);
  }

  /** go_cairo_convert_data_to_pixbuf when the source and the destination are the same. */
  method ConvertInPlace(dst: array<Byte>, shape: Shape)
    requires shape.Valid() && shape.Fits(dst.Length)
    modifies dst
    ensures Converted(old(dst[..]), old(dst[..]), dst[..], shape)
  {
    ghost var was := dst[..];
    var p := 0;
    for i := 0 to shape.height
      invariant p == shape.At(i, 0) && Progress(was, was, dst[..], shape, i, 0)
    {
      for j := 0 to shape.width
        invariant p == shape.At(i, j) && Progress(was, was, dst[..], shape, i, j)
      {
        PixelFits(shape, dst.Length, i, j);
        ghost var now := dst[..];
        WritePixel(dst, shape, p);
        OnePixel(was, was, now, dst[..], shape, i, j);
        NextPixel(shape, i, j);
        p := p + 4;
      }
      EndOfRow(was, was, dst[..], shape, i);
      NextPixel(shape, i, shape.width);
      p := p + (shape.stride - shape.width * 4);
    }
  }

  method WritePixel(dst: array<Byte>, shape: Shape, p: nat)
    requires p + 3 < dst.Length
    modifies dst
    ensures Becomes(old(dst[..]), dst[..], shape, p)
    ensures forall k :: 0 <= k < dst.Length && !(p <= k < p + 4) ==> dst[k] == old(dst[k])
  {
    if shape.littleEndian {
      var a := Unmul(dst[p + 2], dst[p + 3]);
      var b := Unmul(dst[p + 1], dst[p + 3]);
      var c := Unmul(dst[p + 0], dst[p + 3]);
      dst[p + 0] := a;
      dst[p + 1] := b;
      dst[p + 2] := c;
    } else {
      var a := Unmul(dst[p + 1], dst[p + 0]);
      var b := Unmul(dst[p + 2], dst[p + 0]);
      var c := Unmul(dst[p + 3], dst[p + 0]);
      dst[p + 3] := dst[p + 0];
      dst[p + 0] := a;
      dst[p + 1] := b;
      dst[p + 2] := c;
    }
  }

  /** The other branch, which moves two pointers. */
  method ConvertCopy(dst: array<Byte>, src: array<Byte>, shape: Shape)
    requires shape.Valid() && shape.Fits(dst.Length) && shape.Fits(src.Length) && src != dst
    modifies dst
    ensures Converted(old(dst[..]), src[..], dst[..], shape)
  {
    ghost var was := dst[..];
    var p, q := 0, 0;
    for i := 0 to shape.height
      invariant p == q == shape.At(i, 0) && Progress(was, src[..], dst[..], shape, i, 0)
    {
      for j := 0 to shape.width
        invariant p == q == shape.At(i, j) && Progress(was, src[..], dst[..], shape, i, j)
      {
        PixelFits(shape, dst.Length, i, j);
        PixelFits(shape, src.Length, i, j);
        ghost var now := dst[..];
        CopyPixel(dst, src, shape, p, q);
        OnePixel(was, src[..], now, dst[..], shape, i, j);
        NextPixel(shape, i, j);
        p, q := p + 4, q + 4;
      }
      EndOfRow(was, src[..], dst[..], shape, i);
      NextPixel(shape, i, shape.width);
      p := p + (shape.stride - shape.width * 4);
      q := q + (shape.stride - shape.width * 4);
    }
  }

  method CopyPixel(dst: array<Byte>, src: array<Byte>, shape: Shape, p: nat, q: nat)
    requires p == q && p + 3 < dst.Length && q + 3 < src.Length && src != dst
    modifies dst
    ensures Becomes(src[..], dst[..], shape, p)
    ensures forall k :: 0 <= k < dst.Length && !(p <= k < p + 4) ==> dst[k] == old(dst[k])
  {
    if shape.littleEndian {
      dst[p + 0] := Unmul(src[q + 2], src[q + 3]);
      dst[p + 1] := Unmul(src[q + 1], src[q + 3]);
      dst[p + 2] := Unmul(src[q + 0], src[q + 3]);
      dst[p + 3] := src[q + 3];
    } else {
      dst[p + 0] := Unmul(src[q + 1], src[q + 0]);
      dst[p + 1] := Unmul(src[q + 2], src[q + 0]);
      dst[p + 2] := Unmul(src[q + 3], src[q + 0]);
      dst[p + 3] := src[q + 0];
    }
  }

  method Convert(dst: array<Byte>, src: array?<Byte>, shape: Shape)
    requires shape.Valid() && shape.Fits(dst.Length) && (src != null ==> shape.Fits(src.Length))
    modifies dst
    ensures Converted(old(dst[..]), if src == null then old(dst[..]) else old(src[..]), dst[..], shape)
  {
    if src == null || src == dst {
      ConvertInPlace(dst, shape);
    } else {
      ConvertCopy(dst, src, shape);
    }
  }

  // ---------------------------------------------------------------- what the conversion gives

  /** The result is determined: every byte of a row is in a pixel, and the others are given. */
  lemma Determined(dst: seq<Byte>, src: seq<Byte>, out: seq<Byte>, other: seq<Byte>, shape: Shape)
    requires shape.Valid() && Converted(dst, src, out, shape) && Converted(dst, src, other, shape)
    ensures out == other
  {
    forall k | 0 <= k < |out| ensures out[k] == other[k] {
      if i: nat :| i < shape.height && InRow(shape, i, k) {
        SamePixels(dst, dst, src, out, other, shape, i, k);
      }
    }
  }

  /** What the destination held does not matter to the pixels: the branch that copies and the one
      that works in place (where the destination is the source) give the same. */
  lemma SamePixels(dst: seq<Byte>, dst': seq<Byte>, src: seq<Byte>, out: seq<Byte>, out': seq<Byte>, shape: Shape,
                   i: nat, k: nat)
    requires Converted(dst, src, out, shape) && Converted(dst', src, out', shape)
    requires i < shape.height && InRow(shape, i, k) && k < |out| && k < |out'|
    ensures out[k] == out'[k]
  {
    var j := PixelOf(shape, i, k);
    SameBecome(src, out, out', shape, shape.At(i, j), k);
  }

  lemma PixelOf(shape: Shape, i: nat, k: nat) returns (j: nat)
    requires InRow(shape, i, k)
    ensures j < shape.width && shape.At(i, j) <= k < shape.At(i, j) + 4
  {
    var start := shape.At(i, 0);
    NextPixel(shape, i, shape.width);
    j := (k - start) / 4;
    NextPixel(shape, i, j);
  }

  lemma SameBecome(src: seq<Byte>, out: seq<Byte>, out': seq<Byte>, shape: Shape, p: nat, k: nat)
    requires Becomes(src, out, shape, p) && Becomes(src, out', shape, p) && p <= k < p + 4
    ensures out[k] == out'[k]
  {
    assert k == p || k == p + 1 || k == p + 2 || k == p + 3;
  }

  lemma Quotient(c: Byte, a: Byte)
    requires a > 0
    ensures var t := c * 255 / a; t >= 0 && t * a <= c * 255 < t * a + a
  {
  }

  lemma Larger(t: nat, u: nat, a: nat)
    requires t <= u
    ensures t * a <= u * a
  {
  }

  /** The quotient fits a byte exactly when the colour is at most alpha. */
  lemma FitsIff(c: Byte, a: Byte)
    requires a > 0
    ensures (c * 255 / a < 256) == (c <= a)
  {
    var t := c * 255 / a;
    Quotient(c, a);
    if c <= a && t >= 256 {
      Larger(256, t, a);
    } else if c > a && t < 256 {
      Larger(t, 255, a);
    }
  }

  /** Multiplying by alpha gives back the colour exactly when it is at most alpha; a larger one
      wraps around or is lost. */
  lemma RecoverableIff(c: Byte, a: Byte)
    ensures (Premul(Unmul(c, a), a) == c) == (c <= a)
  {
    var u := Unmul(c, a);
    Larger(u, 255, a);
    if a > 0 {
      FitsIff(c, a);
      Quotient(c, a);
      RoundUp(c, u * a, a);
    }
  }

  lemma RoundUp(c: Byte, n: nat, a: Byte)
    requires n <= 255 * a
    ensures (n + 254) / 255 <= a
    ensures n <= c * 255 < n + a ==> (n + 254) / 255 == c
  {
  }

  /** The quotient, truncated, of a colour that is at most alpha; zero when there is no alpha. */
  lemma UnmulIs(c: Byte, a: Byte)
    ensures a == 0 ==> Unmul(c, a) == 0
    ensures 0 < a && c <= a ==> Unmul(c, a) * a <= c * 255 < Unmul(c, a) * a + a
  {
    if a > 0 {
      FitsIff(c, a);
      Quotient(c, a);
    }
  }

  /** Red, green, blue and alpha of the cairo pixel at p. */
  function Colours(src: seq<Byte>, littleEndian: bool, p: nat): (Byte, Byte, Byte, Byte)
    requires p + 3 < |src|
  {
    if littleEndian then (src[p + 2], src[p + 1], src[p], src[p + 3]) else (src[p + 1], src[p + 2], src[p + 3], src[p])
  }

  lemma UnmulEnds(c: Byte)
    ensures Unmul(c, 0) == 0 && Unmul(c, 255) == c
  {
  }

  /** A transparent pixel becomes zero whatever its colours, an opaque one keeps its colours, and
      alpha is kept. */
  lemma ClearAndOpaque(dst: seq<Byte>, src: seq<Byte>, out: seq<Byte>, shape: Shape, i: nat, j: nat)
    requires Converted(dst, src, out, shape) && i < shape.height && j < shape.width
    ensures var p := shape.At(i, j);
            && p + 3 < |src| && p + 3 < |out|
            && var (r, g, b, a) := Colours(src, shape.littleEndian, p);
            && out[p + 3] == a
            && (a == 0 ==> out[p] == out[p + 1] == out[p + 2] == 0)
            && (a == 255 ==> out[p] == r && out[p + 1] == g && out[p + 2] == b)
  {
    var p := shape.At(i, j);
    assert Becomes(src, out, shape, p);
    var (r, g, b, a) := Colours(src, shape.littleEndian, p);
    ClearOrOpaque(r, a, out[p]);
    ClearOrOpaque(g, a, out[p + 1]);
    ClearOrOpaque(b, a, out[p + 2]);
  }

  lemma ClearOrOpaque(c: Byte, a: Byte, u: Byte)
    requires u == Unmul(c, a)
    ensures a == 0 ==> u == 0
    ensures a == 255 ==> u == c
  {
    UnmulEnds(c);
  }

  /** ROUND TRIP. Multiplying the colours of a converted pixel by its alpha gives back those of the
      cairo pixel, if and only if none of them was larger than alpha. */
  lemma PixelRoundTrip(dst: seq<Byte>, src: seq<Byte>, out: seq<Byte>, shape: Shape, i: nat, j: nat)
    requires Converted(dst, src, out, shape) && i < shape.height && j < shape.width
    ensures var p := shape.At(i, j);
            && p + 3 < |src| && p + 3 < |out|
            && var (r, g, b, a) := Colours(src, shape.littleEndian, p);
            && (r <= a && g <= a && b <= a)
            == (&& Premul(out[p], out[p + 3]) == r
                && Premul(out[p + 1], out[p + 3]) == g
                && Premul(out[p + 2], out[p + 3]) == b)
  {
    var p := shape.At(i, j);
    assert Becomes(src, out, shape, p);
    var (r, g, b, a) := Colours(src, shape.littleEndian, p);
    RecoverableIff(r, a);
    RecoverableIff(g, a);
    RecoverableIff(b, a);
  }
}
