/** Pixel buffers as the canvas API exposes them: rows of RGBA pixels, read back through
    `getImageData` and viewed by the blank check as packed 32-bit words. */
module Raster {

  type Byte = x: int | 0 <= x < 256

  /** A position in canvas-local coordinates: column `x`, row `y`. */
  datatype Point = Point(x: int, y: int)

  datatype Pixel = Pixel(r: Byte, g: Byte, b: Byte, a: Byte)

  /** Transparent black: what `clearRect` writes and what `getImageData` reports outside
      the canvas. */
  const Transparent := Pixel(0, 0, 0, 0)

  /** A surface is a sequence of rows, top to bottom; row `y` holds pixels left to right. */
  type Surface = seq<seq<Pixel>>

  /** `s` has exactly `h` rows of exactly `w` pixels each. */
  predicate HasSize(s: Surface, w: nat, h: nat) {
    |s| == h && forall i :: 0 <= i < |s| ==> |s[i]| == w
  }

  predicate AllTransparent(s: Surface) {
    forall i, j :: 0 <= i < |s| && 0 <= j < |s[i]| ==> s[i][j] == Transparent
  }

  const WordRange := 0x1_0000_0000

  /** One pixel seen through a `Uint32Array` laid over the RGBA bytes. Such a view uses the
      platform's byte order; little-endian (red in the low byte) is the choice made here.
      The blank check asks only whether a word is zero, which holds exactly for transparent
      black in either byte order. */
  function Pack(p: Pixel): (w: nat)
    ensures w < WordRange
    ensures w == 0 <==> p == Transparent
  {
    p.r + 0x100 * p.g + 0x1_0000 * p.b + 0x100_0000 * p.a
  }

  /** Splits a 32-bit word back into its four bytes, low byte first. */
  function Unpack(w: nat): (p: Pixel)
    requires w < WordRange
  {
    var g := w / 0x100;
    var b := g / 0x100;
    Pixel(w % 0x100, g % 0x100, b % 0x100, b / 0x100)
  }

  /** One byte shifted in below a higher part is recovered by `% 0x100` and `/ 0x100`. */
  lemma ByteShift(lo: Byte, hi: nat)
    ensures (lo + 0x100 * hi) % 0x100 == lo
    ensures (lo + 0x100 * hi) / 0x100 == hi
  {
  }

  /** Packing loses nothing: the word determines the pixel. */
  lemma UnpackPack(p: Pixel)
    ensures Unpack(Pack(p)) == p
  {
    var hiB := p.b + 0x100 * p.a;
    var hiG := p.g + 0x100 * hiB;
    assert Pack(p) == p.r + 0x100 * hiG;
    ByteShift(p.r, hiG);
    ByteShift(p.g, hiB);
    ByteShift(p.b, p.a);
  }

  function RowWords(row: seq<Pixel>): (ws: seq<nat>)
    ensures |ws| == |row|
    ensures forall j :: 0 <= j < |row| ==> ws[j] == Pack(row[j])
  {
    seq(|row|, j requires 0 <= j < |row| => Pack(row[j]))
  }

  /** The whole buffer as packed words, row after row. */
  function Words(s: Surface): seq<nat> {
    if |s| == 0 then [] else RowWords(s[0]) + Words(s[1..])
  }

  /** `Array.prototype.some(color => color !== 0)`. */
  function AnyNonZero(ws: seq<nat>): (b: bool)
    ensures b <==> exists k :: 0 <= k < |ws| && ws[k] != 0
  {
    if |ws| == 0 then false else ws[0] != 0 || AnyNonZero(ws[1..])
  }

  /** A transparent canvas packs to zero words only. */
  lemma {:induction false} TransparentWordsZero(s: Surface)
    requires AllTransparent(s)
    ensures !AnyNonZero(Words(s))
  {
    if |s| > 0 {
      var row, rest := RowWords(s[0]), Words(s[1..]);
      assert AllTransparent(s[1..]) by {
        forall i, j | 0 <= i < |s[1..]| && 0 <= j < |s[1..][i]|
          ensures s[1..][i][j] == Transparent
        {
          assert s[1..][i] == s[i + 1];
        }
      }
      TransparentWordsZero(s[1..]);
      forall k | 0 <= k < |row + rest|
        ensures (row + rest)[k] == 0
      {
        if k < |row| {
          assert s[0][k] == Transparent;
        } else {
          assert (row + rest)[k] == rest[k - |row|];
        }
      }
    }
  }

  /** A non-zero word in either half is a non-zero word of the whole. */
  lemma {:induction false} AnyNonZeroAppend(a: seq<nat>, b: seq<nat>)
    ensures AnyNonZero(a + b) == (AnyNonZero(a) || AnyNonZero(b))
  {
    if |a| > 0 {
      assert (a + b)[1..] == a[1..] + b;
      AnyNonZeroAppend(a[1..], b);
    } else {
      assert a + b == b;
    }
  }

  /** A pixel that is not transparent black packs to a non-zero word somewhere. */
  lemma {:induction false} OpaquePixelNonZero(s: Surface, i: nat, j: nat)
    requires i < |s| && j < |s[i]| && s[i][j] != Transparent
    ensures AnyNonZero(Words(s))
  {
    var row, rest := RowWords(s[0]), Words(s[1..]);
    AnyNonZeroAppend(row, rest);
    if i == 0 {
      assert row[j] != 0;
    } else {
      assert s[1..][i - 1] == s[i];
      OpaquePixelNonZero(s[1..], i - 1, j);
    }
  }

  /** Some packed word of the buffer is non-zero exactly when some pixel is not
      transparent black. */
  lemma WordsZeroIffTransparent(s: Surface)
    ensures AnyNonZero(Words(s)) <==> !AllTransparent(s)
  {
    if AllTransparent(s) {
      TransparentWordsZero(s);
    } else {
      var i, j :| 0 <= i < |s| && 0 <= j < |s[i]| && s[i][j] != Transparent;
      OpaquePixelNonZero(s, i, j);
    }
  }

  /** `isCanvasBlank`: blank exactly when every pixel is transparent black. */
  function IsCanvasBlank(s: Surface): (blank: bool)
    ensures blank <==> AllTransparent(s)
  {
    WordsZeroIffTransparent(s);
    !AnyNonZero(Words(s))
  }

  /** `clearRect` over the whole canvas: same size, every pixel transparent black, so the
      blank check holds afterwards. */
  function Clear(s: Surface): (c: Surface)
    ensures |c| == |s| && forall i :: 0 <= i < |s| ==> |c[i]| == |s[i]|
    ensures IsCanvasBlank(c)
  {
    seq(|s|, i requires 0 <= i < |s| => seq(|s[i]|, _ => Transparent))
  }

  /** Clearing a cleared canvas changes nothing, and clearing a blank canvas changes nothing. */
  lemma ClearIdempotent(s: Surface)
    ensures Clear(Clear(s)) == Clear(s)
    ensures IsCanvasBlank(s) ==> Clear(s) == s
  {
    if IsCanvasBlank(s) {
      forall i | 0 <= i < |s|
        ensures Clear(s)[i] == s[i]
      {
      }
    }
  }

  /** A rectangle in canvas coordinates: top-left corner and non-negative extent. */
  datatype Rect = Rect(x: int, y: int, w: nat, h: nat)

  /** The pixel `getImageData` reports at column `x`, row `y`: the canvas pixel when
      inside the canvas, transparent black outside it. */
  function PixelAt(s: Surface, x: int, y: int): Pixel {
    if 0 <= y < |s| && 0 <= x < |s[y]| then s[y][x] else Transparent
  }

  /** `getImageData(r.x, r.y, r.w, r.h)` written into a fresh `r.w` by `r.h` buffer with
      `putImageData(data, 0, 0)`. */
  function Extract(s: Surface, r: Rect): (out: Surface)
    ensures HasSize(out, r.w, r.h)
    ensures forall i, j :: 0 <= i < r.h && 0 <= j < r.w ==> out[i][j] == PixelAt(s, r.x + j, r.y + i)
  {
    seq(r.h, i requires 0 <= i < r.h => seq(r.w, j requires 0 <= j < r.w => PixelAt(s, r.x + j, r.y + i)))
  }

  /** Extracting the whole of a `w` by `h` canvas reproduces it. */
  lemma ExtractWhole(s: Surface, w: nat, h: nat)
    requires HasSize(s, w, h)
    ensures Extract(s, Rect(0, 0, w, h)) == s
  {
    var out := Extract(s, Rect(0, 0, w, h));
    forall i | 0 <= i < h
      ensures out[i] == s[i]
    {
    }
  }

  /** Extracting from an extracted region equals extracting the shifted region from the
      original, as long as the inner rectangle lies inside the outer one. */
  lemma ExtractNested(s: Surface, outer: Rect, inner: Rect)
    requires 0 <= inner.x && inner.x + inner.w <= outer.w
    requires 0 <= inner.y && inner.y + inner.h <= outer.h
    ensures Extract(Extract(s, outer), inner) == Extract(s, Rect(outer.x + inner.x, outer.y + inner.y, inner.w, inner.h))
  {
    var a := Extract(Extract(s, outer), inner);
    var b := Extract(s, Rect(outer.x + inner.x, outer.y + inner.y, inner.w, inner.h));
    forall i | 0 <= i < inner.h
      ensures a[i] == b[i]
    {
    }
  }
}
