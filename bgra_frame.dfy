/**
 * The packed BGRA frame handed to the algorithm by the plugin (`struct input_BGRA_data`):
 * a byte buffer, the logical width and height in pixels, and the row stride `linesize` in
 * bytes. Each pixel occupies four bytes in the order blue, green, red, alpha; a row may be
 * followed by padding up to `linesize` bytes.
 */
module BgraFrame {
  import opened Wrappers

  type Byte = b: int | 0 <= b < 0x100
  type U32 = n: int | 0 <= n < 0x1_0000_0000

  /** `data` is `None` when the frame's data pointer is null. */
  datatype Frame = Frame(data: Option<seq<Byte>>, width: U32, height: U32, linesize: U32)

  /** Byte offset of channel byte `k` (0 = blue, 1 = green, 2 = red, 3 = alpha) of pixel (x, y). */
  function Offset(f: Frame, x: nat, y: nat, k: nat): nat
  {
    y * f.linesize + x * 4 + k
  }

  /** The largest offset that `extractRGB` reads: the red byte of the bottom-right pixel. */
  function LastOffset(f: Frame): nat
    requires f.width > 0 && f.height > 0
  {
    Offset(f, f.width - 1, f.height - 1, 2)
  }

  /**
   * The frame can be read pixel by pixel: the data pointer is not null and, when the frame
   * has pixels, every offset read lies inside the buffer and below 2^32 (so the `uint32_t`
   * offset arithmetic does not wrap).
   */
  predicate Readable(f: Frame)
  {
    && f.data.Some?
    && (f.width > 0 && f.height > 0 ==>
          LastOffset(f) < |f.data.value| && LastOffset(f) < 0x1_0000_0000)
  }

  /** Every offset read for a pixel of the frame is at most the last one. */
  lemma {:induction false} OffsetBelowLast(f: Frame, x: nat, y: nat, k: nat)
    requires x < f.width && y < f.height && k <= 2
    ensures Offset(f, x, y, k) <= LastOffset(f)
  {
    assert y * f.linesize <= (f.height - 1) * f.linesize by {
      MulMonotone(y, f.height - 1, f.linesize);
    }
  }

  lemma MulMonotone(a: nat, b: nat, c: nat)
    requires a <= b
    ensures a * c <= b * c
  {
  }

  /** The (R, G, B) triple that `extractRGB` builds for pixel (x, y): bytes +2, +1, +0. */
  function PixelAt(f: Frame, x: nat, y: nat): seq<Byte>
    requires Readable(f) && x < f.width && y < f.height
  {
    OffsetBelowLast(f, x, y, 2);
    var d := f.data.value;
    [d[Offset(f, x, y, 2)], d[Offset(f, x, y, 1)], d[Offset(f, x, y, 0)]]
  }

  /**
   * When rows are at least `4 * width` bytes long, the offset of channel byte k of pixel
   * (x, y) decodes back to (x, y, k): it lies in row y, inside the row's pixel bytes (never
   * in the padding), and in pixel x's four bytes at position k. So the colour bytes read
   * for different pixels or channels are different bytes, and with k <= 2 the alpha byte
   * (position 3) is never read.
   */
  lemma {:induction false} OffsetDecodes(f: Frame, x: nat, y: nat, k: nat)
    requires 4 * f.width <= f.linesize
    requires x < f.width && k < 4
    ensures Offset(f, x, y, k) / f.linesize == y
    ensures Offset(f, x, y, k) % f.linesize < 4 * f.width
    ensures (Offset(f, x, y, k) % f.linesize) / 4 == x
    ensures (Offset(f, x, y, k) % f.linesize) % 4 == k
  {
    var o, r := Offset(f, x, y, k), x * 4 + k;
    assert 0 <= r < f.linesize;
    DivModUnique(o, f.linesize, y, r);
    DivModUnique(r, 4, x, k);
  }

  /** Euclidean division is determined by any quotient/remainder pair. */
  lemma {:induction false} DivModUnique(a: int, d: int, q: int, r: int)
    requires d > 0 && a == q * d + r && 0 <= r < d
    ensures a / d == q && a % d == r
  {
    var q', r' := a / d, a % d;
    assert a == q' * d + r';
    if q' < q {
      assert (q - q') * d == r' - r;
      MulMonotone(1, q - q', d);
    } else if q < q' {
      assert (q' - q) * d == r - r';
      MulMonotone(1, q' - q, d);
    }
  }
}
