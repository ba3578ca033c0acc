/** One call of `downsample_image`.

The new width and height are `int(dim * scale_factor)`: the product truncated
toward zero, which for non-negative sizes and a non-negative scale is the floor.
The scale is a rational num/den (default 1/4, which is exact in binary floating
point). No minimum size is enforced, so a side shorter than 1/scale becomes 0.

Decoding, resampling, directory creation and encoding belong to libraries. They
are summarised by a `Disk`: the pictures the image library can decode, with their
sizes, and the output paths at which resizing or saving raises. Those exceptions
are caught, so the call yields a `Report`. The progress and error messages are
not modelled, although printing them can itself raise.
 */
module Downsample {
  import opened Paths

  type PosNat = n: nat | n > 0 witness 1

  /** A non-negative rational scale factor num/den. */
  datatype Scale = Scale(num: nat, den: PosNat)

  /** The default `scale_factor=0.25`. */
  const DefaultScale: Scale := Scale(1, 4)

  datatype Size = Size(width: nat, height: nat)

  /** `int(dim * scale)`: the largest whole number not above dim * num / den. */
  function ScaleDim(dim: nat, s: Scale): (r: nat)
    ensures r * s.den <= dim * s.num < r * s.den + s.den
  {
    dim * s.num / s.den
  }

  /** The new size: each side scaled independently. */
  function TargetSize(sz: Size, s: Scale): Size
  {
    Size(ScaleDim(sz.width, s), ScaleDim(sz.height, s))
  }

  /** What the libraries would do, as far as the script can observe it. */
  datatype Disk = Disk(pictures: map<Path, Size>, failing: set<Path>)

  datatype Cause = DecodeError | SaveError

  datatype Report =
    | Saved(output: Path, size: Size)
    | Failed(input: Path, cause: Cause)

  /** `downsample_image(input_path, output_path, scale_factor)`. */
  function DownsampleImage(input: Path, output: Path, disk: Disk, s: Scale): (r: Report)
    ensures r.Saved? <==> input in disk.pictures && output !in disk.failing
    ensures r.Saved? ==> r.output == output && r.size == TargetSize(disk.pictures[input], s)
    ensures r.Failed? ==> r.input == input && (r.cause == DecodeError <==> input !in disk.pictures)
  {
    if input !in disk.pictures then Failed(input, DecodeError)
    else if output in disk.failing then Failed(input, SaveError)
    else Saved(output, TargetSize(disk.pictures[input], s))
  }

  /** Truncation has exactly one answer: any q with the floor bounds is the new size. */
  lemma ScaleDimUnique(dim: nat, s: Scale, q: nat)
    requires q * s.den <= dim * s.num < q * s.den + s.den
    ensures q == ScaleDim(dim, s)
  {
    var r := ScaleDim(dim, s);
    if q < r {
      assert (q + 1) * s.den <= r * s.den by {
        MulMonotone(q + 1, r, s.den);
      }
    } else if r < q {
      assert (r + 1) * s.den <= q * s.den by {
        MulMonotone(r + 1, q, s.den);
      }
    }
  }

  lemma MulMonotone(a: nat, b: nat, c: nat)
    requires a <= b
    ensures a * c <= b * c
  {
  }

  /** With the default scale each side is divided by four, rounding down: the
      result never exceeds the input, and every side below 4 becomes 0. */
  lemma DefaultScaleQuarters(dim: nat)
    ensures ScaleDim(dim, DefaultScale) == dim / 4
    ensures 4 * ScaleDim(dim, DefaultScale) <= dim < 4 * ScaleDim(dim, DefaultScale) + 4
    ensures ScaleDim(dim, DefaultScale) <= dim
    ensures dim < 4 <==> ScaleDim(dim, DefaultScale) == 0
  {
  }

  /** A scale of at most one never enlarges a side. */
  lemma ShrinkingScale(dim: nat, s: Scale)
    requires s.num <= s.den
    ensures ScaleDim(dim, s) <= dim
  {
    MulMonotone(s.num, s.den, dim);
  }

  /** Larger inputs never give smaller outputs. */
  lemma ScaleDimMonotone(a: nat, b: nat, s: Scale)
    requires a <= b
    ensures ScaleDim(a, s) <= ScaleDim(b, s)
  {
    var ra, rb := ScaleDim(a, s), ScaleDim(b, s);
    MulMonotone(a, b, s.num);
    if rb < ra {
      MulMonotone(rb + 1, ra, s.den);
    }
  }

  /** With the default scale the area shrinks at least sixteen-fold. */
  lemma DefaultAreaSixteenth(sz: Size)
    ensures 16 * TargetSize(sz, DefaultScale).width * TargetSize(sz, DefaultScale).height
            <= sz.width * sz.height
  {
    var t := TargetSize(sz, DefaultScale);
    DefaultScaleQuarters(sz.width);
    DefaultScaleQuarters(sz.height);
    assert 16 * t.width * t.height == (4 * t.width) * (4 * t.height);
    MulMonotone(4 * t.width, sz.width, 4 * t.height);
    MulMonotone(4 * t.height, sz.height, sz.width);
  }

  /** An 800x600 picture becomes 200x150; a 2x2 picture becomes 0x0. */
  lemma DefaultScaleExamples()
    ensures TargetSize(Size(800, 600), DefaultScale) == Size(200, 150)
    ensures TargetSize(Size(2, 2), DefaultScale) == Size(0, 0)
  {
  }
}
