/** The Floyd-Steinberg kernel and the saturating channel update of src/convert.rs.

    All floating-point quantities of the repository are exact dyadic
    fractions, so they are kept here as integer numerators:
    - an error vector (`[f32; 3]`) in units of 1/4096 of the full channel
      range: the residual `d` of a lookup normalised by `/ 256.0` is `16 * d`,
      and `d / 256 * k / 16` is `k * d`;
    - a factor in sixteenths: 0.4375 is 7, 0.1875 is 3, 0.3125 is 5,
      0.0625 is 1, and 1.0 is 16;
    - the value `channel / 256 + error * factor` in units of 1/65536, that is
      `256 * channel + error * factor`.
    Every numerator stays far below 2^24, so the `f32` computations are exact
    and the integer model is the same function. */
module Converter {
  import opened Colors

  /** One row of `DITHERING_MATRIX`: a target offset and its factor in sixteenths. */
  datatype Tap = Tap(dx: int, dy: int, weight: nat)

  /** A per-channel error, in units of 1/4096 of the full channel range. */
  datatype Errors = Errors(r: int, g: int, b: int)

  const NO_ERROR: Errors := Errors(0, 0, 0)

  /** The factor 1.0, in sixteenths. */
  const ONE: nat := 16

  /** `DITHERING_MATRIX`: right 7/16, down-left 3/16, down 5/16, down-right 1/16. */
  const DitheringMatrix: seq<Tap> := [Tap(1, 0, 7), Tap(-1, 1, 3), Tap(0, 1, 5), Tap(1, 1, 1)]

  /** `difference.map(|err| err as f32 / 256.0)`. */
  function Normalize(d: Residual): Errors
  {
    Errors(16 * d.r, 16 * d.g, 16 * d.b)
  }

  /** The normalised residual `d` times the factor `k` sixteenths. */
  function Weighted(d: Residual, k: nat): Errors
  {
    Errors(k * d.r, k * d.g, k * d.b)
  }

  /** One channel of `Add`. */
  function AddChannel(x: int, y: int): int
  {
    x + y
  }

  /** Channel-wise sum of two errors. */
  function Add(a: Errors, b: Errors): Errors
  {
    Errors(AddChannel(a.r, b.r), AddChannel(a.g, b.g), AddChannel(a.b, b.b))
  }

  /** `channel as f32 / 256.0 + error * factor`, in units of 1/65536. */
  function Value(c: Channel, error: int, factor: nat): int
  {
    256 * c + error * factor
  }

  /** One channel of `distribute_rgb_channels`: saturate at 1.0 and at 0.0,
      otherwise truncate `value * 256.0` to a `u8`. */
  function DistributeChannel(c: Channel, error: int, factor: nat): (r: Channel)
    ensures Value(c, error, factor) >= 65536 ==> r == 255
    ensures Value(c, error, factor) <= 0 ==> r == 0
    ensures 0 < Value(c, error, factor) < 65536 ==>
              256 * r <= Value(c, error, factor) < 256 * r + 256
  {
    if Value(c, error, factor) >= 65536 then 255
    else if Value(c, error, factor) <= 0 then 0
    else Value(c, error, factor) / 256
  }

  /** `distribute_rgb_channels`: the same update on each channel, each channel
      reading only its own value and error. */
  function DistributeRgbChannels(p: Color, errors: Errors, factor: nat): (q: Color)
    ensures q.r == DistributeChannel(p.r, errors.r, factor)
    ensures q.g == DistributeChannel(p.g, errors.g, factor)
    ensures q.b == DistributeChannel(p.b, errors.b, factor)
  {
    Color(DistributeChannel(p.r, errors.r, factor),
          DistributeChannel(p.g, errors.g, factor),
          DistributeChannel(p.b, errors.b, factor))
  }

  /** Each output channel depends only on the same channel of the pixel and
      of the error: changing the other two channels changes nothing in it. */
  lemma ChannelsIndependent(p1: Color, e1: Errors, p2: Color, e2: Errors, factor: nat)
    ensures p1.r == p2.r && e1.r == e2.r ==>
              DistributeRgbChannels(p1, e1, factor).r == DistributeRgbChannels(p2, e2, factor).r
    ensures p1.g == p2.g && e1.g == e2.g ==>
              DistributeRgbChannels(p1, e1, factor).g == DistributeRgbChannels(p2, e2, factor).g
    ensures p1.b == p2.b && e1.b == e2.b ==>
              DistributeRgbChannels(p1, e1, factor).b == DistributeRgbChannels(p2, e2, factor).b
  {
  }

  /** Sum of the factors of `taps`, in sixteenths. */
  function TotalWeight(taps: seq<Tap>): nat
  {
    if |taps| == 0 then 0 else taps[0].weight + TotalWeight(taps[1..])
  }

  /** The parts of residual `d` that `taps` hand out, summed. */
  function Spread(d: Residual, taps: seq<Tap>): Errors
  {
    if |taps| == 0 then NO_ERROR else Add(Weighted(d, taps[0].weight), Spread(d, taps[1..]))
  }

  /** The factor that `taps` give to offset `(dx, dy)`: the first matching tap's,
      or 0 when no tap aims there. */
  function WeightAt(taps: seq<Tap>, dx: int, dy: int): nat
  {
    if |taps| == 0 then 0
    else if taps[0].dx == dx && taps[0].dy == dy then taps[0].weight
    else WeightAt(taps[1..], dx, dy)
  }

  /** `(dx, dy)` is the offset of one of the taps. */
  predicate Aims(taps: seq<Tap>, dx: int, dy: int)
  {
    exists i :: 0 <= i < |taps| && taps[i].dx == dx && taps[i].dy == dy
  }

  /** The suffixes of the kernel, spelt out for the unfolding of recursive sums. */
  lemma TailsOfMatrix()
    ensures DitheringMatrix[1..] == [Tap(-1, 1, 3), Tap(0, 1, 5), Tap(1, 1, 1)]
    ensures DitheringMatrix[2..] == [Tap(0, 1, 5), Tap(1, 1, 1)]
    ensures DitheringMatrix[3..] == [Tap(1, 1, 1)]
    ensures DitheringMatrix[4..] == []
  {
  }

  /** The four offsets of the kernel, and their factors. */
  lemma KernelTargets(dx: int, dy: int)
    ensures Aims(DitheringMatrix, dx, dy) <==>
              (dy == 0 && dx == 1) || (dy == 1 && -1 <= dx <= 1)
    ensures WeightAt(DitheringMatrix, dx, dy) ==
              if dy == 0 && dx == 1 then 7
              else if dy == 1 && dx == -1 then 3
              else if dy == 1 && dx == 0 then 5
              else if dy == 1 && dx == 1 then 1
              else 0
  {
    TailsOfMatrix();
    var m := DitheringMatrix;
    if dy == 0 && dx == 1 {
      assert m[0].dx == dx && m[0].dy == dy;
    } else if dy == 1 && dx == -1 {
      assert m[1].dx == dx && m[1].dy == dy;
    } else if dy == 1 && dx == 0 {
      assert m[2].dx == dx && m[2].dy == dy;
    } else if dy == 1 && dx == 1 {
      assert m[3].dx == dx && m[3].dy == dy;
      assert WeightAt(m[3..], dx, dy) == 1;
      assert WeightAt(m[2..], dx, dy) == 1;
    } else {
      assert WeightAt(m[3..], dx, dy) == 0;
      assert WeightAt(m[2..], dx, dy) == 0;
    }
  }

  /** Every target lies after its source in reading order: in a later row, or
      to the right in the same row. */
  lemma KernelIsForward()
    ensures forall i :: 0 <= i < |DitheringMatrix| ==>
              DitheringMatrix[i].dy > 0 || (DitheringMatrix[i].dy == 0 && DitheringMatrix[i].dx > 0)
    ensures forall i :: 0 <= i < |DitheringMatrix| ==>
              DitheringMatrix[i].dy >= 0 && -1 <= DitheringMatrix[i].dx <= 1 && DitheringMatrix[i].weight > 0
  {
  }

  /** 7/16 + 3/16 + 5/16 + 1/16 = 1. */
  lemma WeightsSumToOne()
    ensures TotalWeight(DitheringMatrix) == ONE
  {
  }

  /** The four parts of a residual add up to the whole normalised residual:
      the kernel neither amplifies nor loses error. */
  lemma {:induction false} Conservation(d: Residual)
    ensures Spread(d, DitheringMatrix) == Normalize(d)
  {
    TailsOfMatrix();
    assert Spread(d, DitheringMatrix[3..]) == Weighted(d, 1);
    assert Spread(d, DitheringMatrix[2..]) == Weighted(d, 6);
    assert Spread(d, DitheringMatrix[1..]) == Weighted(d, 9);
  }

  /** Adding no error changes nothing. */
  lemma AddNoError(a: Errors)
    ensures Add(a, NO_ERROR) == a && Add(NO_ERROR, a) == a
  {
  }

  /** No residual hands out no error, whatever the factor. */
  lemma WeightedZero(k: nat)
    ensures Weighted(ZERO_RESIDUAL, k) == NO_ERROR
  {
  }

  /** With no error to add, every channel keeps its value. */
  lemma NoErrorUnchanged(p: Color, errors: Errors, factor: nat)
    requires errors == NO_ERROR || factor == 0
    ensures DistributeRgbChannels(p, errors, factor) == p
  {
  }

  /** A larger `error * factor` never gives a smaller channel, and neither does
      a larger starting channel. */
  lemma DistributeMonotone(c1: Channel, e1: int, f1: nat, c2: Channel, e2: int, f2: nat)
    requires c1 <= c2 && e1 * f1 <= e2 * f2
    ensures DistributeChannel(c1, e1, f1) <= DistributeChannel(c2, e2, f2)
  {
  }

  /** In the sequential converter the error is the normalised residual `d` and
      the factor `k` sixteenths; the update is then the integer
      `(16 * c + k * d) div 16`, saturated to 0 and 255. */
  lemma SixteenthsForm(c: Channel, d: int, k: nat)
    ensures DistributeChannel(c, 16 * d, k) ==
              if 16 * c + k * d >= 4096 then 255
              else if 16 * c + k * d <= 0 then 0
              else (16 * c + k * d) / 16
  {
    var u := 16 * c + k * d;
    assert Value(c, 16 * d, k) == 16 * u;
    if 0 < u < 4096 {
      var r := DistributeChannel(c, 16 * d, k);
      assert 256 * r <= 16 * u < 256 * r + 256;
      assert 16 * r <= u < 16 * r + 16;
    }
  }
}
