/** `ChannelConverter` of src/convert_channels.rs.

    One worker (`thread`) converts one row, left to right. It keeps the 7/16
    share for its right neighbour in `next_pixel_error` and collects the
    shares for the row below in a three-slot ring buffer; after each pixel it
    sends the slot of the leftmost pixel under it to the worker of the next
    row, which adds the `x`-th message it receives to its own pixel `x`.

    Each worker reads and writes only its own row of the shared image, and a
    worker reads only the messages of the row above, in the order they were
    sent; so running the workers one after the other, each given all
    messages of the row above, yields the same image as the concurrent run.
    That is the composition `ConvertFrom`. */
module Channels {
  import opened Colors
  import opened Converter
  import opened Images

  /** A worker between two iterations of its loop over `x`. */
  datatype Worker = Worker(
    x: nat,                 // the next column
    ringIdx: nat,           // `ring_idx`: the slot of the leftmost pixel under `x`
    ring: seq<Errors>,      // `errors_ring`
    nextPixelError: Errors, // `next_pixel_error`
    row: seq<Color>,        // row `y` of the shared image
    sent: seq<Errors>,      // the messages sent to the worker of row `y + 1`
    spawned: bool)          // the worker of row `y + 1` has been spawned

  predicate Valid(w: Worker)
  {
    w.x <= |w.row| && w.ringIdx < 3 && |w.ring| == 3
  }

  /** A worker before its first pixel: nothing buffered, nothing sent. */
  function Start(row: seq<Color>): (w: Worker)
    ensures Valid(w) && w.x == 0 && w.row == row && w.sent == [] && !w.spawned
  {
    Worker(0, 0, [NO_ERROR, NO_ERROR, NO_ERROR], NO_ERROR, row, [], false)
  }

  /** What the worker adds at column `x` from the row above: message `x`, or
      nothing when there is no worker above (row 0) or no such message. */
  function Received(incoming: seq<Errors>, x: nat): Errors
  {
    if x < |incoming| then incoming[x] else NO_ERROR
  }

  /** One iteration of the loop: receive, add the error with factor 1.0 to the
      original pixel, look up the nearest palette colour, write it, hand out
      the residual, maybe spawn the next row's worker, send the leftmost
      slot, advance the ring. The repository spawns at column 1; `spawnAt`
      names that column. */
  function Step(w: Worker, incoming: seq<Errors>, y: nat, height: nat, spawnAt: nat): (r: Worker)
    requires Valid(w) && w.x < |w.row|
    ensures Valid(r) && r.x == w.x + 1 && |r.row| == |w.row|
    ensures |r.sent| == |w.sent| + 1 && r.sent[..|w.sent|] == w.sent
  {
    var applied := Add(w.nextPixelError, Received(incoming, w.x));
    var n := FindClosest(DistributeRgbChannels(w.row[w.x], applied, ONE));
    var i := w.ringIdx;
    var ring1 := w.ring[i := Add(w.ring[i], Weighted(n.residual, DitheringMatrix[1].weight))];
    var ring2 := ring1[(i + 1) % 3 := Add(ring1[(i + 1) % 3], Weighted(n.residual, DitheringMatrix[2].weight))];
    var ring3 := ring2[(i + 2) % 3 := Weighted(n.residual, DitheringMatrix[3].weight)];
    Worker(w.x + 1, (i + 1) % 3, ring3, Weighted(n.residual, DitheringMatrix[0].weight),
           w.row[w.x := n.color], w.sent + [ring3[i]],
           w.spawned || (w.x == spawnAt && y < height - 1))
  }

  /** The rest of the loop, from column `w.x` to the end of the row. */
  function Finish(w: Worker, incoming: seq<Errors>, y: nat, height: nat, spawnAt: nat): (r: Worker)
    requires Valid(w)
    ensures Valid(r) && r.x == |r.row| == |w.row|
    ensures |r.sent| == |w.sent| + |w.row| - w.x
    ensures r.spawned == (w.spawned || (w.x <= spawnAt < |w.row| && y < height - 1))
    decreases |w.row| - w.x
  {
    if w.x == |w.row| then w else Finish(Step(w, incoming, y, height, spawnAt), incoming, y, height, spawnAt)
  }

  /** `thread` for row `y`, given the messages of the worker above. */
  function Thread(row: seq<Color>, incoming: seq<Errors>, y: nat, height: nat, spawnAt: nat): (r: Worker)
    ensures |r.row| == |row| && |r.sent| == |row|
    ensures r.spawned == (spawnAt < |row| && y < height - 1)
  {
    Finish(Start(row), incoming, y, height, spawnAt)
  }

  // ---------------------------------------------------------------------
  // The same row, computed without the ring buffer.

  /** `ds[i]`, or no residual outside the row. */
  function Prior(ds: seq<Residual>, i: int): Residual
  {
    if 0 <= i < |ds| then ds[i] else ZERO_RESIDUAL
  }

  /** The error added to pixel `x`: 7/16 of the residual to its left plus
      message `x` from the row above. */
  function Applied(ds: seq<Residual>, incoming: seq<Errors>, x: nat): Errors
  {
    Add(Weighted(Prior(ds, x - 1), 7), Received(incoming, x))
  }

  /** The lookup for pixel `x`, given the residuals of the pixels to its left. */
  function Lookup(row: seq<Color>, incoming: seq<Errors>, ds: seq<Residual>, x: nat): Nearest
    requires x < |row|
  {
    FindClosest(DistributeRgbChannels(row[x], Applied(ds, incoming, x), ONE))
  }

  /** The residuals of the first `k` pixels of the row. */
  function Residuals(row: seq<Color>, incoming: seq<Errors>, k: nat): (ds: seq<Residual>)
    requires k <= |row|
    ensures |ds| == k
  {
    if k == 0 then []
    else Residuals(row, incoming, k - 1) + [Lookup(row, incoming, Residuals(row, incoming, k - 1), k - 1).residual]
  }

  /** Message `x`: 3/16 of residual `x`, 5/16 of residual `x - 1` and 1/16 of
      residual `x - 2`. */
  function Message(ds: seq<Residual>, x: nat): Errors
  {
    Add(Add(Weighted(Prior(ds, x), 3), Weighted(Prior(ds, x - 1), 5)), Weighted(Prior(ds, x - 2), 1))
  }

  /** The ring buffer after `w.x` pixels with residuals `ds`: the slot of
      the next pixel holds 5/16 of the last residual and 1/16 of the one
      before, the slot after it 1/16 of the last residual, and
      `next_pixel_error` 7/16 of the last residual. */
  predicate RingHolds(w: Worker, ds: seq<Residual>)
  {
    && w.ringIdx == w.x % 3 && |w.ring| == 3
    && w.nextPixelError == Weighted(Prior(ds, w.x - 1), 7)
    && w.ring[w.x % 3] == Add(Weighted(Prior(ds, w.x - 1), 5), Weighted(Prior(ds, w.x - 2), 1))
    && w.ring[(w.x + 1) % 3] == Weighted(Prior(ds, w.x - 1), 1)
  }

  /** One message per pixel so far, each as `Message` describes it. */
  predicate SentHolds(w: Worker, ds: seq<Residual>)
  {
    |w.sent| == w.x && forall i :: 0 <= i < w.x ==> w.sent[i] == Message(ds, i)
  }

  /** The pixels so far hold their lookups; the others are untouched. */
  predicate RowHolds(w: Worker, row: seq<Color>, incoming: seq<Errors>, ds: seq<Residual>)
  {
    && |w.row| == |row| && w.x <= |row|
    && (forall i :: 0 <= i < w.x ==> w.row[i] == Lookup(row, incoming, ds, i).color)
    && (forall i :: w.x <= i < |row| ==> w.row[i] == row[i])
  }

  /** The worker after `w.x` pixels of `row`, described without the ring
      buffer's bookkeeping. */
  ghost predicate Inv(w: Worker, row: seq<Color>, incoming: seq<Errors>, y: nat, height: nat, spawnAt: nat)
  {
    && Valid(w) && w.x <= |row|
    && RingHolds(w, Residuals(row, incoming, w.x))
    && SentHolds(w, Residuals(row, incoming, w.x))
    && RowHolds(w, row, incoming, Residuals(row, incoming, w.x))
    && w.spawned == (spawnAt < w.x && y < height - 1)
  }

  /** Extending the row by one pixel does not change the earlier residuals. */
  lemma ResidualsExtend(row: seq<Color>, incoming: seq<Errors>, k: nat)
    requires k < |row|
    ensures Residuals(row, incoming, k + 1)
              == Residuals(row, incoming, k) + [Lookup(row, incoming, Residuals(row, incoming, k), k).residual]
    ensures forall i :: i < k ==> Prior(Residuals(row, incoming, k + 1), i) == Prior(Residuals(row, incoming, k), i)
  {
  }

  lemma StartInv(row: seq<Color>, incoming: seq<Errors>, y: nat, height: nat, spawnAt: nat)
    ensures Inv(Start(row), row, incoming, y, height, spawnAt)
  {
    var ds := Residuals(row, incoming, 0);
    assert ds == [];
    assert Prior(ds, -1) == ZERO_RESIDUAL && Prior(ds, -2) == ZERO_RESIDUAL;
    assert Weighted(ZERO_RESIDUAL, 7) == NO_ERROR;
  }

  /** The fields of `Step`'s result, one by one, in terms of the lookup `n`. */
  lemma StepFields(w: Worker, incoming: seq<Errors>, y: nat, height: nat, spawnAt: nat, n: Nearest)
    requires Valid(w) && w.x < |w.row|
    requires n == FindClosest(DistributeRgbChannels(w.row[w.x], Add(w.nextPixelError, Received(incoming, w.x)), ONE))
    ensures Step(w, incoming, y, height, spawnAt).ringIdx == (w.ringIdx + 1) % 3
    ensures Step(w, incoming, y, height, spawnAt).ring[w.ringIdx] == Add(w.ring[w.ringIdx], Weighted(n.residual, 3))
    ensures Step(w, incoming, y, height, spawnAt).ring[(w.ringIdx + 1) % 3]
              == Add(w.ring[(w.ringIdx + 1) % 3], Weighted(n.residual, 5))
    ensures Step(w, incoming, y, height, spawnAt).ring[(w.ringIdx + 2) % 3] == Weighted(n.residual, 1)
    ensures Step(w, incoming, y, height, spawnAt).nextPixelError == Weighted(n.residual, 7)
    ensures Step(w, incoming, y, height, spawnAt).row == w.row[w.x := n.color]
    ensures Step(w, incoming, y, height, spawnAt).sent
              == w.sent + [Step(w, incoming, y, height, spawnAt).ring[w.ringIdx]]
    ensures Step(w, incoming, y, height, spawnAt).spawned == (w.spawned || (w.x == spawnAt && y < height - 1))
  {
    var i, j, l := w.ringIdx, (w.ringIdx + 1) % 3, (w.ringIdx + 2) % 3;
    RingSlots(i);
    assert DitheringMatrix[1].weight == 3 && DitheringMatrix[2].weight == 5 && DitheringMatrix[3].weight == 1;
    var ring1 := w.ring[i := Add(w.ring[i], Weighted(n.residual, 3))];
    var ring2 := ring1[j := Add(ring1[j], Weighted(n.residual, 5))];
    var ring3 := ring2[l := Weighted(n.residual, 1)];
    assert Step(w, incoming, y, height, spawnAt).ring == ring3;
    assert ring3[i] == ring1[i] && ring3[j] == ring2[j] && ring1[j] == w.ring[j];
  }

  /** The three ring slots from `k % 3` on are the slots of `k`, `k + 1`
      and `k + 2`, all different. */
  lemma RingSlots(k: nat)
    ensures (k % 3 + 1) % 3 == (k + 1) % 3 && (k % 3 + 2) % 3 == (k + 2) % 3
    ensures ((k + 1) % 3 + 1) % 3 == (k + 2) % 3
    ensures k % 3 != (k + 1) % 3 && k % 3 != (k + 2) % 3 && (k + 1) % 3 != (k + 2) % 3
  {
  }

  lemma StepRing(w: Worker, r: Worker, ds: seq<Residual>, d: Residual)
    requires Valid(w) && w.x < |w.row| && |ds| == w.x && RingHolds(w, ds)
    requires r.x == w.x + 1 && |r.ring| == 3
    requires r.ringIdx == (w.ringIdx + 1) % 3
    requires r.ring[w.ringIdx] == Add(w.ring[w.ringIdx], Weighted(d, 3))
    requires r.ring[(w.ringIdx + 1) % 3] == Add(w.ring[(w.ringIdx + 1) % 3], Weighted(d, 5))
    requires r.ring[(w.ringIdx + 2) % 3] == Weighted(d, 1)
    requires r.nextPixelError == Weighted(d, 7)
    ensures RingHolds(r, ds + [d])
    ensures r.ring[w.ringIdx] == Message(ds + [d], w.x)
  {
    var k: int := w.x;
    var ds' := ds + [d];
    var d1, d2 := Prior(ds, k - 1), Prior(ds, k - 2);
    assert Prior(ds', k) == d && Prior(ds', k - 1) == d1 && Prior(ds', k - 2) == d2;
    RingSlots(w.x);
    var i0, i1, i2 := k % 3, (k + 1) % 3, (k + 2) % 3;
    assert w.ringIdx == i0;
    assert r.ringIdx == i1;
    assert r.ring[i0] == Add(Add(Weighted(d1, 5), Weighted(d2, 1)), Weighted(d, 3));
    assert r.ring[i1] == Add(Weighted(d1, 1), Weighted(d, 5));
    assert r.ring[i2] == Weighted(d, 1);
    assert Message(ds', k) == Add(Add(Weighted(d, 3), Weighted(d1, 5)), Weighted(d2, 1));
  }

  lemma StepSent(w: Worker, r: Worker, ds: seq<Residual>, d: Residual, m: Errors)
    requires |ds| == w.x && SentHolds(w, ds)
    requires r.x == w.x + 1 && r.sent == w.sent + [m] && m == Message(ds + [d], w.x)
    ensures SentHolds(r, ds + [d])
  {
    var ds' := ds + [d];
    forall i | 0 <= i < w.x
      ensures r.sent[i] == Message(ds', i)
    {
      assert Prior(ds', i) == Prior(ds, i);
      assert Prior(ds', i - 1) == Prior(ds, i - 1);
      assert Prior(ds', i - 2) == Prior(ds, i - 2);
    }
  }

  lemma StepRow(w: Worker, r: Worker, row: seq<Color>, incoming: seq<Errors>, ds: seq<Residual>)
    requires |ds| == w.x && w.x < |row| && RowHolds(w, row, incoming, ds)
    requires r.x == w.x + 1 && r.row == w.row[w.x := Lookup(row, incoming, ds, w.x).color]
    ensures RowHolds(r, row, incoming, ds + [Lookup(row, incoming, ds, w.x).residual])
  {
    var ds' := ds + [Lookup(row, incoming, ds, w.x).residual];
    forall i: nat | i < r.x
      ensures r.row[i] == Lookup(row, incoming, ds', i).color
    {
      var left: int := i - 1;
      assert Prior(ds', left) == Prior(ds, left);
      assert Applied(ds', incoming, i) == Applied(ds, incoming, i);
    }
  }

  /** One iteration keeps the invariant: the ring buffer holds exactly the
      partial sums the reference definitions describe. */
  lemma StepInv(w: Worker, row: seq<Color>, incoming: seq<Errors>, y: nat, height: nat, spawnAt: nat)
    requires Inv(w, row, incoming, y, height, spawnAt) && w.x < |row|
    ensures Inv(Step(w, incoming, y, height, spawnAt), row, incoming, y, height, spawnAt)
  {
    var ds := Residuals(row, incoming, w.x);
    var n := Lookup(row, incoming, ds, w.x);
    assert w.row[w.x] == row[w.x];
    assert Add(w.nextPixelError, Received(incoming, w.x)) == Applied(ds, incoming, w.x);
    StepFields(w, incoming, y, height, spawnAt, n);
    StepKeepsInv(w, Step(w, incoming, y, height, spawnAt), row, incoming, y, height, spawnAt);
  }

  /** `StepInv` for any worker `r` with the fields `StepFields` describes. */
  lemma StepKeepsInv(w: Worker, r: Worker, row: seq<Color>, incoming: seq<Errors>, y: nat, height: nat, spawnAt: nat)
    requires Inv(w, row, incoming, y, height, spawnAt) && w.x < |row|
    requires Valid(r) && r.x == w.x + 1
    requires r.ringIdx == (w.ringIdx + 1) % 3 && |r.ring| == 3
    requires var d := Lookup(row, incoming, Residuals(row, incoming, w.x), w.x).residual;
             && r.ring[w.ringIdx] == Add(w.ring[w.ringIdx], Weighted(d, 3))
             && r.ring[(w.ringIdx + 1) % 3] == Add(w.ring[(w.ringIdx + 1) % 3], Weighted(d, 5))
             && r.ring[(w.ringIdx + 2) % 3] == Weighted(d, 1)
             && r.nextPixelError == Weighted(d, 7)
    requires r.row == w.row[w.x := Lookup(row, incoming, Residuals(row, incoming, w.x), w.x).color]
    requires r.sent == w.sent + [r.ring[w.ringIdx]]
    requires r.spawned == (w.spawned || (w.x == spawnAt && y < height - 1))
    ensures Inv(r, row, incoming, y, height, spawnAt)
  {
    var ds := Residuals(row, incoming, w.x);
    var n := Lookup(row, incoming, ds, w.x);
    ResidualsExtend(row, incoming, w.x);
    StepRing(w, r, ds, n.residual);
    StepSent(w, r, ds, n.residual, r.ring[w.ringIdx]);
    StepRow(w, r, row, incoming, ds);
    var ds' := ds + [n.residual];
    assert Residuals(row, incoming, r.x) == ds';
    assert RingHolds(r, ds') && SentHolds(r, ds') && RowHolds(r, row, incoming, ds');
  }

  lemma {:induction false} FinishInv(w: Worker, row: seq<Color>, incoming: seq<Errors>, y: nat, height: nat, spawnAt: nat)
    requires Inv(w, row, incoming, y, height, spawnAt)
    ensures Inv(Finish(w, incoming, y, height, spawnAt), row, incoming, y, height, spawnAt)
    decreases |w.row| - w.x
  {
    if w.x < |w.row| {
      StepInv(w, row, incoming, y, height, spawnAt);
      FinishInv(Step(w, incoming, y, height, spawnAt), row, incoming, y, height, spawnAt);
    }
  }

  lemma ThreadInv(row: seq<Color>, incoming: seq<Errors>, y: nat, height: nat, spawnAt: nat)
    ensures Inv(Thread(row, incoming, y, height, spawnAt), row, incoming, y, height, spawnAt)
    ensures Thread(row, incoming, y, height, spawnAt).x == |row|
  {
    StartInv(row, incoming, y, height, spawnAt);
    FinishInv(Start(row), row, incoming, y, height, spawnAt);
  }

  /** A worker writes, at every column, the palette colour nearest to the
      original pixel plus 7/16 of the residual to its left and the message
      from above; pixels are looked up one after the other. */
  lemma ThreadPixels(row: seq<Color>, incoming: seq<Errors>, y: nat, height: nat, spawnAt: nat)
    ensures forall i :: 0 <= i < |row| ==>
              Thread(row, incoming, y, height, spawnAt).row[i]
              == Lookup(row, incoming, Residuals(row, incoming, |row|), i).color
  {
    ThreadInv(row, incoming, y, height, spawnAt);
  }

  /** The `i`-th message a worker sends is 3/16 of residual `i`, 5/16 of
      residual `i - 1` and 1/16 of residual `i - 2`: the ring buffer loses
      and duplicates nothing. */
  lemma ThreadMessages(row: seq<Color>, incoming: seq<Errors>, y: nat, height: nat, spawnAt: nat)
    ensures forall i :: 0 <= i < |row| ==>
              Thread(row, incoming, y, height, spawnAt).sent[i]
              == Message(Residuals(row, incoming, |row|), i)
  {
    ThreadInv(row, incoming, y, height, spawnAt);
  }

  /** The error the kernel hands from a row with residuals `ds` to pixel `t`
      of the row below. Only the pixels `t + 1`, `t` and `t - 1` of the row
      aim at it (`KernelTargets`); each gives its residual times the factor
      of its offset. */
  function DownTotal(ds: seq<Residual>, t: int): Errors
  {
    Add(Add(Weighted(Prior(ds, t + 1), WeightAt(DitheringMatrix, -1, 1)),
            Weighted(Prior(ds, t), WeightAt(DitheringMatrix, 0, 1))),
        Weighted(Prior(ds, t - 1), WeightAt(DitheringMatrix, 1, 1)))
  }

  /** Message `x` is the kernel's whole contribution from this row to pixel
      `x - 1` of the row below, the leftmost of the three pixels under `x`. */
  lemma MessageIsDownTotal(ds: seq<Residual>, x: nat)
    ensures Message(ds, x) == DownTotal(ds, x - 1)
  {
    KernelTargets(-1, 1);
    KernelTargets(0, 1);
    KernelTargets(1, 1);
  }

  /** The column the repository's workers spawn their successor at. */
  const SPAWN_COLUMN: nat := 1

  /** The workers of rows `y` onwards, the worker of row `y` receiving
      `incoming`; a worker that does not spawn its successor ends the run. */
  function ConvertFrom(img: Image, y: nat, incoming: seq<Errors>, spawnAt: nat): (r: Image)
    requires Rectangular(img) && y < Height(img)
    ensures SameShape(img, r)
    ensures forall j :: 0 <= j < y ==> r[j] == img[j]
    decreases Height(img) - y
  {
    var w := Thread(img[y], incoming, y, Height(img), spawnAt);
    if w.spawned then ConvertFrom(img[y := w.row], y + 1, w.sent, spawnAt) else img[y := w.row]
  }

  /** `ChannelConverter::convert`: the worker of row 0 has no worker above it. */
  function ChannelConvert(img: Image): (r: Image)
    requires Rectangular(img)
    ensures SameShape(img, r)
  {
    if Height(img) == 0 then img else ConvertFrom(img, 0, [], SPAWN_COLUMN)
  }

  /** A worker writes only palette colours into its row. */
  lemma ThreadInPalette(row: seq<Color>, incoming: seq<Errors>, y: nat, height: nat, spawnAt: nat)
    ensures forall i :: 0 <= i < |row| ==> Thread(row, incoming, y, height, spawnAt).row[i] in Palette()
  {
    ThreadPixels(row, incoming, y, height, spawnAt);
    var ds := Residuals(row, incoming, |row|);
    forall i | 0 <= i < |row|
      ensures Lookup(row, incoming, ds, i).color in Palette()
    {
      FindClosestInPalette(DistributeRgbChannels(row[i], Applied(ds, incoming, i), ONE));
    }
  }

  /** When the row is wider than the spawn column, every row from `y` on is
      converted and holds only palette colours. */
  lemma {:induction false} ConvertFromInPalette(img: Image, y: nat, incoming: seq<Errors>, spawnAt: nat)
    requires Rectangular(img) && y < Height(img) && spawnAt < Width(img)
    ensures forall q :: InBounds(img, q) && q.y >= y ==> Get(ConvertFrom(img, y, incoming, spawnAt), q) in Palette()
    decreases Height(img) - y
  {
    var w := Thread(img[y], incoming, y, Height(img), spawnAt);
    ThreadInPalette(img[y], incoming, y, Height(img), spawnAt);
    var next := img[y := w.row];
    var r := ConvertFrom(img, y, incoming, spawnAt);
    if w.spawned {
      ConvertFromInPalette(next, y + 1, w.sent, spawnAt);
      assert r == ConvertFrom(next, y + 1, w.sent, spawnAt);
    } else {
      assert r == next;
    }
    RowsInPalette(img, r, y, w.row);
  }

  /** Row `y` of `r` is `row` and the rows below are palette colours, so
      every row from `y` on is. */
  lemma RowsInPalette(img: Image, r: Image, y: nat, row: seq<Color>)
    requires SameShape(img, r) && y < Height(img) && r[y] == row
    requires forall i :: 0 <= i < |row| ==> row[i] in Palette()
    requires forall q :: InBounds(img, q) && q.y > y ==> Get(r, q) in Palette()
    ensures forall q :: InBounds(img, q) && q.y >= y ==> Get(r, q) in Palette()
  {
    forall q | InBounds(img, q) && q.y >= y
      ensures Get(r, q) in Palette()
    {
      if q.y == y {
        assert Get(r, q) == row[q.x];
      }
    }
  }

  /** When the row is not wider than the spawn column, the worker of row `y`
      spawns no successor and the rows below are returned unconverted. */
  lemma ConvertFromStops(img: Image, y: nat, incoming: seq<Errors>, spawnAt: nat)
    requires Rectangular(img) && y < Height(img) && Width(img) <= spawnAt
    ensures forall j :: y < j < Height(img) ==> ConvertFrom(img, y, incoming, spawnAt)[j] == img[j]
  {
  }

  /** Images at least two pixels wide come back entirely in the palette. */
  lemma ChannelInPalette(img: Image)
    requires Rectangular(img) && Width(img) >= 2
    ensures AllInPalette(ChannelConvert(img))
  {
    ConvertFromInPalette(img, 0, [], SPAWN_COLUMN);
  }

  /** In an image one pixel wide only row 0 is converted: the worker of row 0
      never reaches column 1, so it never spawns the worker of row 1. */
  lemma ChannelNarrowRowsUnconverted(img: Image)
    requires Rectangular(img) && Width(img) < 2
    ensures forall j :: 1 <= j < Height(img) ==> ChannelConvert(img)[j] == img[j]
  {
    if Height(img) > 0 {
      ConvertFromStops(img, 0, [], SPAWN_COLUMN);
    }
  }

  /** The converter with each worker spawning its successor at column 0. */
  function ChannelConvertSpawnFirst(img: Image): (r: Image)
    requires Rectangular(img)
    ensures SameShape(img, r)
  {
    if Height(img) == 0 then img else ConvertFrom(img, 0, [], 0)
  }

  /** Spawning at column 0, every image of any width comes back entirely in
      the palette. */
  lemma SpawnFirstInPalette(img: Image)
    requires Rectangular(img)
    ensures AllInPalette(ChannelConvertSpawnFirst(img))
  {
    if Height(img) > 0 && Width(img) > 0 {
      ConvertFromInPalette(img, 0, [], 0);
    }
  }

  /** The worker of row `y + 1` adds, at column `x`, the kernel's total for
      column `x - 1`: the messages arrive one column to the right of the
      pixel they were collected for. */
  lemma ReceivedIsLeftDownTotal(row: seq<Color>, incoming: seq<Errors>, y: nat, height: nat, spawnAt: nat, x: nat)
    requires x < |row|
    ensures Received(Thread(row, incoming, y, height, spawnAt).sent, x)
              == DownTotal(Residuals(row, incoming, |row|), x - 1)
  {
    ThreadMessages(row, incoming, y, height, spawnAt);
    MessageIsDownTotal(Residuals(row, incoming, |row|), x);
  }

  /** No message carries any error. */
  predicate Quiet(incoming: seq<Errors>)
  {
    forall i :: 0 <= i < |incoming| ==> incoming[i] == NO_ERROR
  }

  /** A colour that is its own lookup, with no residual: by `FixedPoint` and
      `ZeroResidualInPalette`, exactly the palette colours. */
  predicate Settled(c: Color)
  {
    FindClosest(c) == Nearest(c, ZERO_RESIDUAL)
  }

  /** A worker that has changed nothing so far and has no error buffered. */
  predicate QuietWorker(w: Worker, row: seq<Color>)
  {
    && Valid(w) && w.row == row
    && w.ring == [NO_ERROR, NO_ERROR, NO_ERROR] && w.nextPixelError == NO_ERROR
    && Quiet(w.sent)
  }

  /** A settled pixel with quiet messages keeps its colour and leaves the
      worker quiet. */
  lemma QuietStep(w: Worker, incoming: seq<Errors>, y: nat, height: nat, spawnAt: nat)
    requires QuietWorker(w, w.row) && w.x < |w.row| && Quiet(incoming) && Settled(w.row[w.x])
    ensures QuietWorker(Step(w, incoming, y, height, spawnAt), w.row)
  {
    var c := w.row[w.x];
    QuietReceived(incoming, w.x);
    AddNoError(NO_ERROR);
    var applied := Add(w.nextPixelError, Received(incoming, w.x));
    NoErrorUnchanged(c, applied, ONE);
    var n := FindClosest(DistributeRgbChannels(c, applied, ONE));
    assert n.residual == ZERO_RESIDUAL;
    WeightedZero(DitheringMatrix[0].weight);
    WeightedZero(DitheringMatrix[1].weight);
    WeightedZero(DitheringMatrix[2].weight);
    WeightedZero(DitheringMatrix[3].weight);
    var r := Step(w, incoming, y, height, spawnAt);
    assert r.row == w.row[w.x := c] == w.row;
  }

  /** A quiet worker above sends nothing to any column. */
  lemma QuietReceived(incoming: seq<Errors>, x: nat)
    requires Quiet(incoming)
    ensures Received(incoming, x) == NO_ERROR
  {
  }

  /** By induction on the columns left, a quiet worker over a row of settled
      colours stays quiet to the end of the row. */
  lemma {:induction false} QuietFinish(w: Worker, incoming: seq<Errors>, y: nat, height: nat, spawnAt: nat)
    requires QuietWorker(w, w.row) && Quiet(incoming)
    requires forall i {:trigger Settled(w.row[i])} :: 0 <= i < |w.row| ==> Settled(w.row[i])
    ensures QuietWorker(Finish(w, incoming, y, height, spawnAt), w.row)
    decreases |w.row| - w.x
  {
    if w.x < |w.row| {
      assert Settled(w.row[w.x]);
      QuietStep(w, incoming, y, height, spawnAt);
      QuietFinish(Step(w, incoming, y, height, spawnAt), incoming, y, height, spawnAt);
    }
  }

  /** A worker leaves a row of settled colours as it is and sends only
      quiet messages, given quiet messages from above. */
  lemma QuietThread(row: seq<Color>, incoming: seq<Errors>, y: nat, height: nat, spawnAt: nat)
    requires Quiet(incoming)
    requires forall i {:trigger Settled(row[i])} :: 0 <= i < |row| ==> Settled(row[i])
    ensures Thread(row, incoming, y, height, spawnAt).row == row
    ensures Quiet(Thread(row, incoming, y, height, spawnAt).sent)
  {
    QuietFinish(Start(row), incoming, y, height, spawnAt);
  }

  lemma {:induction false} ConvertFromFixed(img: Image, y: nat, incoming: seq<Errors>, spawnAt: nat)
    requires Rectangular(img) && y < Height(img) && AllInPalette(img) && Quiet(incoming)
    ensures ConvertFrom(img, y, incoming, spawnAt) == img
    decreases Height(img) - y
  {
    forall i | 0 <= i < |img[y]|
      ensures Settled(img[y][i])
    {
      assert Get(img, Pos(i, y)) == img[y][i];
      FixedPoint(img[y][i]);
    }
    QuietThread(img[y], incoming, y, Height(img), spawnAt);
    var w := Thread(img[y], incoming, y, Height(img), spawnAt);
    assert img[y := w.row] == img;
    if w.spawned {
      ConvertFromFixed(img, y + 1, w.sent, spawnAt);
    }
  }

  /** An image already in the palette is returned unchanged. */
  lemma ChannelFixed(img: Image)
    requires Rectangular(img) && AllInPalette(img)
    ensures ChannelConvert(img) == img
  {
    if Height(img) > 0 {
      ConvertFromFixed(img, 0, [], SPAWN_COLUMN);
    }
  }
}
