/** `SingleThreadedConverter::convert` of src/convert_single_threaded.rs.

    Each visit quantises one pixel to its nearest palette colour and hands the
    residual to the in-bounds kernel targets. The repository visits the pixels
    column by column (`x` in the outer loop, `y` in the inner one), so the
    down-left target of a visit has already been quantised; the lemmas below
    make this visible. `ConvertRowMajor` is the row-by-row order the kernel
    is designed for. */
module SingleThreaded {
  import opened Colors
  import opened Converter
  import opened Images

  /** The factor the kernel sends from `src` to `dst`; 0 when `dst` is not one
      of the four targets of `src`. */
  function WeightFrom(src: Pos, dst: Pos): nat
  {
    WeightAt(DitheringMatrix, dst.x - src.x, dst.y - src.y)
  }

  /** Visiting `src` adds error to pixel `dst`. */
  predicate Reaches(src: Pos, dst: Pos)
  {
    WeightFrom(src, dst) > 0
  }

  /** No two taps aim at the same offset. */
  predicate DistinctOffsets(taps: seq<Tap>)
  {
    forall i, j :: 0 <= i < j < |taps| ==> taps[i].dx != taps[j].dx || taps[i].dy != taps[j].dy
  }

  /** An offset aimed at by the later taps is aimed at by the whole list. */
  lemma AimsTail(taps: seq<Tap>, dx: int, dy: int)
    requires |taps| > 0
    ensures Aims(taps[1..], dx, dy) ==> Aims(taps, dx, dy)
  {
    if Aims(taps[1..], dx, dy) {
      var i :| 0 <= i < |taps[1..]| && taps[1..][i].dx == dx && taps[1..][i].dy == dy;
      assert taps[i + 1] == taps[1..][i];
    }
  }

  /** With distinct offsets, the first tap's offset is not aimed at again. */
  lemma FirstNotRepeated(taps: seq<Tap>)
    requires |taps| > 0 && DistinctOffsets(taps)
    ensures !Aims(taps[1..], taps[0].dx, taps[0].dy)
    ensures DistinctOffsets(taps[1..])
  {
    forall i | 0 <= i < |taps[1..]|
      ensures taps[1..][i].dx != taps[0].dx || taps[1..][i].dy != taps[0].dy
    {
      assert taps[1..][i] == taps[i + 1];
    }
  }

  /** An offset no tap aims at gets factor 0. */
  lemma {:induction false} NotAimedWeightZero(taps: seq<Tap>, dx: int, dy: int)
    requires !Aims(taps, dx, dy)
    ensures WeightAt(taps, dx, dy) == 0
    decreases |taps|
  {
    if |taps| > 0 {
      assert taps[0].dx != dx || taps[0].dy != dy;
      AimsTail(taps, dx, dy);
      NotAimedWeightZero(taps[1..], dx, dy);
    }
  }

  /** One pass of the propagation loop: the tap's target, when inside the
      image, gets `errors` times the tap's factor; otherwise nothing changes. */
  function DiffuseFirst(img: Image, p: Pos, errors: Errors, t: Tap): (r: Image)
    requires Rectangular(img)
    ensures SameShape(img, r)
  {
    if InBounds(img, Pos(p.x + t.dx, p.y + t.dy)) then
      Set(img, Pos(p.x + t.dx, p.y + t.dy),
          DistributeRgbChannels(Get(img, Pos(p.x + t.dx, p.y + t.dy)), errors, t.weight))
    else img
  }

  /** The error-propagation loop of one visit (lines 32-43): every tap whose
      target lies inside the image gets `errors` times the tap's factor; a
      target outside is skipped. */
  function Diffuse(img: Image, p: Pos, errors: Errors, taps: seq<Tap>): (r: Image)
    requires Rectangular(img)
    ensures SameShape(img, r)
    decreases |taps|
  {
    if |taps| == 0 then img
    else Diffuse(DiffuseFirst(img, p, errors, taps[0]), p, errors, taps[1..])
  }

  /** `Diffuse` handles the first tap, then the rest. */
  lemma DiffuseUnfold(img: Image, p: Pos, errors: Errors, taps: seq<Tap>)
    requires Rectangular(img) && |taps| > 0
    ensures Diffuse(img, p, errors, taps) == Diffuse(DiffuseFirst(img, p, errors, taps[0]), p, errors, taps[1..])
  {
  }

  /** After `Diffuse`, each pixel carries the error at the factor its offset
      from `p` receives, and the pixels no tap aims at are unchanged. */
  lemma {:induction false} DiffuseEffect(img: Image, p: Pos, errors: Errors, taps: seq<Tap>, q: Pos)
    requires Rectangular(img) && InBounds(img, q)
    requires DistinctOffsets(taps)
    ensures Get(Diffuse(img, p, errors, taps), q)
              == DistributeRgbChannels(Get(img, q), errors, WeightAt(taps, q.x - p.x, q.y - p.y))
    decreases |taps|
  {
    if |taps| == 0 {
      NoErrorUnchanged(Get(img, q), errors, 0);
    } else {
      var t := Pos(p.x + taps[0].dx, p.y + taps[0].dy);
      var next := DiffuseFirst(img, p, errors, taps[0]);
      DiffuseUnfold(img, p, errors, taps);
      FirstNotRepeated(taps);
      DiffuseEffect(next, p, errors, taps[1..], q);
      if q == t {
        NotAimedWeightZero(taps[1..], q.x - p.x, q.y - p.y);
        NoErrorUnchanged(Get(next, q), errors, 0);
        assert Get(next, q) == DistributeRgbChannels(Get(img, q), errors, taps[0].weight);
      } else {
        assert Get(next, q) == Get(img, q);
        assert WeightAt(taps, q.x - p.x, q.y - p.y) == WeightAt(taps[1..], q.x - p.x, q.y - p.y);
      }
    }
  }

  /** No two taps of the kernel share an offset. */
  lemma KernelOffsetsDistinct()
    ensures DistinctOffsets(DitheringMatrix)
  {
  }

  /** One iteration of the nested loops (lines 20-43): the pixel becomes
      `find_closest` of its current value and its residual is diffused. */
  function Visit(img: Image, p: Pos): (r: Image)
    requires Rectangular(img) && InBounds(img, p)
    ensures SameShape(img, r)
  {
    Diffuse(Set(img, p, FindClosest(Get(img, p)).color), p,
            Normalize(FindClosest(Get(img, p)).residual), DitheringMatrix)
  }

  /** The visited pixel becomes a nearest palette colour of its current value;
      every other pixel receives the residual at the factor of its offset,
      which is 0, leaving it unchanged, off the four kernel targets. */
  lemma VisitEffect(img: Image, p: Pos, q: Pos)
    requires Rectangular(img) && InBounds(img, p) && InBounds(img, q)
    ensures q == p ==> Get(Visit(img, p), q) == FindClosest(Get(img, p)).color
    ensures q != p ==>
              Get(Visit(img, p), q)
              == DistributeRgbChannels(Get(img, q), Normalize(FindClosest(Get(img, p)).residual), WeightFrom(p, q))
    ensures q != p && !Reaches(p, q) ==> Get(Visit(img, p), q) == Get(img, q)
  {
    var n := FindClosest(Get(img, p));
    var errors := Normalize(n.residual);
    var m := Set(img, p, n.color);
    KernelOffsetsDistinct();
    DiffuseEffect(m, p, errors, DitheringMatrix, q);
    assert Get(Visit(img, p), q) == DistributeRgbChannels(Get(m, q), errors, WeightFrom(p, q));
    if q == p {
      KernelTargets(0, 0);
      NoErrorUnchanged(n.color, errors, 0);
    } else {
      assert Get(m, q) == Get(img, q);
      if !Reaches(p, q) {
        NoErrorUnchanged(Get(img, q), errors, 0);
      }
    }
  }

  /** Every position of `order` lies inside the image. */
  predicate AllInBounds(img: Image, order: seq<Pos>)
  {
    forall i :: 0 <= i < |order| ==> InBounds(img, order[i])
  }

  /** The visits of `order`, one after the other. */
  function Run(img: Image, order: seq<Pos>): (r: Image)
    requires Rectangular(img) && AllInBounds(img, order)
    ensures SameShape(img, r)
    decreases |order|
  {
    if |order| == 0 then img else Run(Visit(img, order[0]), order[1..])
  }

  lemma {:induction false} RunAppend(img: Image, a: seq<Pos>, b: seq<Pos>)
    requires Rectangular(img) && AllInBounds(img, a + b)
    ensures AllInBounds(img, a) && AllInBounds(Run(img, a), b)
    ensures Run(img, a + b) == Run(Run(img, a), b)
    decreases |a|
  {
    assert forall i :: 0 <= i < |a| ==> a[i] == (a + b)[i];
    assert forall i :: 0 <= i < |b| ==> b[i] == (a + b)[|a| + i];
    if |a| > 0 {
      assert (a + b)[1..] == a[1..] + b;
      RunAppend(Visit(img, a[0]), a[1..], b);
    } else {
      assert a + b == b;
    }
  }

  /** A pixel that no visit of `order` quantises or reaches keeps its value. */
  lemma {:induction false} RunFrame(img: Image, order: seq<Pos>, q: Pos)
    requires Rectangular(img) && AllInBounds(img, order) && InBounds(img, q)
    requires forall i :: 0 <= i < |order| ==> order[i] != q && !Reaches(order[i], q)
    ensures Get(Run(img, order), q) == Get(img, q)
    decreases |order|
  {
    if |order| > 0 {
      VisitEffect(img, order[0], q);
      RunFrame(Visit(img, order[0]), order[1..], q);
    }
  }

  /** The run of `order` is the run up to position `k`, the visit of
      `order[k]`, and the run of the rest. */
  lemma RunSplitAt(img: Image, order: seq<Pos>, k: nat)
    requires Rectangular(img) && AllInBounds(img, order) && k < |order|
    ensures AllInBounds(img, order[..k])
    ensures AllInBounds(Run(img, order[..k]), order[k + 1..])
    ensures Run(img, order) == Run(Visit(Run(img, order[..k]), order[k]), order[k + 1..])
  {
    assert order == order[..k] + order[k..];
    RunAppend(img, order[..k], order[k..]);
    assert order[k..][1..] == order[k + 1..];
  }

  /** If no later visit quantises or reaches `order[k]`, the pixel ends as the
      palette colour its own visit chose. */
  lemma QuantisedUnlessReachedLater(img: Image, order: seq<Pos>, k: nat)
    requires Rectangular(img) && AllInBounds(img, order) && k < |order|
    requires forall j :: k < j < |order| ==> order[j] != order[k] && !Reaches(order[j], order[k])
    ensures AllInBounds(img, order[..k])
    ensures Get(Run(img, order), order[k]) == FindClosest(Get(Run(img, order[..k]), order[k])).color
  {
    var p := order[k];
    RunSplitAt(img, order, k);
    var mid := Run(img, order[..k]);
    VisitEffect(mid, p, p);
    RunFrame(Visit(mid, p), order[k + 1..], p);
  }

  /** If, after `order[k]`, exactly one visit `order[m]` reaches that pixel,
      the pixel ends as the palette colour its own visit chose, shifted by
      that later visit's share of its residual. */
  lemma ReachedOnceLater(img: Image, order: seq<Pos>, k: nat, m: nat)
    requires Rectangular(img) && AllInBounds(img, order) && k < m < |order|
    requires forall j :: k < j < |order| ==> order[j] != order[k]
    requires forall j :: k < j < |order| && j != m ==> !Reaches(order[j], order[k])
    ensures AllInBounds(img, order[..k]) && AllInBounds(img, order[..m])
    ensures Get(Run(img, order), order[k])
              == DistributeRgbChannels(FindClosest(Get(Run(img, order[..k]), order[k])).color,
                                       Normalize(FindClosest(Get(Run(img, order[..m]), order[m])).residual),
                                       WeightFrom(order[m], order[k]))
  {
    var p, v := order[k], order[m];
    RunSplitAt(img, order, m);
    PrefixAvoids(order, k, m);
    QuantisedUnlessReachedLater(img, order[..m], k);
    var before := Run(img, order[..m]);
    VisitEffect(before, v, p);
    SuffixAvoids(order, m, order[m + 1..], p);
    RunFrame(Visit(before, v), order[m + 1..], p);
  }

  /** Cutting `order` at `m` keeps what holds of the visits after `k`. */
  lemma PrefixAvoids(order: seq<Pos>, k: nat, m: nat)
    requires k < m <= |order|
    requires forall j :: k < j < m ==> order[j] != order[k] && !Reaches(order[j], order[k])
    ensures order[..m][..k] == order[..k] && order[..m][k] == order[k]
    ensures forall j :: k < j < |order[..m]| ==>
              order[..m][j] != order[..m][k] && !Reaches(order[..m][j], order[..m][k])
  {
    forall j | k < j < |order[..m]|
      ensures order[..m][j] != order[..m][k] && !Reaches(order[..m][j], order[..m][k])
    {
      assert order[..m][j] == order[j];
    }
  }

  /** The visits after `m` are the suffix from `m + 1`. */
  lemma SuffixAvoids(order: seq<Pos>, m: nat, rest: seq<Pos>, p: Pos)
    requires m < |order| && rest == order[m + 1..]
    requires forall j :: m < j < |order| ==> order[j] != p && !Reaches(order[j], p)
    ensures forall i :: 0 <= i < |rest| ==> rest[i] != p && !Reaches(rest[i], p)
  {
    forall i | 0 <= i < |rest|
      ensures rest[i] != p && !Reaches(rest[i], p)
    {
      assert rest[i] == order[m + 1 + i];
    }
  }

  /** The positions `(x, 0)`, ..., `(x, h - 1)`: the inner loop over `y`. */
  function Column(x: nat, h: nat): (c: seq<Pos>)
    ensures |c| == h
    ensures forall y :: 0 <= y < h ==> c[y] == Pos(x, y)
  {
    if h == 0 then [] else Column(x, h - 1) + [Pos(x, h - 1)]
  }

  /** The visiting order of lines 18-19: `x` in the outer loop, `y` in the inner one. */
  function ColumnMajor(w: nat, h: nat): (order: seq<Pos>)
    ensures |order| == w * h
    ensures forall i :: 0 <= i < |order| ==> Inside(w, h, order[i])
  {
    if w == 0 then [] else ColumnMajor(w - 1, h) + Column(w - 1, h)
  }

  /** `a` comes before `b` when walking column by column. */
  predicate ColumnBefore(a: Pos, b: Pos)
  {
    a.x < b.x || (a.x == b.x && a.y < b.y)
  }

  /** The column-major order is strictly increasing, so no pixel is visited twice. */
  lemma {:induction false} ColumnMajorSorted(w: nat, h: nat)
    ensures forall i, j :: 0 <= i < j < |ColumnMajor(w, h)| ==>
              ColumnBefore(ColumnMajor(w, h)[i], ColumnMajor(w, h)[j])
  {
    if w > 0 {
      ColumnMajorSorted(w - 1, h);
      var a, c := ColumnMajor(w - 1, h), Column(w - 1, h);
      forall i, j | 0 <= i < j < |a + c|
        ensures ColumnBefore((a + c)[i], (a + c)[j])
      {
        if j < |a| {
          assert (a + c)[i] == a[i] && (a + c)[j] == a[j];
        } else if i < |a| {
          assert (a + c)[i] == a[i] && (a + c)[j] == c[j - |a|];
        } else {
          assert (a + c)[i] == c[i - |a|] && (a + c)[j] == c[j - |a|];
        }
      }
    }
  }

  /** Every pixel of the grid is visited. */
  lemma {:induction false} ColumnMajorCovers(w: nat, h: nat, p: Pos)
    requires Inside(w, h, p)
    ensures p in ColumnMajor(w, h)
  {
    if p.x == w - 1 {
      assert Column(w - 1, h)[p.y] == p;
    } else {
      ColumnMajorCovers(w - 1, h, p);
    }
  }

  /** The index of the first occurrence of `p` in `s`. */
  function IndexOf(s: seq<Pos>, p: Pos): (k: nat)
    requires p in s
    ensures k < |s| && s[k] == p
  {
    if s[0] == p then 0 else 1 + IndexOf(s[1..], p)
  }

  /** `SingleThreadedConverter::convert`. */
  function Convert(img: Image): (r: Image)
    requires Rectangular(img)
    ensures SameShape(img, r)
  {
    Run(img, ColumnMajor(Width(img), Height(img)))
  }

  /** The image as it stands when the converter reaches `p`. */
  function Before(img: Image, p: Pos): Image
    requires Rectangular(img) && InBounds(img, p)
  {
    ColumnMajorCovers(Width(img), Height(img), p);
    Run(img, ColumnMajor(Width(img), Height(img))[..IndexOf(ColumnMajor(Width(img), Height(img)), p)])
  }

  /** A visit after `p` in column order reaches `p` only from the column to
      the right, one row up: the down-left target of that visit. */
  lemma LaterColumnReach(p: Pos, v: Pos)
    requires ColumnBefore(p, v)
    ensures Reaches(v, p) ==> v == Pos(p.x + 1, p.y - 1)
  {
    KernelTargets(p.x - v.x, p.y - v.y);
  }

  /** Pixels in row 0 or in the last column end as the palette colour chosen
      at their own visit. */
  lemma EdgePixelsQuantised(img: Image, p: Pos)
    requires Rectangular(img) && InBounds(img, p)
    requires p.y == 0 || p.x == Width(img) - 1
    ensures Get(Convert(img), p) == FindClosest(Get(Before(img, p), p)).color
    ensures Get(Convert(img), p) in Palette()
  {
    var order := ColumnMajor(Width(img), Height(img));
    ColumnMajorCovers(Width(img), Height(img), p);
    var k := IndexOf(order, p);
    ColumnMajorSorted(Width(img), Height(img));
    forall j | k < j < |order|
      ensures order[j] != p && !Reaches(order[j], p)
    {
      LaterColumnReach(p, order[j]);
    }
    QuantisedUnlessReachedLater(img, order, k);
    FindClosestInPalette(Get(Before(img, p), p));
  }

  /** In column order, the only visit after `p` that reaches `p` is that of
      `(x + 1, y - 1)`, with factor 3/16. */
  lemma LaterVisitsOfInterior(w: nat, h: nat, p: Pos)
    requires Inside(w, h, p) && p.y >= 1 && p.x + 1 < w
    ensures p in ColumnMajor(w, h) && Pos(p.x + 1, p.y - 1) in ColumnMajor(w, h)
    ensures IndexOf(ColumnMajor(w, h), p) < IndexOf(ColumnMajor(w, h), Pos(p.x + 1, p.y - 1))
    ensures forall j :: IndexOf(ColumnMajor(w, h), p) < j < |ColumnMajor(w, h)| ==>
              ColumnMajor(w, h)[j] != p
    ensures forall j :: IndexOf(ColumnMajor(w, h), p) < j < |ColumnMajor(w, h)|
                        && j != IndexOf(ColumnMajor(w, h), Pos(p.x + 1, p.y - 1)) ==>
              !Reaches(ColumnMajor(w, h)[j], p)
    ensures WeightFrom(Pos(p.x + 1, p.y - 1), p) == 3
  {
    var v := Pos(p.x + 1, p.y - 1);
    var order := ColumnMajor(w, h);
    ColumnMajorCovers(w, h, p);
    ColumnMajorCovers(w, h, v);
    var k, m := IndexOf(order, p), IndexOf(order, v);
    ColumnMajorSorted(w, h);
    assert k < m;
    forall j | k < j < |order|
      ensures order[j] != p
      ensures j != m ==> !Reaches(order[j], p)
    {
      LaterColumnReach(p, order[j]);
    }
    KernelTargets(-1, 1);
  }

  /** Every other pixel is quantised at its visit and then changed again: the
      visit of `(x + 1, y - 1)`, which comes later in column order, adds 3/16
      of its residual. The result need not be a palette colour. */
  lemma InteriorPixelReachedAgain(img: Image, p: Pos)
    requires Rectangular(img) && InBounds(img, p)
    requires p.y >= 1 && p.x + 1 < Width(img)
    ensures InBounds(img, Pos(p.x + 1, p.y - 1))
    ensures Get(Convert(img), p)
              == DistributeRgbChannels(FindClosest(Get(Before(img, p), p)).color,
                                       Normalize(FindClosest(Get(Before(img, Pos(p.x + 1, p.y - 1)), Pos(p.x + 1, p.y - 1))).residual),
                                       3)
  {
    var v := Pos(p.x + 1, p.y - 1);
    var order := ColumnMajor(Width(img), Height(img));
    LaterVisitsOfInterior(Width(img), Height(img), p);
    ReachedOnceLater(img, order, IndexOf(order, p), IndexOf(order, v));
  }

  /** Visiting a palette image changes nothing: every residual is zero. */
  lemma VisitFixed(img: Image, p: Pos)
    requires Rectangular(img) && InBounds(img, p) && AllInPalette(img)
    ensures Visit(img, p) == img
  {
    FixedPoint(Get(img, p));
    forall q | InBounds(img, q)
      ensures Get(Visit(img, p), q) == Get(img, q)
    {
      VisitEffect(img, p, q);
      NoErrorUnchanged(Get(img, q), Normalize(FindClosest(Get(img, p)).residual), WeightFrom(p, q));
    }
    Extensionality(Visit(img, p), img);
  }

  lemma {:induction false} RunFixed(img: Image, order: seq<Pos>)
    requires Rectangular(img) && AllInBounds(img, order) && AllInPalette(img)
    ensures Run(img, order) == img
    decreases |order|
  {
    if |order| > 0 {
      VisitFixed(img, order[0]);
      RunFixed(img, order[1..]);
    }
  }

  /** An image already in the palette is returned unchanged. */
  lemma ConvertFixed(img: Image)
    requires Rectangular(img) && AllInPalette(img)
    ensures Convert(img) == img
  {
    RunFixed(img, ColumnMajor(Width(img), Height(img)));
  }

  /** A single pixel becomes its nearest palette colour. */
  lemma SinglePixel(c: Color)
    ensures Convert([[c]]) == [[FindClosest(c).color]]
  {
    var img, o := [[c]], Pos(0, 0);
    assert Column(0, 1) == [o];
    assert ColumnMajor(1, 1) == [o];
    var r := Visit(img, o);
    assert Run(img, [o]) == Run(r, []);
    VisitEffect(img, o, o);
    assert r[0][0] == Get(r, o);
    assert |r| == 1 && |r[0]| == 1;
    assert r[0] == [r[0][0]];
  }

  /** The positions `(0, y)`, ..., `(w - 1, y)`. */
  function Row(y: nat, w: nat): (r: seq<Pos>)
    ensures |r| == w
    ensures forall x :: 0 <= x < w ==> r[x] == Pos(x, y)
  {
    if w == 0 then [] else Row(y, w - 1) + [Pos(w - 1, y)]
  }

  /** Row by row, left to right within a row. */
  function RowMajor(w: nat, h: nat): (order: seq<Pos>)
    ensures |order| == w * h
    ensures forall i :: 0 <= i < |order| ==> Inside(w, h, order[i])
  {
    if h == 0 then [] else RowMajor(w, h - 1) + Row(h - 1, w)
  }

  /** `a` comes before `b` when walking row by row. */
  predicate RowBefore(a: Pos, b: Pos)
  {
    a.y < b.y || (a.y == b.y && a.x < b.x)
  }

  lemma {:induction false} RowMajorSorted(w: nat, h: nat)
    ensures forall i, j :: 0 <= i < j < |RowMajor(w, h)| ==>
              RowBefore(RowMajor(w, h)[i], RowMajor(w, h)[j])
  {
    if h > 0 {
      RowMajorSorted(w, h - 1);
      var a, c := RowMajor(w, h - 1), Row(h - 1, w);
      forall i, j | 0 <= i < j < |a + c|
        ensures RowBefore((a + c)[i], (a + c)[j])
      {
        if j < |a| {
          assert (a + c)[i] == a[i] && (a + c)[j] == a[j];
        } else if i < |a| {
          assert (a + c)[i] == a[i] && (a + c)[j] == c[j - |a|];
        } else {
          assert (a + c)[i] == c[i - |a|] && (a + c)[j] == c[j - |a|];
        }
      }
    }
  }

  lemma {:induction false} RowMajorCovers(w: nat, h: nat, p: Pos)
    requires Inside(w, h, p)
    ensures p in RowMajor(w, h)
  {
    if p.y == h - 1 {
      assert Row(h - 1, w)[p.x] == p;
    } else {
      RowMajorCovers(w, h - 1, p);
    }
  }

  /** Every kernel target lies after its source in row order. */
  lemma ReachesIsForward(v: Pos, p: Pos)
    ensures Reaches(v, p) ==> RowBefore(v, p)
  {
    KernelTargets(p.x - v.x, p.y - v.y);
  }

  /** The converter with the visiting order the kernel is designed for. */
  function ConvertRowMajor(img: Image): (r: Image)
    requires Rectangular(img)
    ensures SameShape(img, r)
  {
    Run(img, RowMajor(Width(img), Height(img)))
  }

  /** In row order no visit reaches a pixel that was already quantised, so
      every output pixel is a palette colour. */
  lemma RowMajorAllInPalette(img: Image)
    requires Rectangular(img)
    ensures AllInPalette(ConvertRowMajor(img))
  {
    var order := RowMajor(Width(img), Height(img));
    RowMajorSorted(Width(img), Height(img));
    forall p | InBounds(img, p)
      ensures Get(ConvertRowMajor(img), p) in Palette()
    {
      RowMajorCovers(Width(img), Height(img), p);
      var k := IndexOf(order, p);
      forall j | k < j < |order|
        ensures order[j] != p && !Reaches(order[j], p)
      {
        ReachesIsForward(order[j], p);
      }
      QuantisedUnlessReachedLater(img, order, k);
      FindClosestInPalette(Get(Run(img, order[..k]), p));
    }
  }

  /** A palette image is returned unchanged by the row-major converter too. */
  lemma ConvertRowMajorFixed(img: Image)
    requires Rectangular(img) && AllInPalette(img)
    ensures ConvertRowMajor(img) == img
  {
    RunFixed(img, RowMajor(Width(img), Height(img)));
  }
}
