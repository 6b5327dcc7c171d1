/** Concrete images on which the two converters of the repository are
    evaluated by hand through the general lemmas. */
module Scenarios {
  import opened Colors
  import opened Converter
  import opened Images
  import opened SingleThreaded
  import opened Channels

  /** The visiting order of a 2 by 2 image. */
  lemma ColumnMajorTwoByTwo()
    ensures ColumnMajor(2, 2) == [Pos(0, 0), Pos(0, 1), Pos(1, 0), Pos(1, 1)]
  {
    assert Column(0, 2) == [Pos(0, 0), Pos(0, 1)];
    assert Column(1, 2) == [Pos(1, 0), Pos(1, 1)];
    assert ColumnMajor(1, 2) == ColumnMajor(0, 2) + Column(0, 2);
  }

  /** Black plus any share of the residual `-13` of black stays black: the
      value is clamped at 0. */
  lemma DarkShareClamped(black: Color, k: nat)
    // `black` is pinned by a precondition rather than written as a literal, so
    // that the solver does not evaluate every call on it eagerly.
    requires black == Color(0, 0, 0)
    ensures DistributeRgbChannels(black, Normalize(Residual(-13, -13, -13)), k) == black
  {
    assert Value(0, -208, k) == -208 * k <= 0;
  }

  /** A visit of a black pixel leaves every other black pixel black. */
  lemma BlackVisitKeepsBlack(img: Image, p: Pos, q: Pos)
    requires Rectangular(img) && InBounds(img, p) && InBounds(img, q) && p != q
    requires Get(img, p) == Color(0, 0, 0) && Get(img, q) == Color(0, 0, 0)
    ensures Get(Visit(img, p), q) == Color(0, 0, 0)
  {
    NearestToBlack(Get(img, p));
    VisitEffect(img, p, q);
    DarkShareClamped(Get(img, q), WeightFrom(p, q));
  }

  /** In the all-black 2 by 2 image, pixels `(0, 1)` and `(1, 0)` are still
      black when their turn comes: the shares handed to them are clamped. */
  lemma BlackBeforeSecondVisit(black: Color)
    // `black` is pinned by a precondition rather than written as a literal, so
    // that the solver does not evaluate every call on it eagerly.
    requires black == Color(0, 0, 0)
    ensures Get(Before([[black, black], [black, black]], Pos(0, 1)), Pos(0, 1)) == black
    ensures Get(Before([[black, black], [black, black]], Pos(1, 0)), Pos(1, 0)) == black
  {
    var img := [[black, black], [black, black]];
    var o, a, b := Pos(0, 0), Pos(0, 1), Pos(1, 0);
    ColumnMajorTwoByTwo();
    var order := ColumnMajor(2, 2);
    assert IndexOf(order, a) == 1 && IndexOf(order, b) == 2;
    assert order[..1] == [o] && order[..2] == [o, a];
    var first := Visit(img, o);
    assert Run(img, [o]) == Run(first, []) == first;
    BlackVisitKeepsBlack(img, o, a);
    BlackVisitKeepsBlack(img, o, b);
    assert Run(img, [o, a]) == Run(Visit(first, a), []) == Visit(first, a);
    BlackVisitKeepsBlack(first, a, b);
  }

  /** `(13, 13, 13)` plus 3/16 of the residual `-13` is `(10, 10, 10)`. */
  lemma ThreeSixteenthsOfDarkest()
    ensures DistributeRgbChannels(Color(13, 13, 13), Normalize(Residual(-13, -13, -13)), 3) == Color(10, 10, 10)
  {
    assert Normalize(Residual(-13, -13, -13)) == Errors(-208, -208, -208);
    assert Value(13, -208, 3) == 2704;
  }

  /** The sequential converter leaves `(10, 10, 10)` at column 0 of row 1 of
      an all-black 2 by 2 image: the nearest colour `(13, 13, 13)` plus 3/16
      of the residual `-13` handed down-left by the later visit of `(1, 0)`.
      That colour is not in the palette. */
  lemma AllBlackTwoByTwo(black: Color)
    // `black` is pinned by a precondition rather than written as a literal, so
    // that the solver does not evaluate every call on it eagerly.
    requires black == Color(0, 0, 0)
    ensures Get(Convert([[black, black], [black, black]]), Pos(0, 1)) == Color(10, 10, 10)
    ensures !AllInPalette(Convert([[black, black], [black, black]]))
  {
    var img := [[black, black], [black, black]];
    var a, b := Pos(0, 1), Pos(1, 0);
    BlackBeforeSecondVisit(black);
    NearestToBlack(black);
    assert FindClosest(Get(Before(img, a), a)) == FindClosest(black);
    assert FindClosest(Get(Before(img, b), b)) == FindClosest(black);
    InteriorPixelReachedAgain(img, a);
    ThreeSixteenthsOfDarkest();
    Grey10NotInPalette();
    assert InBounds(Convert(img), a);
  }

  /** On the all-black 2 by 2 image the channel converter answers palette
      colours only, so the two schedules give different images. */
  lemma SchedulesDiffer(black: Color)
    // `black` is pinned by a precondition rather than written as a literal, so
    // that the solver does not evaluate every call on it eagerly.
    requires black == Color(0, 0, 0)
    ensures Convert([[black, black], [black, black]]) != ChannelConvert([[black, black], [black, black]])
  {
    var img := [[black, black], [black, black]];
    AllBlackTwoByTwo(black);
    ChannelInPalette(img);
  }

  /** A one-pixel-wide image whose second row holds `(10, 10, 10)` comes back
      from the channel converter with that colour still in place: row 1 is
      never converted, and the result is not a palette image. */
  lemma NarrowImage(c: Color, grey: Color)
    // `grey` is pinned by a precondition rather than written as a literal, so
    // that the solver does not evaluate every call on it eagerly.
    requires grey == Color(10, 10, 10)
    ensures ChannelConvert([[c], [grey]])[1][0] == grey
    ensures !AllInPalette(ChannelConvert([[c], [grey]]))
  {
    var img := [[c], [grey]];
    ChannelNarrowRowsUnconverted(img);
    Grey10NotInPalette();
    assert InBounds(ChannelConvert(img), Pos(0, 1));
  }

  /** An all-white image of any size comes back unchanged from both
      converters: white is a palette colour. */
  lemma AllWhiteUnchanged(white: Color, img: Image)
    // `white` is pinned by a precondition rather than written as a literal, so
    // that the solver does not evaluate every call on it eagerly.
    requires white == Color(255, 255, 255)
    requires Rectangular(img) && forall q :: InBounds(img, q) ==> Get(img, q) == white
    ensures Convert(img) == img && ChannelConvert(img) == img
  {
    WhiteInPalette();
    ConvertFixed(img);
    ChannelFixed(img);
  }
}
