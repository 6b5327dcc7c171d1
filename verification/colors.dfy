/** The fixed palette of src/colors.rs and its nearest-colour lookup.

    The repository answers nearest-colour queries with a k-d tree built once
    over the palette; here the lookup is a linear scan over the same
    table. The contract promises only "an entry at minimal squared distance",
    because the tree's tie-break is its own business. */
module Colors {

  /** An 8-bit colour channel (`u8`). */
  type Channel = x: int | 0 <= x < 256

  /** An `Rgb<u8>` pixel. */
  datatype Color = Color(r: Channel, g: Channel, b: Channel)

  /** The signed per-channel difference `input - nearest` (`[i16; 3]`). */
  datatype Residual = Residual(r: int, g: int, b: int)

  /** The answer of a nearest-colour query: the palette colour and the residual. */
  datatype Nearest = Nearest(color: Color, residual: Residual)

  const ZERO_RESIDUAL: Residual := Residual(0, 0, 0)

  /** Number of map colours, excluding the four transparent ones. */
  const COLOR_COUNT: nat := 244

  /** Entry `i` of the colour list, in declaration order. */
  function Entry(i: int): Color
    requires 0 <= i < COLOR_COUNT
  {
    match i
    case 0 => Color(89, 125, 39)
    case 1 => Color(109, 153, 48)
    case 2 => Color(127, 178, 56)
    case 3 => Color(67, 94, 29)
    case 4 => Color(174, 164, 115)
    case 5 => Color(213, 201, 140)
    case 6 => Color(247, 233, 163)
    case 7 => Color(130, 123, 86)
    case 8 => Color(140, 140, 140)
    case 9 => Color(171, 171, 171)
    case 10 => Color(199, 199, 199)
    case 11 => Color(105, 105, 105)
    case 12 => Color(180, 0, 0)
    case 13 => Color(220, 0, 0)
    case 14 => Color(255, 0, 0)
    case 15 => Color(135, 0, 0)
    case 16 => Color(112, 112, 180)
    case 17 => Color(138, 138, 220)
    case 18 => Color(160, 160, 255)
    case 19 => Color(84, 84, 135)
    case 20 => Color(117, 117, 117)
    case 21 => Color(144, 144, 144)
    case 22 => Color(167, 167, 167)
    case 23 => Color(88, 88, 88)
    case 24 => Color(0, 87, 0)
    case 25 => Color(0, 106, 0)
    case 26 => Color(0, 124, 0)
    case 27 => Color(0, 65, 0)
    case 28 => Color(180, 180, 180)
    case 29 => Color(220, 220, 220)
    case 30 => Color(255, 255, 255)
    case 31 => Color(135, 135, 135)
    case 32 => Color(115, 118, 129)
    case 33 => Color(141, 144, 158)
    case 34 => Color(164, 168, 184)
    case 35 => Color(86, 88, 97)
    case 36 => Color(106, 76, 54)
    case 37 => Color(130, 94, 66)
    case 38 => Color(151, 109, 77)
    case 39 => Color(79, 57, 40)
    case 40 => Color(79, 79, 79)
    case 41 => Color(96, 96, 96)
    case 42 => Color(112, 112, 112)
    case 43 => Color(59, 59, 59)
    case 44 => Color(45, 45, 180)
    case 45 => Color(55, 55, 220)
    case 46 => Color(64, 64, 255)
    case 47 => Color(33, 33, 135)
    case 48 => Color(100, 84, 50)
    case 49 => Color(123, 102, 62)
    case 50 => Color(143, 119, 72)
    case 51 => Color(75, 63, 38)
    case 52 => Color(180, 177, 172)
    case 53 => Color(220, 217, 211)
    case 54 => Color(255, 252, 245)
    case 55 => Color(135, 133, 129)
    case 56 => Color(152, 89, 36)
    case 57 => Color(186, 109, 44)
    case 58 => Color(216, 127, 51)
    case 59 => Color(114, 67, 27)
    case 60 => Color(125, 53, 152)
    case 61 => Color(153, 65, 186)
    case 62 => Color(178, 76, 216)
    case 63 => Color(94, 40, 114)
    case 64 => Color(72, 108, 152)
    case 65 => Color(88, 132, 186)
    case 66 => Color(102, 153, 216)
    case 67 => Color(54, 81, 114)
    case 68 => Color(161, 161, 36)
    case 69 => Color(197, 197, 44)
    case 70 => Color(229, 229, 51)
    case 71 => Color(121, 121, 27)
    case 72 => Color(89, 144, 17)
    case 73 => Color(109, 176, 21)
    case 74 => Color(127, 204, 25)
    case 75 => Color(67, 108, 13)
    case 76 => Color(170, 89, 116)
    case 77 => Color(208, 109, 142)
    case 78 => Color(242, 127, 165)
    case 79 => Color(128, 67, 87)
    case 80 => Color(53, 53, 53)
    case 81 => Color(65, 65, 65)
    case 82 => Color(76, 76, 76)
    case 83 => Color(40, 40, 40)
    case 84 => Color(108, 108, 108)
    case 85 => Color(132, 132, 132)
    case 86 => Color(153, 153, 153)
    case 87 => Color(81, 81, 81)
    case 88 => Color(53, 89, 108)
    case 89 => Color(65, 109, 132)
    case 90 => Color(76, 127, 153)
    case 91 => Color(40, 67, 81)
    case 92 => Color(89, 44, 125)
    case 93 => Color(109, 54, 153)
    case 94 => Color(127, 63, 178)
    case 95 => Color(67, 33, 94)
    case 96 => Color(36, 53, 125)
    case 97 => Color(44, 65, 153)
    case 98 => Color(51, 76, 178)
    case 99 => Color(27, 40, 94)
    case 100 => Color(72, 53, 36)
    case 101 => Color(88, 65, 44)
    case 102 => Color(102, 76, 51)
    case 103 => Color(54, 40, 27)
    case 104 => Color(72, 89, 36)
    case 105 => Color(88, 109, 44)
    case 106 => Color(102, 127, 51)
    case 107 => Color(54, 67, 27)
    case 108 => Color(108, 36, 36)
    case 109 => Color(132, 44, 44)
    case 110 => Color(153, 51, 51)
    case 111 => Color(81, 27, 27)
    case 112 => Color(17, 17, 17)
    case 113 => Color(21, 21, 21)
    case 114 => Color(25, 25, 25)
    case 115 => Color(13, 13, 13)
    case 116 => Color(176, 168, 54)
    case 117 => Color(215, 205, 66)
    case 118 => Color(250, 238, 77)
    case 119 => Color(132, 126, 40)
    case 120 => Color(64, 154, 150)
    case 121 => Color(79, 188, 183)
    case 122 => Color(92, 219, 213)
    case 123 => Color(48, 115, 112)
    case 124 => Color(52, 90, 180)
    case 125 => Color(63, 110, 220)
    case 126 => Color(74, 128, 255)
    case 127 => Color(39, 67, 135)
    case 128 => Color(0, 153, 40)
    case 129 => Color(0, 187, 50)
    case 130 => Color(0, 217, 58)
    case 131 => Color(0, 114, 30)
    case 132 => Color(91, 60, 34)
    case 133 => Color(111, 74, 42)
    case 134 => Color(129, 86, 49)
    case 135 => Color(68, 45, 25)
    case 136 => Color(79, 1, 0)
    case 137 => Color(96, 1, 0)
    case 138 => Color(112, 2, 0)
    case 139 => Color(59, 1, 0)
    case 140 => Color(147, 124, 113)
    case 141 => Color(180, 152, 138)
    case 142 => Color(209, 177, 161)
    case 143 => Color(110, 93, 85)
    case 144 => Color(112, 57, 25)
    case 145 => Color(137, 70, 31)
    case 146 => Color(159, 82, 36)
    case 147 => Color(84, 43, 19)
    case 148 => Color(105, 61, 76)
    case 149 => Color(128, 75, 93)
    case 150 => Color(149, 87, 108)
    case 151 => Color(78, 46, 57)
    case 152 => Color(79, 76, 97)
    case 153 => Color(96, 93, 119)
    case 154 => Color(112, 108, 138)
    case 155 => Color(59, 57, 73)
    case 156 => Color(131, 93, 25)
    case 157 => Color(160, 114, 31)
    case 158 => Color(186, 133, 36)
    case 159 => Color(98, 70, 19)
    case 160 => Color(72, 82, 37)
    case 161 => Color(88, 100, 45)
    case 162 => Color(103, 117, 53)
    case 163 => Color(54, 61, 28)
    case 164 => Color(112, 54, 55)
    case 165 => Color(138, 66, 67)
    case 166 => Color(160, 77, 78)
    case 167 => Color(84, 40, 41)
    case 168 => Color(40, 28, 24)
    case 169 => Color(49, 35, 30)
    case 170 => Color(57, 41, 35)
    case 171 => Color(30, 21, 18)
    case 172 => Color(95, 75, 69)
    case 173 => Color(116, 92, 84)
    case 174 => Color(135, 107, 98)
    case 175 => Color(71, 56, 51)
    case 176 => Color(61, 64, 64)
    case 177 => Color(75, 79, 79)
    case 178 => Color(87, 92, 92)
    case 179 => Color(46, 48, 48)
    case 180 => Color(86, 51, 62)
    case 181 => Color(105, 62, 75)
    case 182 => Color(122, 73, 88)
    case 183 => Color(64, 38, 46)
    case 184 => Color(53, 43, 64)
    case 185 => Color(65, 53, 79)
    case 186 => Color(76, 62, 92)
    case 187 => Color(40, 32, 48)
    case 188 => Color(53, 35, 24)
    case 189 => Color(65, 43, 30)
    case 190 => Color(76, 50, 35)
    case 191 => Color(40, 26, 18)
    case 192 => Color(53, 57, 29)
    case 193 => Color(65, 70, 36)
    case 194 => Color(76, 82, 42)
    case 195 => Color(40, 43, 22)
    case 196 => Color(100, 42, 32)
    case 197 => Color(122, 51, 39)
    case 198 => Color(142, 60, 46)
    case 199 => Color(75, 31, 24)
    case 200 => Color(26, 15, 11)
    case 201 => Color(31, 18, 13)
    case 202 => Color(37, 22, 16)
    case 203 => Color(19, 11, 8)
    case 204 => Color(133, 33, 34)
    case 205 => Color(163, 41, 42)
    case 206 => Color(189, 48, 49)
    case 207 => Color(100, 25, 25)
    case 208 => Color(104, 44, 68)
    case 209 => Color(127, 54, 83)
    case 210 => Color(148, 63, 97)
    case 211 => Color(78, 33, 51)
    case 212 => Color(64, 17, 20)
    case 213 => Color(79, 21, 25)
    case 214 => Color(92, 25, 29)
    case 215 => Color(48, 13, 15)
    case 216 => Color(15, 88, 94)
    case 217 => Color(18, 108, 115)
    case 218 => Color(22, 126, 134)
    case 219 => Color(11, 66, 70)
    case 220 => Color(40, 100, 98)
    case 221 => Color(50, 122, 120)
    case 222 => Color(58, 142, 140)
    case 223 => Color(30, 75, 74)
    case 224 => Color(60, 31, 43)
    case 225 => Color(74, 37, 53)
    case 226 => Color(86, 44, 62)
    case 227 => Color(45, 23, 32)
    case 228 => Color(14, 127, 93)
    case 229 => Color(17, 155, 114)
    case 230 => Color(20, 180, 133)
    case 231 => Color(10, 95, 70)
    case 232 => Color(70, 70, 70)
    case 233 => Color(86, 86, 86)
    case 234 => Color(100, 100, 100)
    case 235 => Color(52, 52, 52)
    case 236 => Color(152, 123, 103)
    case 237 => Color(186, 150, 126)
    case 238 => Color(216, 175, 147)
    case 239 => Color(114, 92, 77)
    case 240 => Color(89, 117, 105)
    case 241 => Color(109, 144, 129)
    case 242 => Color(127, 167, 150)
    case 243 => Color(67, 88, 79)
  }

  /** `COLOR_LIST`: the colour list as a constant sequence. */
  function Palette(): seq<Color>
  {
    seq(COLOR_COUNT, Entry)
  }

  /** Squared Euclidean distance in RGB space, the metric of the k-d tree
      (coordinates widened to signed integers before subtracting). */
  function Dist(a: Color, b: Color): nat
  {
    (a.r - b.r) * (a.r - b.r) + (a.g - b.g) * (a.g - b.g) + (a.b - b.b) * (a.b - b.b)
  }

  /** `p` is a palette colour at minimal distance from `c`. */
  predicate IsNearest(c: Color, p: Color)
  {
    && p in Palette()
    && forall j :: 0 <= j < |Palette()| ==> Dist(c, p) <= Dist(c, Palette()[j])
  }

  /** A nearest colour to `c` among the first `n` entries of the colour
      list `pal`; on a tie the earlier entry is kept. */
  function NearestAmong(pal: seq<Color>, c: Color, n: nat): Color
    requires 1 <= n <= |pal|
    decreases n, 1
  {
    if n == 1 then pal[0] else Pick(pal, c, n)
  }

  /** Entry `n - 1` if it is strictly closer to `c` than the nearest of the
      entries before it, otherwise that nearest one. */
  function Pick(pal: seq<Color>, c: Color, n: nat): Color
    requires 2 <= n <= |pal|
    decreases n, 0
  {
    var q := NearestAmong(pal, c, n - 1);
    if Dist(c, pal[n - 1]) < Dist(c, q) then pal[n - 1] else q
  }

  /** The scan answers an entry of the list. */
  lemma {:induction false} NearestAmongInList(pal: seq<Color>, c: Color, n: nat)
    requires 1 <= n <= |pal|
    ensures NearestAmong(pal, c, n) in pal
  {
    if n > 1 {
      NearestAmongInList(pal, c, n - 1);
      assert NearestAmong(pal, c, n) == Pick(pal, c, n);
    }
  }

  /** Looking at entry `n - 1` never moves the answer further away, neither
      from the answer before nor from that entry. */
  lemma PickCloser(pal: seq<Color>, c: Color, n: nat)
    requires 2 <= n <= |pal|
    ensures Dist(c, NearestAmong(pal, c, n)) <= Dist(c, NearestAmong(pal, c, n - 1))
    ensures Dist(c, NearestAmong(pal, c, n)) <= Dist(c, pal[n - 1])
  {
    assert NearestAmong(pal, c, n) == Pick(pal, c, n);
  }

  /** The scan finds a colour no further from `c` than any of the entries it
      has looked at. */
  lemma {:induction false} NearestAmongIsNearest(pal: seq<Color>, c: Color, n: nat)
    requires 1 <= n <= |pal|
    ensures forall j :: 0 <= j < n ==> Dist(c, NearestAmong(pal, c, n)) <= Dist(c, pal[j])
  {
    if n > 1 {
      NearestAmongIsNearest(pal, c, n - 1);
      PickCloser(pal, c, n);
    }
  }

  /** The answer that reports `p` for the query `c`. */
  function NearestTo(c: Color, p: Color): Nearest
  {
    Nearest(p, Residual(c.r - p.r, c.g - p.g, c.b - p.b))
  }

  /** `ColorTree::find_closest`: the nearest palette colour and the residual
      `color - nearest`, channel by channel. The palette is non-empty, so the
      lookup never fails. That the colour is a nearest one is
      `FindClosestIsNearest`. */
  function FindClosest(c: Color): (n: Nearest)
    ensures n.color.r + n.residual.r == c.r
    ensures n.color.g + n.residual.g == c.g
    ensures n.color.b + n.residual.b == c.b
    ensures -255 <= n.residual.r <= 255 && -255 <= n.residual.g <= 255 && -255 <= n.residual.b <= 255
  {
    NearestTo(c, NearestAmong(Palette(), c, |Palette()|))
  }

  /** The lookup answers a palette colour at minimal squared distance. */
  lemma FindClosestIsNearest(c: Color)
    ensures IsNearest(c, FindClosest(c).color)
  {
    NearestAmongInList(Palette(), c, |Palette()|);
    NearestAmongIsNearest(Palette(), c, |Palette()|);
  }

  /** The lookup answers a palette colour. */
  lemma FindClosestInPalette(c: Color)
    ensures FindClosest(c).color in Palette()
  {
    FindClosestIsNearest(c);
  }

  /** The colour list has `COLOR_COUNT` entries, all of them 8-bit colours. */
  lemma PaletteShape()
    ensures |Palette()| == COLOR_COUNT
    ensures forall j :: 0 <= j < |Palette()| ==> Palette()[j] == Entry(j)
  {
  }

  /** A square is never negative, and zero only for zero. */
  lemma SquareZero(x: int)
    ensures x * x >= 0 && (x * x == 0 <==> x == 0)
  {
    if x > 0 {
      assert x * x >= x;
    } else if x < 0 {
      assert x * x == (-x) * (-x) >= -x;
    }
  }

  /** Distance zero means the same colour. */
  lemma DistZero(a: Color, b: Color)
    ensures Dist(a, b) == 0 <==> a == b
  {
    var dr, dg, db := a.r - b.r, a.g - b.g, a.b - b.b;
    SquareZero(dr);
    SquareZero(dg);
    SquareZero(db);
    assert Dist(a, b) == dr * dr + dg * dg + db * db;
  }

  /** A palette colour is its own nearest colour, with a zero residual. */
  lemma FixedPoint(c: Color)
    requires c in Palette()
    ensures FindClosest(c) == Nearest(c, ZERO_RESIDUAL)
  {
    var n := FindClosest(c);
    FindClosestIsNearest(c);
    DistZero(c, c);
    DistZero(c, n.color);
    assert n.color == c;
  }

  /** A zero residual means the query already was a palette colour. */
  lemma ZeroResidualInPalette(c: Color)
    requires FindClosest(c).residual == ZERO_RESIDUAL
    ensures c in Palette()
  {
    FindClosestInPalette(c);
    assert FindClosest(c).color == c;
  }

  /** The residual is zero exactly when the input already is a palette colour. */
  lemma ZeroResidualIffInPalette(c: Color)
    ensures FindClosest(c).residual == ZERO_RESIDUAL <==> c in Palette()
  {
    if FindClosest(c).residual == ZERO_RESIDUAL {
      ZeroResidualInPalette(c);
    }
    if c in Palette() {
      FixedPoint(c);
    }
  }

  /** A colour with a channel of at least 23, or one of the four darkest
      entries. */
  predicate DarkOrBright(p: Color)
  {
    || p.r >= 23 || p.g >= 23 || p.b >= 23
    || p in {Color(13, 13, 13), Color(17, 17, 17), Color(19, 11, 8), Color(21, 21, 21)}
  }

  /** The palette table, checked in three parts. */
  lemma FirstEntries(i: int)
    requires 0 <= i < 80
    ensures DarkOrBright(Entry(i))
  {
  }

  lemma MiddleEntries(i: int)
    requires 80 <= i < 160
    ensures DarkOrBright(Entry(i))
  {
  }

  lemma LastEntries(i: int)
    requires 160 <= i < COLOR_COUNT
    ensures DarkOrBright(Entry(i))
  {
  }

  /** Every entry has a channel of at least 23, apart from four dark greys
      and browns; this is what rules out far entries in the lemmas below. */
  lemma DarkEntry(p: Color)
    requires p in Palette()
    ensures DarkOrBright(p)
  {
    var i :| 0 <= i < |Palette()| && Palette()[i] == p;
    if i < 80 {
      FirstEntries(i);
    } else if i < 160 {
      MiddleEntries(i);
    } else {
      LastEntries(i);
    }
  }

  /** A colour with a channel of at least 23 is further than 507 from black. */
  lemma FarFromBlack(black: Color, p: Color)
    // `black` is pinned by a precondition rather than written as a literal, so
    // that the solver does not evaluate every call on it eagerly.
    requires black == Color(0, 0, 0)
    requires p.r >= 23 || p.g >= 23 || p.b >= 23
    ensures Dist(black, p) > 507
  {
    SquareAtLeast(p.r, 23);
    SquareAtLeast(p.g, 23);
    SquareAtLeast(p.b, 23);
    SquareZero(p.r);
    SquareZero(p.g);
    SquareZero(p.b);
    assert Dist(black, p) == p.r * p.r + p.g * p.g + p.b * p.b;
  }

  /** Squares grow with their non-negative base. */
  lemma SquareAtLeast(x: int, m: nat)
    ensures x >= m ==> x * x >= m * m
  {
    if x >= m {
      assert x * x >= m * x >= m * m;
    }
  }

  /** Of the four dark entries only `(13, 13, 13)` lies within 507 of black. */
  lemma DarkestWithin507(black: Color, p: Color)
    // `black` is pinned by a precondition rather than written as a literal, so
    // that the solver does not evaluate every call on it eagerly.
    requires black == Color(0, 0, 0)
    requires p in {Color(13, 13, 13), Color(17, 17, 17), Color(19, 11, 8), Color(21, 21, 21)}
    requires Dist(black, p) <= 507
    ensures p == Color(13, 13, 13)
  {
  }

  /** The nearest colour to black is at most as far as entry 115, `(13, 13, 13)`. */
  lemma BlackWithin507(black: Color)
    // `black` is pinned by a precondition rather than written as a literal, so
    // that the solver does not evaluate every call on it eagerly.
    requires black == Color(0, 0, 0)
    ensures Dist(black, FindClosest(black).color) <= 507
  {
    var darkest := Palette()[115];
    assert darkest == Entry(115) == Color(13, 13, 13);
    assert Dist(black, darkest) == 507;
    FindClosestIsNearest(black);
  }

  /** Black is quantised to the darkest grey `(13, 13, 13)`, the unique entry at
      squared distance 507; the residual is -13 in every channel. */
  lemma NearestToBlack(black: Color)
    // `black` is pinned by a precondition rather than written as a literal, so
    // that the solver does not evaluate every call on it eagerly.
    requires black == Color(0, 0, 0)
    ensures FindClosest(black) == Nearest(Color(13, 13, 13), Residual(-13, -13, -13))
  {
    var n := FindClosest(black);
    BlackWithin507(black);
    FindClosestInPalette(black);
    DarkEntry(n.color);
    if n.color.r >= 23 || n.color.g >= 23 || n.color.b >= 23 {
      FarFromBlack(black, n.color);
      assert false;
    }
    DarkestWithin507(black, n.color);
  }

  /** White is a palette colour. */
  lemma WhiteInPalette()
    ensures Color(255, 255, 255) in Palette()
  {
    PaletteShape();
    assert Palette()[30] == Color(255, 255, 255);
  }

  /** The grey `(10, 10, 10)` is not a palette colour. */
  lemma Grey10NotInPalette()
    ensures Color(10, 10, 10) !in Palette()
  {
    PaletteShape();
  }
}
