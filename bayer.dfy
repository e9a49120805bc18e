/** The threshold side of ordered dithering: the three constant Bayer matrices,
    their selection by size, the proof that each is a permutation of its ranks,
    and the tiling of a matrix over a raster extent (`np.tile` followed by a crop). */
module Bayer {
  import opened Arith

  /** A square matrix of threshold ranks; rank k of an S×S matrix stands for the
      threshold k / S². */
  type Matrix = seq<seq<nat>>

  const Bayer2: Matrix := [[0, 2],
                           [3, 1]]

  const Bayer4: Matrix := [[0, 8, 2, 10],
                           [12, 4, 14, 6],
                           [3, 11, 1, 9],
                           [15, 7, 13, 5]]

  const Bayer8: Matrix := [[0, 48, 12, 60, 3, 51, 15, 63],
                           [32, 16, 44, 28, 35, 19, 47, 31],
                           [8, 56, 4, 52, 11, 59, 7, 55],
                           [40, 24, 36, 20, 43, 27, 39, 23],
                           [2, 50, 14, 62, 1, 49, 13, 61],
                           [34, 18, 46, 30, 33, 17, 45, 29],
                           [10, 58, 6, 54, 9, 57, 5, 53],
                           [42, 26, 38, 22, 41, 25, 37, 21]]

  ghost predicate IsSquare<T>(m: seq<seq<T>>, s: nat) {
    |m| == s && forall y :: 0 <= y < s ==> |m[y]| == s
  }

  /** The ranks that occur in m. */
  ghost function Values(m: Matrix): set<nat> {
    set y, x | 0 <= y < |m| && 0 <= x < |m[y]| :: m[y][x]
  }

  /** m is an s×s arrangement of the ranks 0 .. s²-1, each occurring exactly once;
      so every normalised threshold rank / s² lies in [0, 1). */
  ghost predicate IsRankPermutation(m: Matrix, s: nat) {
    IsSquare(m, s)
    && (forall y, x :: 0 <= y < s && 0 <= x < s ==> m[y][x] < s * s)
    && (forall y, x, y', x' ::
          0 <= y < s && 0 <= x < s && 0 <= y' < s && 0 <= x' < s && m[y][x] == m[y'][x']
          ==> y == y' && x == x')
    && (forall v :: 0 <= v < s * s ==> v in Values(m))
  }

  /** Selects the matrix for `size`; any size other than 2, 4 or 8 silently gets the
      2×2 matrix, as the dictionary lookup with a default does. */
  function SelectMatrix(size: int): (m: Matrix)
    ensures |m| == (if size == 4 || size == 8 then size else 2)
    ensures IsSquare(m, |m|) && |m| * |m| >= 4
    ensures size != 4 && size != 8 ==> m == Bayer2
  {
    if size == 2 then Bayer2
    else if size == 4 then Bayer4
    else if size == 8 then Bayer8
    else Bayer2
  }

  /** Whatever the size asked for, the selected matrix is a permutation of its ranks. */
  lemma SelectedIsPermutation(size: int)
    ensures IsRankPermutation(SelectMatrix(size), |SelectMatrix(size)|)
  {
    Bayer2IsPermutation();
    Bayer4IsPermutation();
    Bayer8IsPermutation();
  }

  /** The two ranks below one half of the 2×2 matrix lie on its main diagonal. */
  lemma Bayer2Diagonal(y: nat, x: nat)
    ensures Bayer2[y % 2][x % 2] <= 1 <==> y % 2 == x % 2
  {
    if y % 2 == 0 {
      if x % 2 == 0 { assert Bayer2[0][0] == 0; } else { assert Bayer2[0][1] == 2; }
    } else {
      if x % 2 == 0 { assert Bayer2[1][0] == 3; } else { assert Bayer2[1][1] == 1; }
    }
  }

  /** c (side 2s) is the composition of a 2×2 pattern a with an s×s pattern b: each rank
      of b becomes a 2×2 block, c[y][x] = s²·a[y mod 2][x mod 2] + b[y div 2][x div 2]. */
  ghost predicate IsComposition(c: Matrix, a: Matrix, b: Matrix, s: nat)
    requires IsSquare(a, 2) && IsSquare(b, s)
  {
    IsSquare(c, 2 * s)
    && forall y, x :: 0 <= y < 2 * s && 0 <= x < 2 * s ==>
         c[y][x] == s * s * a[y % 2][x % 2] + b[y / 2][x / 2]
  }

  /** Every rank of a composition lies below (2s)². */
  lemma CompositionInRange(c: Matrix, a: Matrix, b: Matrix, s: nat, y: nat, x: nat)
    requires IsRankPermutation(a, 2) && IsRankPermutation(b, s)
    requires IsComposition(c, a, b, s)
    requires y < 2 * s && x < 2 * s
    ensures c[y][x] < (2 * s) * (2 * s)
  {
    var p, q := a[y % 2][x % 2], b[y / 2][x / 2];
    assert c[y][x] == s * s * p + q;
    ScaledBelow(p, q, s);
  }

  lemma ScaledBelow(p: nat, q: nat, s: nat)
    requires p < 4 && q < s * s
    ensures s * s * p + q < (2 * s) * (2 * s)
  {
    MulMono(p + 1, 4, s * s);
    FourSquares(s);
  }

  /** Two positions of a composition holding the same rank are the same position. */
  lemma CompositionInjective(c: Matrix, a: Matrix, b: Matrix, s: nat,
                             y: nat, x: nat, y': nat, x': nat)
    requires IsRankPermutation(a, 2) && IsRankPermutation(b, s)
    requires IsComposition(c, a, b, s)
    requires y < 2 * s && x < 2 * s && y' < 2 * s && x' < 2 * s
    requires c[y][x] == c[y'][x']
    ensures y == y' && x == x'
  {
    var p, q := a[y % 2][x % 2], b[y / 2][x / 2];
    var p', q' := a[y' % 2][x' % 2], b[y' / 2][x' / 2];
    assert c[y][x] == s * s * p + q;
    assert c[y'][x'] == s * s * p' + q';
    UniqueSplit(p, q, p', q', s * s);
  }

  /** The position of a rank in a rank permutation. */
  lemma Locate(m: Matrix, s: nat, v: nat) returns (y: nat, x: nat)
    requires IsRankPermutation(m, s) && v < s * s
    ensures y < s && x < s && m[y][x] == v
  {
    assert v in Values(m);
    y, x :| 0 <= y < |m| && 0 <= x < |m[y]| && m[y][x] == v;
  }

  /** The rank of a composition at the fine position (ya, xa) of the block (yb, xb). */
  lemma ComposedAt(c: Matrix, a: Matrix, b: Matrix, s: nat, yb: nat, xb: nat, ya: nat, xa: nat)
    requires IsSquare(a, 2) && IsSquare(b, s) && IsComposition(c, a, b, s)
    requires yb < s && xb < s && ya < 2 && xa < 2
    ensures 2 * yb + ya < 2 * s && 2 * xb + xa < 2 * s
    ensures c[2 * yb + ya][2 * xb + xa] == s * s * a[ya][xa] + b[yb][xb]
  {
    var y, x := 2 * yb + ya, 2 * xb + xa;
    assert y % 2 == ya && y / 2 == yb && x % 2 == xa && x / 2 == xb;
  }

  /** Every rank below (2s)² occurs in a composition. */
  lemma CompositionSurjective(c: Matrix, a: Matrix, b: Matrix, s: nat, v: nat)
    requires IsRankPermutation(a, 2) && IsRankPermutation(b, s)
    requires IsComposition(c, a, b, s)
    requires v < (2 * s) * (2 * s)
    ensures v in Values(c)
  {
    FourSquares(s);
    SplitRank(v, 4, s * s);
    var ya, xa := Locate(a, 2, v / (s * s));
    var yb, xb := Locate(b, s, v % (s * s));
    ComposedAt(c, a, b, s, yb, xb, ya, xa);
    assert c[2 * yb + ya][2 * xb + xa] == v;
  }

  lemma FourSquares(s: nat)
    ensures (2 * s) * (2 * s) == 4 * (s * s)
  {
  }

  /** Composing two rank permutations gives a rank permutation. */
  lemma CompositionIsPermutation(c: Matrix, a: Matrix, b: Matrix, s: nat)
    requires IsRankPermutation(a, 2) && IsRankPermutation(b, s)
    requires IsComposition(c, a, b, s)
    ensures IsRankPermutation(c, 2 * s)
  {
    var n := 2 * s;
    forall y, x | 0 <= y < n && 0 <= x < n
      ensures c[y][x] < n * n
    {
      CompositionInRange(c, a, b, s, y, x);
    }
    forall y, x, y', x' |
      0 <= y < n && 0 <= x < n && 0 <= y' < n && 0 <= x' < n && c[y][x] == c[y'][x']
      ensures y == y' && x == x'
    {
      CompositionInjective(c, a, b, s, y, x, y', x');
    }
    forall v | 0 <= v < n * n
      ensures v in Values(c)
    {
      CompositionSurjective(c, a, b, s, v);
    }
  }

  function Transpose(m: Matrix): (t: Matrix)
    requires IsSquare(m, |m|)
    ensures IsSquare(t, |m|)
    ensures forall y, x :: 0 <= y < |m| && 0 <= x < |m| ==> t[y][x] == m[x][y]
  {
    seq(|m|, y requires 0 <= y < |m| => seq(|m|, x requires 0 <= x < |m| => m[x][y]))
  }

  lemma TransposeIsPermutation(m: Matrix, s: nat)
    requires IsRankPermutation(m, s)
    ensures IsRankPermutation(Transpose(m), s)
  {
    var t := Transpose(m);
    forall v | 0 <= v < s * s
      ensures v in Values(t)
    {
      assert v in Values(m);
      var y, x :| 0 <= y < s && 0 <= x < |m[y]| && m[y][x] == v;
      assert t[x][y] == v;
    }
  }

  lemma Bayer2IsPermutation()
    ensures IsRankPermutation(Bayer2, 2)
  {
    forall v | 0 <= v < 4
      ensures v in Values(Bayer2)
    {
      if v == 0 { assert Bayer2[0][0] == v; }
      else if v == 1 { assert Bayer2[1][1] == v; }
      else if v == 2 { assert Bayer2[0][1] == v; }
      else { assert Bayer2[1][0] == v; }
    }
  }

  lemma Bayer4IsPermutation()
    ensures IsRankPermutation(Bayer4, 4)
  {
    Bayer2IsPermutation();
    forall y, x | 0 <= y < 4 && 0 <= x < 4
      ensures Bayer4[y][x] == 2 * 2 * Bayer2[y % 2][x % 2] + Bayer2[y / 2][x / 2]
    {
    }
    CompositionIsPermutation(Bayer4, Bayer2, Bayer2, 2);
  }

  lemma Bayer8Transposed()
    ensures IsComposition(Transpose(Bayer8), Bayer2, Bayer4, 4)
  {
    var t := Transpose(Bayer8);
    forall y, x | 0 <= y < 8 && 0 <= x < 8
      ensures t[y][x] == 4 * 4 * Bayer2[y % 2][x % 2] + Bayer4[y / 2][x / 2]
    {
    }
  }

  lemma TransposeTwice(m: Matrix)
    requires IsSquare(m, |m|)
    ensures Transpose(Transpose(m)) == m
  {
    var t := Transpose(Transpose(m));
    forall y | 0 <= y < |m|
      ensures t[y] == m[y]
    {
    }
  }

  /** Bayer8 is the transpose of the composition of Bayer2 (fine) and Bayer4 (coarse). */
  lemma Bayer8IsPermutation()
    ensures IsRankPermutation(Bayer8, 8)
  {
    Bayer2IsPermutation();
    Bayer4IsPermutation();
    var t := Transpose(Bayer8);
    Bayer8Transposed();
    CompositionIsPermutation(t, Bayer2, Bayer4, 4);
    TransposeIsPermutation(t, 8);
    TransposeTwice(Bayer8);
  }

  // ---------------------------------------------------------------------------
  // Tiling (np.tile) and cropping (slicing [:h, :w])

  /** n copies of s, one after another. */
  function Repeat<T>(s: seq<T>, n: nat): (r: seq<T>)
    ensures |r| == n * |s|
  {
    if n == 0 then [] else s + Repeat(s, n - 1)
  }

  lemma {:induction false} RepeatAt<T>(s: seq<T>, n: nat, i: nat)
    requires i < n * |s|
    ensures Repeat(s, n)[i] == s[i % |s|]
  {
    if i >= |s| {
      RepeatAt(s, n - 1, i - |s|);
      ModShift(i, |s|);
    } else {
      assert i % |s| == i;
    }
  }

  /** `np.tile(m, (ry, rx))`: the matrix repeated ry times down and rx times across. */
  function Tile<T>(m: seq<seq<T>>, ry: nat, rx: nat): seq<seq<T>> {
    Repeat(seq(|m|, i requires 0 <= i < |m| => Repeat(m[i], rx)), ry)
  }

  /** `g[:h, :w]`: the first h rows and first w columns; Python slicing stops at the end. */
  function Crop<T>(g: seq<seq<T>>, h: nat, w: nat): seq<seq<T>> {
    var rows := if h <= |g| then h else |g|;
    seq(rows, y requires 0 <= y < rows => if w <= |g[y]| then g[y][..w] else g[y])
  }

  /** The repetition counts h div s + 1 used by the source always cover h. */
  lemma TileCovers(h: nat, s: nat)
    requires s >= 1
    ensures (h / s + 1) * s >= h
  {
    assert h == s * (h / s) + h % s;
  }

  /** The matrix tiled over an h×w extent and cropped to it. */
  function TiledPlane<T>(m: seq<seq<T>>, h: nat, w: nat): seq<seq<T>>
    requires |m| >= 1
  {
    Crop(Tile(m, h / |m| + 1, w / |m| + 1), h, w)
  }

  lemma TiledPlaneAt<T>(m: seq<seq<T>>, s: nat, h: nat, w: nat)
    requires s >= 1 && IsSquare(m, s)
    ensures |TiledPlane(m, h, w)| == h
    ensures forall y :: 0 <= y < h ==> |TiledPlane(m, h, w)[y]| == w
    ensures forall y, x :: 0 <= y < h && 0 <= x < w ==> TiledPlane(m, h, w)[y][x] == m[y % s][x % s]
  {
    var ry, rx := h / s + 1, w / s + 1;
    TileCovers(h, s);
    TileCovers(w, s);
    var rows := seq(s, i requires 0 <= i < s => Repeat(m[i], rx));
    var t := Tile(m, ry, rx);
    assert t == Repeat(rows, ry);
    assert |t| >= h;
    forall y | 0 <= y < h
      ensures t[y] == rows[y % s] && |t[y]| >= w
    {
      RepeatAt(rows, ry, y);
    }
    forall y, x | 0 <= y < h && 0 <= x < w
      ensures TiledPlane(m, h, w)[y][x] == m[y % s][x % s]
    {
      RepeatAt(m[y % s], rx, x);
    }
  }

  /** Each rank of m repeated over `channels` channels (`np.stack([m] * 3, axis=-1)`). */
  function Stack(m: Matrix, channels: nat): seq<seq<seq<nat>>> {
    seq(|m|, y requires 0 <= y < |m| =>
      seq(|m[y]|, x requires 0 <= x < |m[y]| => seq(channels, c => m[y][x])))
  }

  /** A plane of ranks held as a one-channel grid (numpy's two-dimensional threshold). */
  function OneChannel(p: seq<seq<nat>>): seq<seq<seq<nat>>> {
    seq(|p|, y requires 0 <= y < |p| => seq(|p[y]|, x requires 0 <= x < |p[y]| => [p[y][x]]))
  }

  /** The threshold ranks over an h×w extent: three identical channels in colour mode,
      one otherwise; the rank at (y, x) is that of the matrix at (y mod S, x mod S). */
  function Threshold(m: Matrix, h: nat, w: nat, color: bool): (t: seq<seq<seq<nat>>>)
    requires |m| >= 1 && IsSquare(m, |m|)
    ensures |t| == h
    ensures forall y :: 0 <= y < h ==> |t[y]| == w
    ensures forall y, x :: 0 <= y < h && 0 <= x < w ==> |t[y][x]| == (if color then 3 else 1)
    ensures forall y, x, c :: 0 <= y < h && 0 <= x < w && 0 <= c < |t[y][x]| ==>
              t[y][x][c] == m[y % |m|][x % |m|]
  {
    if color then
      var stacked := Stack(m, 3);
      TiledPlaneAt(stacked, |m|, h, w);
      TiledPlane(stacked, h, w)
    else
      TiledPlaneAt(m, |m|, h, w);
      OneChannel(TiledPlane(m, h, w))
  }
}
