/** The cursor of the frame-address structure, on the structure's shape: how
    many frames (minors) each column holds, by type, half, row and column.
    `check_location`, `step_forward` and `step_backward` only ever look at
    these lengths. */
module Cursor {
  import opened Codec

  /** `shape[t][h][r][c]` is the length of the minor list at that position. */
  type Shape = seq<seq<seq<seq<nat>>>>

  /** `check_location`: each index is below the length of the list at its
      level, taken along the path of the earlier indices. */
  predicate Valid(sh: Shape, x: Coord)
  {
    x.t < |sh| && x.h < |sh[x.t]| && x.r < |sh[x.t][x.h]| && x.c < |sh[x.t][x.h][x.r]| &&
    x.m < sh[x.t][x.h][x.r][x.c]
  }

  /** The lists of the type, half, row and column exist: what `step_forward`
      indexes. */
  predicate PathExists(sh: Shape, x: Coord)
  {
    x.t < |sh| && x.h < |sh[x.t]| && x.r < |sh[x.t][x.h]| && x.c < |sh[x.t][x.h][x.r]|
  }

  /** The shapes an address list of the device produces: no empty list at
      any level, and one or two halves per type (exactly one for a series
      without halves). */
  predicate WellFormed(sh: Shape, hasHalf: bool)
  {
    |sh| > 0 &&
    (forall t :: 0 <= t < |sh| ==>
       1 <= |sh[t]| && (if hasHalf then |sh[t]| <= 2 else |sh[t]| == 1)) &&
    (forall t, h :: 0 <= t < |sh| && 0 <= h < |sh[t]| ==> |sh[t][h]| > 0) &&
    (forall t, h, r :: 0 <= t < |sh| && 0 <= h < |sh[t]| && 0 <= r < |sh[t][h]| ==>
       |sh[t][h][r]| > 0) &&
    (forall t, h, r, c ::
       0 <= t < |sh| && 0 <= h < |sh[t]| && 0 <= r < |sh[t][h]| && 0 <= c < |sh[t][h][r]| ==>
         sh[t][h][r][c] > 0)
  }

  /** `step_forward`: an odometer over minor, column, row, half and type,
      each level's radix being the length of its list. The half level is
      skipped (and the half kept) for a series without halves. */
  function Next(sh: Shape, hasHalf: bool, x: Coord): Coord
    requires PathExists(sh, x)
  {
    if x.m + 1 < sh[x.t][x.h][x.r][x.c] then x.(m := x.m + 1)
    else if x.c + 1 < |sh[x.t][x.h][x.r]| then x.(c := x.c + 1, m := 0)
    else if x.r + 1 < |sh[x.t][x.h]| then x.(r := x.r + 1, c := 0, m := 0)
    else if hasHalf && x.h + 1 < |sh[x.t]| then x.(h := x.h + 1, r := 0, c := 0, m := 0)
    else
      var h := if hasHalf then 0 else x.h;
      if x.t + 1 < |sh| then Coord(x.t + 1, h, 0, 0, 0) else Coord(0, h, 0, 0, 0)
  }

  /** The last minor of row `r`. */
  function RowEnd(sh: Shape, hasHalf: bool, t: nat, h: nat, r: nat): (x: Coord)
    requires WellFormed(sh, hasHalf) && t < |sh| && h < |sh[t]| && r < |sh[t][h]|
    ensures Valid(sh, x)
  {
    var c := |sh[t][h][r]| - 1;
    Coord(t, h, r, c, sh[t][h][r][c] - 1)
  }

  /** The last minor of half `h`. */
  function HalfEnd(sh: Shape, hasHalf: bool, t: nat, h: nat): (x: Coord)
    requires WellFormed(sh, hasHalf) && t < |sh| && h < |sh[t]|
    ensures Valid(sh, x)
  {
    RowEnd(sh, hasHalf, t, h, |sh[t][h]| - 1)
  }

  /** The last minor of type `t`. */
  function BlockEnd(sh: Shape, hasHalf: bool, t: nat): (x: Coord)
    requires WellFormed(sh, hasHalf) && t < |sh|
    ensures Valid(sh, x)
  {
    HalfEnd(sh, hasHalf, t, |sh[t]| - 1)
  }

  /** The last frame of the structure. */
  function Last(sh: Shape, hasHalf: bool): (x: Coord)
    requires WellFormed(sh, hasHalf)
    ensures Valid(sh, x)
  {
    BlockEnd(sh, hasHalf, |sh| - 1)
  }

  /** `step_backward`: the minor counts down; on a borrow the lower levels
      move to the last entry of the new list. The half is tested for the
      literal value 1, and the half level is skipped for a series without
      halves. */
  function Prev(sh: Shape, hasHalf: bool, x: Coord): (y: Coord)
    requires WellFormed(sh, hasHalf) && PathExists(sh, x)
    ensures PathExists(sh, y)
    ensures Valid(sh, x) || x.m == 0 ==> Valid(sh, y)
  {
    if x.m > 0 then x.(m := x.m - 1)
    else if x.c > 0 then x.(c := x.c - 1, m := sh[x.t][x.h][x.r][x.c - 1] - 1)
    else if x.r > 0 then RowEnd(sh, hasHalf, x.t, x.h, x.r - 1)
    else if hasHalf && x.h == 1 then HalfEnd(sh, hasHalf, x.t, 0)
    else BlockEnd(sh, hasHalf, if x.t > 0 then x.t - 1 else |sh| - 1)
  }

  /** `k` calls of `step_forward`. */
  function NextN(sh: Shape, hasHalf: bool, x: Coord, k: nat): (y: Coord)
    requires WellFormed(sh, hasHalf) && Valid(sh, x)
    ensures Valid(sh, y)
    decreases k
  {
    if k == 0 then x
    else
      NextValid(sh, hasHalf, x);
      NextN(sh, hasHalf, Next(sh, hasHalf, x), k - 1)
  }

  // ---------------------------------------------------------------------
  // Sums over the levels, and the position of a cursor in step order

  function SumOf<T>(s: seq<T>, f: T -> nat): nat
  {
    if s == [] then 0 else SumOf(s[..|s| - 1], f) + f(s[|s| - 1])
  }

  function Count(n: nat): nat
  {
    n
  }

  function RowTotal(row: seq<nat>): nat
  {
    SumOf(row, Count)
  }

  function HalfTotal(half: seq<seq<nat>>): nat
  {
    SumOf(half, RowTotal)
  }

  function BlockTotal(block: seq<seq<seq<nat>>>): nat
  {
    SumOf(block, HalfTotal)
  }

  /** The number of frames in the structure. */
  function Total(sh: Shape): nat
  {
    SumOf(sh, BlockTotal)
  }

  function InRow(row: seq<nat>, c: nat, m: nat): nat
    requires c <= |row|
  {
    SumOf(row[..c], Count) + m
  }

  function InHalf(half: seq<seq<nat>>, r: nat, c: nat, m: nat): nat
    requires r < |half| && c <= |half[r]|
  {
    SumOf(half[..r], RowTotal) + InRow(half[r], c, m)
  }

  function InBlock(block: seq<seq<seq<nat>>>, h: nat, r: nat, c: nat, m: nat): nat
    requires h < |block| && r < |block[h]| && c <= |block[h][r]|
  {
    SumOf(block[..h], HalfTotal) + InHalf(block[h], r, c, m)
  }

  /** How many frames come before `x` in step order. */
  function Rank(sh: Shape, x: Coord): nat
    requires PathExists(sh, x)
  {
    SumOf(sh[..x.t], BlockTotal) + InBlock(sh[x.t], x.h, x.r, x.c, x.m)
  }

  lemma SumStep<T>(s: seq<T>, f: T -> nat, i: nat)
    requires i < |s|
    ensures SumOf(s[..i + 1], f) == SumOf(s[..i], f) + f(s[i])
  {
    assert s[..i + 1][..i] == s[..i];
  }

  lemma SumAll<T>(s: seq<T>, f: T -> nat)
    ensures SumOf(s[..|s|], f) == SumOf(s, f)
  {
    assert s[..|s|] == s;
  }

  lemma {:induction false} SumMono<T>(s: seq<T>, f: T -> nat, i: nat, j: nat)
    requires i <= j <= |s|
    ensures SumOf(s[..i], f) <= SumOf(s[..j], f)
    decreases j - i
  {
    if i < j {
      SumMono(s, f, i, j - 1);
      SumStep(s, f, j - 1);
    }
  }

  /** An offset inside entry `i` stays below the whole sum. */
  lemma SumWithin<T>(s: seq<T>, f: T -> nat, i: nat, a: nat)
    requires i < |s| && a < f(s[i])
    ensures SumOf(s[..i], f) + a < SumOf(s, f)
  {
    SumStep(s, f, i);
    SumMono(s, f, i + 1, |s|);
    SumAll(s, f);
  }

  /** An entry and an offset inside it are determined by their sum. */
  lemma SumLocate<T>(s: seq<T>, f: T -> nat, i: nat, a: nat, j: nat, b: nat)
    requires i < |s| && j < |s| && a < f(s[i]) && b < f(s[j])
    requires SumOf(s[..i], f) + a == SumOf(s[..j], f) + b
    ensures i == j && a == b
  {
    if i < j {
      SumStep(s, f, i);
      SumMono(s, f, i + 1, j);
    } else if j < i {
      SumStep(s, f, j);
      SumMono(s, f, j + 1, i);
    }
  }

  /** Moving from the last offset of entry `i` to the start of entry `i + 1`
      adds one; past the last entry this is the whole sum. */
  lemma SumCarry<T>(s: seq<T>, f: T -> nat, i: nat, a: nat)
    requires i < |s| && a + 1 == f(s[i])
    ensures SumOf(s[..i], f) + a + 1 == SumOf(s[..i + 1], f)
    ensures i + 1 == |s| ==> SumOf(s[..i], f) + a + 1 == SumOf(s, f)
  {
    SumStep(s, f, i);
    SumAll(s, f);
  }

  /** The valid cursors of one level and below, bounded by the level's
      total. */
  lemma InRowBound(row: seq<nat>, c: nat, m: nat)
    requires c < |row| && m < row[c]
    ensures InRow(row, c, m) < RowTotal(row)
  {
    SumWithin(row, Count, c, m);
  }

  lemma InHalfBound(half: seq<seq<nat>>, r: nat, c: nat, m: nat)
    requires r < |half| && c < |half[r]| && m < half[r][c]
    ensures InHalf(half, r, c, m) < HalfTotal(half)
  {
    InRowBound(half[r], c, m);
    SumWithin(half, RowTotal, r, InRow(half[r], c, m));
  }

  lemma InBlockBound(block: seq<seq<seq<nat>>>, h: nat, r: nat, c: nat, m: nat)
    requires h < |block| && r < |block[h]| && c < |block[h][r]| && m < block[h][r][c]
    ensures InBlock(block, h, r, c, m) < BlockTotal(block)
  {
    InHalfBound(block[h], r, c, m);
    SumWithin(block, HalfTotal, h, InHalf(block[h], r, c, m));
  }

  /** Every valid cursor has a rank below the number of frames. */
  lemma RankBound(sh: Shape, x: Coord)
    requires Valid(sh, x)
    ensures Rank(sh, x) < Total(sh)
  {
    InBlockBound(sh[x.t], x.h, x.r, x.c, x.m);
    SumWithin(sh, BlockTotal, x.t, InBlock(sh[x.t], x.h, x.r, x.c, x.m));
  }

  /** Two valid cursors of the same rank are the same cursor. */
  lemma RankInjective(sh: Shape, x: Coord, y: Coord)
    requires Valid(sh, x) && Valid(sh, y) && Rank(sh, x) == Rank(sh, y)
    ensures x == y
  {
    InBlockBound(sh[x.t], x.h, x.r, x.c, x.m);
    InBlockBound(sh[y.t], y.h, y.r, y.c, y.m);
    SumLocate(sh, BlockTotal, x.t, InBlock(sh[x.t], x.h, x.r, x.c, x.m),
              y.t, InBlock(sh[y.t], y.h, y.r, y.c, y.m));
    var b := sh[x.t];
    InHalfBound(b[x.h], x.r, x.c, x.m);
    InHalfBound(b[y.h], y.r, y.c, y.m);
    SumLocate(b, HalfTotal, x.h, InHalf(b[x.h], x.r, x.c, x.m), y.h, InHalf(b[y.h], y.r, y.c, y.m));
    var hf := b[x.h];
    InRowBound(hf[x.r], x.c, x.m);
    InRowBound(hf[y.r], y.c, y.m);
    SumLocate(hf, RowTotal, x.r, InRow(hf[x.r], x.c, x.m), y.r, InRow(hf[y.r], y.c, y.m));
    SumLocate(hf[x.r], Count, x.c, x.m, y.c, y.m);
  }

  /** The last minor of a row, half or type is one before the next list. */
  lemma RowEndRank(row: seq<nat>)
    requires |row| > 0 && row[|row| - 1] > 0
    ensures InRow(row, |row| - 1, row[|row| - 1] - 1) + 1 == RowTotal(row)
  {
    SumCarry(row, Count, |row| - 1, row[|row| - 1] - 1);
  }

  lemma HalfEndRank(half: seq<seq<nat>>)
    requires |half| > 0 && |half[|half| - 1]| > 0
    requires var row := half[|half| - 1]; row[|row| - 1] > 0
    ensures var r := |half| - 1; var c := |half[r]| - 1;
      InHalf(half, r, c, half[r][c] - 1) + 1 == HalfTotal(half)
  {
    var r := |half| - 1;
    RowEndRank(half[r]);
    SumCarry(half, RowTotal, r, RowTotal(half[r]) - 1);
  }

  lemma BlockEndRank(block: seq<seq<seq<nat>>>)
    requires |block| > 0 && |block[|block| - 1]| > 0
    requires var half := block[|block| - 1]; |half[|half| - 1]| > 0
    requires var half := block[|block| - 1]; var row := half[|half| - 1]; row[|row| - 1] > 0
    ensures var h := |block| - 1; var r := |block[h]| - 1; var c := |block[h][r]| - 1;
      InBlock(block, h, r, c, block[h][r][c] - 1) + 1 == BlockTotal(block)
  {
    var h := |block| - 1;
    HalfEndRank(block[h]);
    SumCarry(block, HalfTotal, h, HalfTotal(block[h]) - 1);
  }

  /** The rank of the end of type `t`, one before the start of type `t + 1`. */
  lemma BlockEndIsBeforeNext(sh: Shape, hasHalf: bool, t: nat)
    requires WellFormed(sh, hasHalf) && t < |sh|
    ensures Rank(sh, BlockEnd(sh, hasHalf, t)) + 1 == SumOf(sh[..t + 1], BlockTotal)
    ensures t + 1 == |sh| ==> Rank(sh, BlockEnd(sh, hasHalf, t)) + 1 == Total(sh)
  {
    var b := sh[t];
    var h := |b| - 1;
    var r := |b[h]| - 1;
    var c := |b[h][r]| - 1;
    var k := InBlock(b, h, r, c, b[h][r][c] - 1);
    var q := Rank(sh, BlockEnd(sh, hasHalf, t));
    assert q == SumOf(sh[..t], BlockTotal) + k;
    assert k + 1 == BlockTotal(sh[t]) by {
      BlockEndRank(b);
    }
    CarryRank(sh, t, k, q);
  }

  lemma CarryRank(sh: Shape, t: nat, k: nat, q: nat)
    requires t < |sh| && k + 1 == BlockTotal(sh[t]) && q == SumOf(sh[..t], BlockTotal) + k
    ensures q + 1 == SumOf(sh[..t + 1], BlockTotal)
    ensures t + 1 == |sh| ==> q + 1 == Total(sh)
  {
    SumCarry(sh, BlockTotal, t, k);
  }

  // ---------------------------------------------------------------------
  // step_forward and step_backward

  /** The origin is valid in every well-formed shape and has rank 0. */
  lemma OriginValid(sh: Shape, hasHalf: bool)
    requires WellFormed(sh, hasHalf)
    ensures Valid(sh, Origin) && Rank(sh, Origin) == 0
  {
    assert |sh[0]| > 0 && |sh[0][0]| > 0 && |sh[0][0][0]| > 0;
  }

  /** `step_forward` leads to a valid cursor, even from a minor past the end
      of its column. */
  lemma NextValid(sh: Shape, hasHalf: bool, x: Coord)
    requires WellFormed(sh, hasHalf) && PathExists(sh, x)
    ensures Valid(sh, Next(sh, hasHalf, x))
  {
    var y := Next(sh, hasHalf, x);
    if !hasHalf {
      assert x.h == 0;
    }
    assert |sh[y.t]| > 0 && |sh[y.t][y.h]| > 0 && |sh[y.t][y.h][y.r]| > 0;
  }

  /** `step_forward` moves a valid cursor one frame on in step order; from
      the last frame it wraps to the origin. */
  lemma RankNext(sh: Shape, hasHalf: bool, x: Coord)
    requires WellFormed(sh, hasHalf) && Valid(sh, x)
    ensures Rank(sh, x) + 1 < Total(sh) ==> Rank(sh, Next(sh, hasHalf, x)) == Rank(sh, x) + 1
    ensures Rank(sh, x) + 1 == Total(sh) ==> Next(sh, hasHalf, x) == Origin
  {
    var y := Next(sh, hasHalf, x);
    NextValid(sh, hasHalf, x);
    RankBound(sh, y);
    var b := sh[x.t];
    var hf := b[x.h];
    var row := hf[x.r];
    if x.m + 1 < row[x.c] || x.c + 1 < |row| {
      RankNextInRow(sh, hasHalf, x);
    } else if x.r + 1 < |hf| {
      RankNextRow(sh, hasHalf, x);
    } else if hasHalf && x.h + 1 < |b| {
      RankNextHalf(sh, hasHalf, x);
    } else {
      RankNextType(sh, hasHalf, x);
    }
  }

  /** The next frame in the same row. */
  lemma RankNextInRow(sh: Shape, hasHalf: bool, x: Coord)
    requires WellFormed(sh, hasHalf) && Valid(sh, x)
    requires var row := sh[x.t][x.h][x.r]; x.m + 1 < row[x.c] || x.c + 1 < |row|
    ensures Rank(sh, Next(sh, hasHalf, x)) == Rank(sh, x) + 1
  {
    var row := sh[x.t][x.h][x.r];
    if x.m + 1 >= row[x.c] {
      SumCarry(row, Count, x.c, x.m);
    }
  }

  /** The first frame of the next row of the half. */
  lemma RankNextRow(sh: Shape, hasHalf: bool, x: Coord)
    requires WellFormed(sh, hasHalf) && Valid(sh, x)
    requires var row := sh[x.t][x.h][x.r]; x.m + 1 == row[x.c] && x.c + 1 == |row|
    requires x.r + 1 < |sh[x.t][x.h]|
    ensures Rank(sh, Next(sh, hasHalf, x)) == Rank(sh, x) + 1
  {
    var hf := sh[x.t][x.h];
    RowDone(hf[x.r], x.c, x.m);
    SumCarry(hf, RowTotal, x.r, InRow(hf[x.r], x.c, x.m));
  }

  /** The first frame of the bottom half. */
  lemma RankNextHalf(sh: Shape, hasHalf: bool, x: Coord)
    requires WellFormed(sh, hasHalf) && Valid(sh, x)
    requires var row := sh[x.t][x.h][x.r]; x.m + 1 == row[x.c] && x.c + 1 == |row|
    requires x.r + 1 == |sh[x.t][x.h]| && hasHalf && x.h + 1 < |sh[x.t]|
    ensures Rank(sh, Next(sh, hasHalf, x)) == Rank(sh, x) + 1
  {
    var b := sh[x.t];
    HalfDone(b[x.h], x.r, x.c, x.m);
    SumCarry(b, HalfTotal, x.h, InHalf(b[x.h], x.r, x.c, x.m));
  }

  /** The first frame of the next type, or the origin after the last. */
  lemma RankNextType(sh: Shape, hasHalf: bool, x: Coord)
    requires WellFormed(sh, hasHalf) && Valid(sh, x)
    requires var row := sh[x.t][x.h][x.r]; x.m + 1 == row[x.c] && x.c + 1 == |row|
    requires x.r + 1 == |sh[x.t][x.h]| && !(hasHalf && x.h + 1 < |sh[x.t]|)
    ensures Rank(sh, x) + 1 < Total(sh) ==> Rank(sh, Next(sh, hasHalf, x)) == Rank(sh, x) + 1
    ensures Rank(sh, x) + 1 == Total(sh) ==> Next(sh, hasHalf, x) == Origin
  {
    var b := sh[x.t];
    var y := Next(sh, hasHalf, x);
    if !hasHalf {
      assert x.h == 0 && |b| == 1;
    }
    assert x.h + 1 == |b|;
    HalfDone(b[x.h], x.r, x.c, x.m);
    SumCarry(b, HalfTotal, x.h, InHalf(b[x.h], x.r, x.c, x.m));
    SumCarry(sh, BlockTotal, x.t, InBlock(b, x.h, x.r, x.c, x.m));
    if x.t + 1 < |sh| {
      assert y == Coord(x.t + 1, 0, 0, 0, 0);
      BlockStart(sh[x.t + 1]);
      NextValid(sh, hasHalf, x);
      RankBound(sh, y);
    } else {
      assert y == Origin;
    }
  }

  /** The first frame of a type comes first in it. */
  lemma BlockStart(b: seq<seq<seq<nat>>>)
    requires |b| > 0 && |b[0]| > 0
    ensures InBlock(b, 0, 0, 0, 0) == 0
  {
    assert b[..0] == [] && b[0][..0] == [] && b[0][0][..0] == [];
  }

  /** The last minor of a row. */
  lemma RowDone(row: seq<nat>, c: nat, m: nat)
    requires c + 1 == |row| && m + 1 == row[c]
    ensures InRow(row, c, m) + 1 == RowTotal(row)
  {
    SumCarry(row, Count, c, m);
  }

  /** The last minor of a half. */
  lemma HalfDone(hf: seq<seq<nat>>, r: nat, c: nat, m: nat)
    requires r + 1 == |hf| && c + 1 == |hf[r]| && m + 1 == hf[r][c]
    ensures InHalf(hf, r, c, m) + 1 == HalfTotal(hf)
  {
    RowDone(hf[r], c, m);
    SumCarry(hf, RowTotal, r, InRow(hf[r], c, m));
  }

  /** `step_backward` moves a valid cursor one frame back in step order;
      from the origin it wraps to the last frame. */
  lemma RankPrev(sh: Shape, hasHalf: bool, x: Coord)
    requires WellFormed(sh, hasHalf) && Valid(sh, x)
    ensures Rank(sh, x) > 0 ==> Rank(sh, Prev(sh, hasHalf, x)) + 1 == Rank(sh, x)
    ensures Rank(sh, x) == 0 ==> Rank(sh, Prev(sh, hasHalf, x)) + 1 == Total(sh)
  {
    if x.m > 0 || x.c > 0 || x.r > 0 || (hasHalf && x.h == 1) {
      RankPrevInType(sh, hasHalf, x);
    } else {
      RankPrevBorrow(sh, hasHalf, x);
    }
  }

  /** The borrow stays inside the type. */
  lemma RankPrevInType(sh: Shape, hasHalf: bool, x: Coord)
    requires WellFormed(sh, hasHalf) && Valid(sh, x)
    requires x.m > 0 || x.c > 0 || x.r > 0 || (hasHalf && x.h == 1)
    ensures Rank(sh, x) > 0 && Rank(sh, Prev(sh, hasHalf, x)) + 1 == Rank(sh, x)
  {
    if x.m > 0 {
    } else if x.c > 0 {
      RankPrevColumn(sh, hasHalf, x);
    } else if x.r > 0 {
      RankPrevRow(sh, hasHalf, x);
    } else {
      RankPrevHalf(sh, hasHalf, x);
    }
  }

  lemma RankPrevColumn(sh: Shape, hasHalf: bool, x: Coord)
    requires WellFormed(sh, hasHalf) && Valid(sh, x)
    requires x.m == 0 && x.c > 0
    ensures Rank(sh, x) > 0 && Rank(sh, Prev(sh, hasHalf, x)) + 1 == Rank(sh, x)
  {
    var row := sh[x.t][x.h][x.r];
    var y := x.(c := x.c - 1, m := row[x.c - 1] - 1);
    assert Prev(sh, hasHalf, x) == y;
    assert InRow(row, y.c, y.m) + 1 == InRow(row, x.c, x.m) by {
      SumCarry(row, Count, x.c - 1, row[x.c - 1] - 1);
    }
  }

  lemma RankPrevRow(sh: Shape, hasHalf: bool, x: Coord)
    requires WellFormed(sh, hasHalf) && Valid(sh, x)
    requires x.m == 0 && x.c == 0 && x.r > 0
    ensures Rank(sh, x) > 0 && Rank(sh, Prev(sh, hasHalf, x)) + 1 == Rank(sh, x)
  {
    var hf := sh[x.t][x.h];
    var pr := hf[x.r - 1];
    var y := RowEnd(sh, hasHalf, x.t, x.h, x.r - 1);
    assert Prev(sh, hasHalf, x) == y;
    assert |pr| > 0 && pr[|pr| - 1] > 0;
    assert InHalf(hf, x.r - 1, |pr| - 1, pr[|pr| - 1] - 1) + 1 == InHalf(hf, x.r, 0, 0) by {
      RowEndRank(pr);
      SumCarry(hf, RowTotal, x.r - 1, RowTotal(pr) - 1);
    }
  }

  lemma RankPrevHalf(sh: Shape, hasHalf: bool, x: Coord)
    requires WellFormed(sh, hasHalf) && Valid(sh, x)
    requires x.m == 0 && x.c == 0 && x.r == 0 && hasHalf && x.h == 1
    ensures Rank(sh, x) > 0 && Rank(sh, Prev(sh, hasHalf, x)) + 1 == Rank(sh, x)
  {
    var b := sh[x.t];
    var h0 := b[0];
    var lr := h0[|h0| - 1];
    var y := HalfEnd(sh, hasHalf, x.t, 0);
    assert Prev(sh, hasHalf, x) == y;
    assert |h0| > 0 && |lr| > 0 && lr[|lr| - 1] > 0;
    assert InBlock(b, 0, |h0| - 1, |lr| - 1, lr[|lr| - 1] - 1) + 1 == InBlock(b, 1, 0, 0, 0) by {
      HalfEndRank(h0);
      SumCarry(b, HalfTotal, 0, HalfTotal(h0) - 1);
    }
  }

  /** The borrow moves to the end of the previous type, or of the last type
      from the first. */
  lemma RankPrevBorrow(sh: Shape, hasHalf: bool, x: Coord)
    requires WellFormed(sh, hasHalf) && Valid(sh, x)
    requires x.m == 0 && x.c == 0 && x.r == 0 && !(hasHalf && x.h == 1)
    ensures Rank(sh, x) > 0 ==> Rank(sh, Prev(sh, hasHalf, x)) + 1 == Rank(sh, x)
    ensures Rank(sh, x) == 0 ==> Rank(sh, Prev(sh, hasHalf, x)) + 1 == Total(sh)
  {
    assert x.h == 0;
    assert Rank(sh, x) == SumOf(sh[..x.t], BlockTotal);
    if x.t > 0 {
      BlockEndIsBeforeNext(sh, hasHalf, x.t - 1);
    } else {
      BlockEndIsBeforeNext(sh, hasHalf, |sh| - 1);
    }
  }

  /** `step_backward` undoes `step_forward`. */
  lemma PrevNext(sh: Shape, hasHalf: bool, x: Coord)
    requires WellFormed(sh, hasHalf) && Valid(sh, x)
    ensures Valid(sh, Next(sh, hasHalf, x)) && Prev(sh, hasHalf, Next(sh, hasHalf, x)) == x
  {
    var y := Next(sh, hasHalf, x);
    NextValid(sh, hasHalf, x);
    RankNext(sh, hasHalf, x);
    RankPrev(sh, hasHalf, y);
    RankBound(sh, x);
    OriginValid(sh, hasHalf);
    RankInjective(sh, Prev(sh, hasHalf, y), x);
  }

  /** `step_forward` undoes `step_backward`. */
  lemma NextPrev(sh: Shape, hasHalf: bool, x: Coord)
    requires WellFormed(sh, hasHalf) && Valid(sh, x)
    ensures Next(sh, hasHalf, Prev(sh, hasHalf, x)) == x
  {
    var y := Prev(sh, hasHalf, x);
    assert Valid(sh, y);
    var z := Next(sh, hasHalf, y);
    RankPrev(sh, hasHalf, x);
    RankNext(sh, hasHalf, y);
    NextValid(sh, hasHalf, y);
    RankBound(sh, x);
    OriginValid(sh, hasHalf);
    if Rank(sh, x) == 0 {
      assert z == Origin;
      RankInjective(sh, x, Origin);
    } else {
      assert Rank(sh, z) == Rank(sh, x);
      RankInjective(sh, z, x);
    }
  }

  /** Stepping from the last frame wraps to the origin, and stepping back
      from the origin wraps to the last frame. */
  lemma Wraparound(sh: Shape, hasHalf: bool)
    requires WellFormed(sh, hasHalf)
    ensures Next(sh, hasHalf, Last(sh, hasHalf)) == Origin
    ensures Prev(sh, hasHalf, Origin) == Last(sh, hasHalf)
    ensures Rank(sh, Last(sh, hasHalf)) + 1 == Total(sh)
  {
    var z := Last(sh, hasHalf);
    OriginValid(sh, hasHalf);
    BlockEndIsBeforeNext(sh, hasHalf, |sh| - 1);
    RankNext(sh, hasHalf, z);
    RankPrev(sh, hasHalf, Origin);
    RankInjective(sh, Prev(sh, hasHalf, Origin), z);
  }

  /** Forward steps that do not reach the end advance the rank one by one. */
  lemma {:induction false} RankNextN(sh: Shape, hasHalf: bool, x: Coord, k: nat)
    requires WellFormed(sh, hasHalf) && Valid(sh, x)
    requires Rank(sh, x) + k < Total(sh)
    ensures Rank(sh, NextN(sh, hasHalf, x, k)) == Rank(sh, x) + k
    decreases k
  {
    if k > 0 {
      var y := Next(sh, hasHalf, x);
      NextValid(sh, hasHalf, x);
      RankNext(sh, hasHalf, x);
      RankNextN(sh, hasHalf, y, k - 1);
    }
  }

  /** One step of `NextN` is `Next`. */
  lemma NextOne(sh: Shape, hasHalf: bool, x: Coord)
    requires WellFormed(sh, hasHalf) && Valid(sh, x)
    ensures NextN(sh, hasHalf, x, 1) == Next(sh, hasHalf, x)
  {
  }

  /** `a + b` forward steps are `a` steps followed by `b` steps. */
  lemma {:induction false} NextNAdd(sh: Shape, hasHalf: bool, x: Coord, a: nat, b: nat)
    requires WellFormed(sh, hasHalf) && Valid(sh, x)
    ensures NextN(sh, hasHalf, x, a + b) == NextN(sh, hasHalf, NextN(sh, hasHalf, x, a), b)
    decreases a
  {
    if a > 0 {
      NextValid(sh, hasHalf, x);
      NextNAdd(sh, hasHalf, Next(sh, hasHalf, x), a - 1, b);
    }
  }

  /** After as many forward steps as there are frames the cursor is back
      where it started. */
  lemma StepsReturn(sh: Shape, hasHalf: bool, x: Coord)
    requires WellFormed(sh, hasHalf) && Valid(sh, x)
    ensures NextN(sh, hasHalf, x, Total(sh)) == x
  {
    var n, r := Total(sh), Rank(sh, x);
    RankBound(sh, x);
    OriginValid(sh, hasHalf);
    // n - r steps reach the origin, and r more come back to x.
    var b := n - r;
    assert NextN(sh, hasHalf, x, b) == Origin by {
      StepsToOrigin(sh, hasHalf, x);
    }
    NextNAdd(sh, hasHalf, x, b, r);
    assert b + r == n;
    var w := NextN(sh, hasHalf, Origin, r);
    RankNextN(sh, hasHalf, Origin, r);
    RankInjective(sh, w, x);
  }

  /** From `x`, the steps left to the last frame and one more lead to the
      origin. */
  lemma StepsToOrigin(sh: Shape, hasHalf: bool, x: Coord)
    requires WellFormed(sh, hasHalf) && Valid(sh, x) && Rank(sh, x) < Total(sh)
    ensures NextN(sh, hasHalf, x, Total(sh) - Rank(sh, x)) == Origin
  {
    var a := Total(sh) - Rank(sh, x) - 1;
    var z := NextN(sh, hasHalf, x, a);
    RankNextN(sh, hasHalf, x, a);
    RankNext(sh, hasHalf, z);
    NextNAdd(sh, hasHalf, x, a, 1);
    assert NextN(sh, hasHalf, z, 1) == Origin;
  }
}
