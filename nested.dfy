/** The five-level list of the frame-address structure: types hold halves,
    halves hold rows, rows hold columns, columns hold minors, and each minor
    is a frame, the list of its 32-bit words. */
module Nested {
  import opened Codec
  import opened Cursor

  type Frame = seq<nat>
  type Column = seq<Frame>
  type Row = seq<Column>
  type Half = seq<Row>
  type Block = seq<Half>
  type Store = seq<Block>

  function RowShape(row: Row): seq<nat>
  {
    seq(|row|, c requires 0 <= c < |row| => |row[c]|)
  }

  function HalfShape(half: Half): seq<seq<nat>>
  {
    seq(|half|, r requires 0 <= r < |half| => RowShape(half[r]))
  }

  function BlockShape(block: Block): seq<seq<seq<nat>>>
  {
    seq(|block|, h requires 0 <= h < |block| => HalfShape(block[h]))
  }

  /** The lengths of the lists, which is all the cursor looks at. */
  function ShapeOf(s: Store): Shape
  {
    seq(|s|, t requires 0 <= t < |s| => BlockShape(s[t]))
  }

  /** The shape holds the lengths of the lists, level by level. */
  lemma ShapeLengths(s: Store)
    ensures |ShapeOf(s)| == |s|
    ensures forall t :: 0 <= t < |s| ==> |ShapeOf(s)[t]| == |s[t]|
    ensures forall t, h :: 0 <= t < |s| && 0 <= h < |s[t]| ==> |ShapeOf(s)[t][h]| == |s[t][h]|
    ensures forall t, h, r :: 0 <= t < |s| && 0 <= h < |s[t]| && 0 <= r < |s[t][h]| ==>
      |ShapeOf(s)[t][h][r]| == |s[t][h][r]|
    ensures forall t, h, r, c :: 0 <= t < |s| && 0 <= h < |s[t]| && 0 <= r < |s[t][h]| && 0 <= c < |s[t][h][r]| ==>
      ShapeOf(s)[t][h][r][c] == |s[t][h][r][c]|
  {
  }

  /** The same, along one path of the store. */
  lemma LengthsAt(s: Store, t: int, h: int, r: int)
    ensures |ShapeOf(s)| == |s|
    ensures 0 <= t < |s| ==> |ShapeOf(s)[t]| == |s[t]|
    ensures 0 <= t < |s| && 0 <= h < |s[t]| ==> |ShapeOf(s)[t][h]| == |s[t][h]|
    ensures 0 <= t < |s| && 0 <= h < |s[t]| && 0 <= r < |s[t][h]| ==>
      |ShapeOf(s)[t][h][r]| == |s[t][h][r]| &&
      forall c :: 0 <= c < |s[t][h][r]| ==> ShapeOf(s)[t][h][r][c] == |s[t][h][r][c]|
  {
  }

  /** `check_location` read on the lists themselves. */
  lemma ValidInStore(s: Store, x: Coord)
    ensures Valid(ShapeOf(s), x) <==>
      x.t < |s| && x.h < |s[x.t]| && x.r < |s[x.t][x.h]| && x.c < |s[x.t][x.h][x.r]| &&
      x.m < |s[x.t][x.h][x.r][x.c]|
  {
  }

  lemma PathInStore(s: Store, x: Coord)
    ensures PathExists(ShapeOf(s), x) <==>
      x.t < |s| && x.h < |s[x.t]| && x.r < |s[x.t][x.h]| && x.c < |s[x.t][x.h][x.r]|
  {
  }

  /** The frame a valid cursor points to. */
  function FrameAt(s: Store, x: Coord): Frame
    requires Valid(ShapeOf(s), x)
  {
    s[x.t][x.h][x.r][x.c][x.m]
  }

  /** The store with the frame at `x` replaced. */
  function SetFrame(s: Store, x: Coord, f: Frame): (s': Store)
    requires Valid(ShapeOf(s), x)
    ensures ShapeOf(s') == ShapeOf(s)
    ensures forall y :: Valid(ShapeOf(s), y) ==> FrameAt(s', y) == if y == x then f else FrameAt(s, y)
  {
    var col := s[x.t][x.h][x.r][x.c];
    var row := s[x.t][x.h][x.r][x.c := col[x.m := f]];
    var half := s[x.t][x.h][x.r := row];
    var block := s[x.t][x.h := half];
    var s' := s[x.t := block];
    assert RowShape(row) == RowShape(s[x.t][x.h][x.r]);
    assert HalfShape(half) == HalfShape(s[x.t][x.h]);
    assert BlockShape(block) == BlockShape(s[x.t]);
    assert ShapeOf(s') == ShapeOf(s);
    s'
  }

  // ---------------------------------------------------------------------
  // The appends of `load_frads`, each adding one empty list at one level

  function AddBlock(s: Store): Store
  {
    s + [[]]
  }

  function AddHalf(s: Store, t: nat): Store
    requires t < |s|
  {
    s[t := s[t] + [[]]]
  }

  function AddRow(s: Store, t: nat, h: nat): Store
    requires t < |s| && h < |s[t]|
  {
    s[t := s[t][h := s[t][h] + [[]]]]
  }

  function AddColumn(s: Store, t: nat, h: nat, r: nat): Store
    requires t < |s| && h < |s[t]| && r < |s[t][h]|
  {
    s[t := s[t][h := s[t][h][r := s[t][h][r] + [[]]]]]
  }

  /** A new, empty frame at the end of column `c`. */
  function AddFrame(s: Store, t: nat, h: nat, r: nat, c: nat): Store
    requires t < |s| && h < |s[t]| && r < |s[t][h]| && c < |s[t][h][r]|
  {
    s[t := s[t][h := s[t][h][r := s[t][h][r][c := s[t][h][r][c] + [[]]]]]]
  }

  /** Frames per type: `BlockTotal` of each type's shape. */
  function TypeFrames(s: Store, t: nat): nat
  {
    if t < |s| then BlockTotal(BlockShape(s[t])) else 0
  }

  lemma SumAppend<T>(s: seq<T>, v: T, f: T -> nat)
    ensures SumOf(s + [v], f) == SumOf(s, f) + f(v)
  {
    assert (s + [v])[..|s|] == s;
  }

  lemma {:induction false} SumUpdate<T>(s: seq<T>, i: nat, v: T, f: T -> nat)
    requires i < |s|
    ensures SumOf(s[i := v], f) + f(s[i]) == SumOf(s, f) + f(v)
    decreases |s|
  {
    var n := |s| - 1;
    assert s[i := v][..n] == if i < n then s[..n][i := v] else s[..n];
    if i < n {
      SumUpdate(s[..n], i, v, f);
    }
  }

  lemma TotalOfUpdate(sh: Shape, t: nat, b: seq<seq<seq<nat>>>)
    requires t < |sh|
    ensures Total(sh[t := b]) + BlockTotal(sh[t]) == Total(sh) + BlockTotal(b)
  {
    SumUpdate(sh, t, b, BlockTotal);
  }

  /** Adding an empty list at any level leaves the number of frames alone;
      adding a frame adds one, to its own type. */
  lemma AddBlockFrames(s: Store)
    ensures ShapeOf(AddBlock(s)) == ShapeOf(s) + [[]]
    ensures Total(ShapeOf(AddBlock(s))) == Total(ShapeOf(s))
    ensures forall k :: TypeFrames(AddBlock(s), k) == TypeFrames(s, k)
  {
    assert ShapeOf(AddBlock(s)) == ShapeOf(s) + [[]];
    SumAppend(ShapeOf(s), [], BlockTotal);
    forall k: nat
      ensures TypeFrames(AddBlock(s), k) == TypeFrames(s, k)
    {
      if k == |s| {
        assert BlockShape([]) == [];
      }
    }
  }

  lemma AddHalfFrames(s: Store, t: nat)
    requires t < |s|
    ensures Total(ShapeOf(AddHalf(s, t))) == Total(ShapeOf(s))
    ensures forall k :: TypeFrames(AddHalf(s, t), k) == TypeFrames(s, k)
  {
    var b := s[t] + [[]];
    assert BlockShape(b) == BlockShape(s[t]) + [[]];
    SumAppend(BlockShape(s[t]), [], HalfTotal);
    assert ShapeOf(AddHalf(s, t)) == ShapeOf(s)[t := BlockShape(b)];
    TotalOfUpdate(ShapeOf(s), t, BlockShape(b));
  }

  lemma AddRowFrames(s: Store, t: nat, h: nat)
    requires t < |s| && h < |s[t]|
    ensures Total(ShapeOf(AddRow(s, t, h))) == Total(ShapeOf(s))
    ensures forall k :: TypeFrames(AddRow(s, t, h), k) == TypeFrames(s, k)
  {
    var hf := s[t][h] + [[]];
    var b := s[t][h := hf];
    assert HalfShape(hf) == HalfShape(s[t][h]) + [[]];
    SumAppend(HalfShape(s[t][h]), [], RowTotal);
    assert BlockShape(b) == BlockShape(s[t])[h := HalfShape(hf)];
    SumUpdate(BlockShape(s[t]), h, HalfShape(hf), HalfTotal);
    assert ShapeOf(AddRow(s, t, h)) == ShapeOf(s)[t := BlockShape(b)];
    TotalOfUpdate(ShapeOf(s), t, BlockShape(b));
  }

  lemma AddColumnFrames(s: Store, t: nat, h: nat, r: nat)
    requires t < |s| && h < |s[t]| && r < |s[t][h]|
    ensures Total(ShapeOf(AddColumn(s, t, h, r))) == Total(ShapeOf(s))
    ensures forall k :: TypeFrames(AddColumn(s, t, h, r), k) == TypeFrames(s, k)
  {
    var row := s[t][h][r] + [[]];
    var hf := s[t][h][r := row];
    var b := s[t][h := hf];
    assert RowShape(row) == RowShape(s[t][h][r]) + [0];
    SumAppend<nat>(RowShape(s[t][h][r]), 0, Count);
    assert HalfShape(hf) == HalfShape(s[t][h])[r := RowShape(row)];
    SumUpdate(HalfShape(s[t][h]), r, RowShape(row), RowTotal);
    assert BlockShape(b) == BlockShape(s[t])[h := HalfShape(hf)];
    SumUpdate(BlockShape(s[t]), h, HalfShape(hf), HalfTotal);
    assert ShapeOf(AddColumn(s, t, h, r)) == ShapeOf(s)[t := BlockShape(b)];
    TotalOfUpdate(ShapeOf(s), t, BlockShape(b));
  }

  lemma AddFrameFrames(s: Store, t: nat, h: nat, r: nat, c: nat)
    requires t < |s| && h < |s[t]| && r < |s[t][h]| && c < |s[t][h][r]|
    ensures Total(ShapeOf(AddFrame(s, t, h, r, c))) == Total(ShapeOf(s)) + 1
    ensures forall k ::
      TypeFrames(AddFrame(s, t, h, r, c), k) == TypeFrames(s, k) + (if k == t then 1 else 0)
  {
    var col := s[t][h][r][c] + [[]];
    var row := s[t][h][r][c := col];
    var hf := s[t][h][r := row];
    var b := s[t][h := hf];
    assert RowShape(row) == RowShape(s[t][h][r])[c := |col|];
    SumUpdate<nat>(RowShape(s[t][h][r]), c, |col|, Count);
    assert HalfShape(hf) == HalfShape(s[t][h])[r := RowShape(row)];
    SumUpdate(HalfShape(s[t][h]), r, RowShape(row), RowTotal);
    assert BlockShape(b) == BlockShape(s[t])[h := HalfShape(hf)];
    SumUpdate(BlockShape(s[t]), h, HalfShape(hf), HalfTotal);
    assert RowTotal(RowShape(row)) == RowTotal(RowShape(s[t][h][r])) + 1;
    assert HalfTotal(HalfShape(hf)) == HalfTotal(HalfShape(s[t][h])) + 1;
    assert BlockTotal(BlockShape(b)) == BlockTotal(BlockShape(s[t])) + 1;
    assert ShapeOf(AddFrame(s, t, h, r, c)) == ShapeOf(s)[t := BlockShape(b)];
    TotalOfUpdate(ShapeOf(s), t, BlockShape(b));
  }

  // ---------------------------------------------------------------------
  // The shape after each append: one more empty list, or one more frame,
  // at the end of one list

  lemma AddHalfShape(s: Store, t: nat)
    requires t < |s|
    ensures ShapeOf(AddHalf(s, t)) == ShapeOf(s)[t := ShapeOf(s)[t] + [[]]]
  {
    assert HalfShape([]) == [];
    assert BlockShape(s[t] + [[]]) == BlockShape(s[t]) + [[]];
  }

  lemma AddRowShape(s: Store, t: nat, h: nat)
    requires t < |s| && h < |s[t]|
    ensures var sh := ShapeOf(s);
      ShapeOf(AddRow(s, t, h)) == sh[t := sh[t][h := sh[t][h] + [[]]]]
  {
    var hf := s[t][h] + [[]];
    assert HalfShape(hf) == HalfShape(s[t][h]) + [[]];
    assert BlockShape(s[t][h := hf]) == BlockShape(s[t])[h := HalfShape(hf)];
  }

  lemma AddColumnShape(s: Store, t: nat, h: nat, r: nat)
    requires t < |s| && h < |s[t]| && r < |s[t][h]|
    ensures var sh := ShapeOf(s);
      ShapeOf(AddColumn(s, t, h, r)) == sh[t := sh[t][h := sh[t][h][r := sh[t][h][r] + [0]]]]
  {
    var row := s[t][h][r] + [[]];
    var hf := s[t][h][r := row];
    assert RowShape(row) == RowShape(s[t][h][r]) + [0];
    assert HalfShape(hf) == HalfShape(s[t][h])[r := RowShape(row)];
    assert BlockShape(s[t][h := hf]) == BlockShape(s[t])[h := HalfShape(hf)];
  }

  lemma AddFrameShape(s: Store, t: nat, h: nat, r: nat, c: nat)
    requires t < |s| && h < |s[t]| && r < |s[t][h]| && c < |s[t][h][r]|
    ensures var sh := ShapeOf(s);
      ShapeOf(AddFrame(s, t, h, r, c)) ==
        sh[t := sh[t][h := sh[t][h][r := sh[t][h][r][c := sh[t][h][r][c] + 1]]]]
  {
    var col := s[t][h][r][c] + [[]];
    var row := s[t][h][r][c := col];
    var hf := s[t][h][r := row];
    assert RowShape(row) == RowShape(s[t][h][r])[c := |col|];
    assert HalfShape(hf) == HalfShape(s[t][h])[r := RowShape(row)];
    assert BlockShape(s[t][h := hf]) == BlockShape(s[t])[h := HalfShape(hf)];
  }
}
