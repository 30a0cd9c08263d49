/** What `load_frads` builds from an address file whose frames come in
    order, with the indices at each level counting up from 0 without gaps:
    a well-formed structure in which every recorded address other than the
    dummy one passes `check_location`. */
module LoadedShape {
  import opened Wrappers
  import opened Series
  import opened Codec
  import opened Cursor
  import opened Nested
  import opened Loading

  /** The address that comes after `x` in such a file: the next minor of
      the same column, or minor 0 of the next column, row, half (half 1
      after half 0, in a series with halves) or type. */
  predicate Follows(hasHalf: bool, x: Coord, y: Coord)
  {
    y == x.(m := x.m + 1) ||
    y == x.(c := x.c + 1, m := 0) ||
    y == x.(r := x.r + 1, c := 0, m := 0) ||
    (hasHalf && x.h == 0 && y == x.(h := 1, r := 0, c := 0, m := 0)) ||
    y == Coord(x.t + 1, 0, 0, 0, 0)
  }

  /** Cursors in that order, from the origin on. */
  predicate Contiguous(hasHalf: bool, xs: seq<Coord>)
  {
    (|xs| > 0 ==> xs[0] == Origin) &&
    forall i :: 1 <= i < |xs| ==> Follows(hasHalf, xs[i - 1], xs[i])
  }

  /** The cursor a recorded address gives, none for the dummy address. */
  function CursorOf(cfg: SeriesConfig, v: int): (xs: seq<Coord>)
    ensures v == DummyFrame <==> xs == []
  {
    if v == DummyFrame then [] else [Decode(cfg, AddressBits(v))]
  }

  /** The cursors of a list of recorded addresses, in order. */
  function Cursors(cfg: SeriesConfig, addrs: seq<int>): seq<Coord>
    decreases |addrs|
  {
    if addrs == [] then []
    else Cursors(cfg, addrs[..|addrs| - 1]) + CursorOf(cfg, addrs[|addrs| - 1])
  }

  /** The trackers after `x` has been filed. */
  function TrackerOf(x: Coord): Previous
  {
    Previous(x.t, x.h, x.r, x.c)
  }

  /** A well-formed shape whose last type, half, row and column are those
      of `x`, with `x` the last minor of its column. */
  predicate Built(hasHalf: bool, sh: Shape, x: Coord)
  {
    WellFormed(sh, hasHalf) &&
    |sh| == x.t + 1 && |sh[x.t]| == x.h + 1 && |sh[x.t][x.h]| == x.r + 1 &&
    |sh[x.t][x.h][x.r]| == x.c + 1 && sh[x.t][x.h][x.r][x.c] == x.m + 1
  }

  /** Every cursor valid in `a` is still valid in `b`. */
  ghost predicate Grows(a: Shape, b: Shape)
  {
    forall z :: Valid(a, z) ==> Valid(b, z)
  }

  /** The loader after the cursors `xs` have been filed: still empty, or
      built up to the last of them, with all of them valid. */
  ghost predicate Holds(hasHalf: bool, ld: Loader, prev: Previous, xs: seq<Coord>)
  {
    if xs == [] then ld.store == [] && prev == Start
    else
      prev == TrackerOf(xs[|xs| - 1]) && Built(hasHalf, ShapeOf(ld.store), xs[|xs| - 1]) &&
      forall z :: z in xs ==> Valid(ShapeOf(ld.store), z)
  }

  // ---------------------------------------------------------------------
  // One frame more, on shapes

  lemma FirstBuilt(hasHalf: bool)
    ensures Built(hasHalf, [[[[1]]]], Origin)
  {
  }

  lemma MinorBuilt(hasHalf: bool, sh: Shape, x: Coord, sh': Shape)
    requires Built(hasHalf, sh, x)
    requires sh' == sh[x.t := sh[x.t][x.h := sh[x.t][x.h][x.r := sh[x.t][x.h][x.r][x.c := x.m + 2]]]]
    ensures Built(hasHalf, sh', x.(m := x.m + 1)) && Grows(sh, sh')
  {
  }

  lemma ColumnBuilt(hasHalf: bool, sh: Shape, x: Coord, sh': Shape)
    requires Built(hasHalf, sh, x)
    requires sh' == sh[x.t := sh[x.t][x.h := sh[x.t][x.h][x.r := sh[x.t][x.h][x.r] + [1]]]]
    ensures Built(hasHalf, sh', x.(c := x.c + 1, m := 0)) && Grows(sh, sh')
  {
  }

  lemma RowBuilt(hasHalf: bool, sh: Shape, x: Coord, sh': Shape)
    requires Built(hasHalf, sh, x)
    requires sh' == sh[x.t := sh[x.t][x.h := sh[x.t][x.h] + [[1]]]]
    ensures Built(hasHalf, sh', x.(r := x.r + 1, c := 0, m := 0)) && Grows(sh, sh')
  {
  }

  lemma HalfBuilt(hasHalf: bool, sh: Shape, x: Coord, sh': Shape)
    requires Built(hasHalf, sh, x) && hasHalf && x.h == 0
    requires sh' == sh[x.t := sh[x.t] + [[[1]]]]
    ensures Built(hasHalf, sh', x.(h := 1, r := 0, c := 0, m := 0)) && Grows(sh, sh')
  {
  }

  lemma TypeBuilt(hasHalf: bool, sh: Shape, x: Coord, sh': Shape)
    requires Built(hasHalf, sh, x)
    requires sh' == sh + [[[[1]]]]
    ensures Built(hasHalf, sh', Coord(x.t + 1, 0, 0, 0, 0)) && Grows(sh, sh')
  {
  }

  // ---------------------------------------------------------------------
  // One frame more, through the loop body

  /** What each case of `Insert` promises: the frame is filed, the
      trackers move to it, and the store stays built. */
  ghost predicate Filed(hasHalf: bool, ld: Loader, p: Progress, y: Coord)
  {
    p.ok && p.prev == TrackerOf(y) && Built(hasHalf, ShapeOf(p.ld.store), y) &&
    Grows(ShapeOf(ld.store), ShapeOf(p.ld.store))
  }

  lemma InsertFirst(hasHalf: bool, ld: Loader)
    requires ld.store == []
    ensures Filed(hasHalf, ld, Insert(hasHalf, ld, Start, Origin), Origin)
  {
    var s1 := AddBlock([]);
    var s2 := AddHalf(s1, 0);
    var s3 := AddRow(s2, 0, 0);
    var s4 := AddColumn(s3, 0, 0, 0);
    TypeSteps(hasHalf, ld, Start, 0);
    NewTypeShape([], 0);
    assert ShapeOf(AddFrame(s4, 0, 0, 0, 0)) == [[[[1]]]];
    FirstBuilt(hasHalf);
  }

  lemma Overwrite<T>(s: seq<T>, i: nat, a: T, b: T)
    requires i < |s|
    ensures s[i := a][i := b] == s[i := b]
  {
  }

  /** The loop body for the first frame of a type not seen before: a new
      type list, and a half, row, column and frame in it. */
  lemma TypeSteps(hasHalf: bool, ld: Loader, prev: Previous, t: nat)
    requires |ld.store| == t && prev.t != t
    ensures var s4 := AddColumn(AddRow(AddHalf(AddBlock(ld.store), t), t, 0), t, 0, 0);
      var y := Coord(t, 0, 0, 0, 0);
      var p := Insert(hasHalf, ld, prev, y);
      p.ok && p.prev == TrackerOf(y) && p.ld.store == AddFrame(s4, t, 0, 0, 0)
  {
  }

  lemma NewTypeShape(s: Store, t: nat)
    requires |s| == t
    ensures var s4 := AddColumn(AddRow(AddHalf(AddBlock(s), t), t, 0), t, 0, 0);
      ShapeOf(AddFrame(s4, t, 0, 0, 0)) == ShapeOf(s) + [[[[1]]]]
  {
    var sh := ShapeOf(s);
    var s1 := AddBlock(s);
    var s2 := AddHalf(s1, t);
    var s3 := AddRow(s2, t, 0);
    var s4 := AddColumn(s3, t, 0, 0);
    LengthsAt(s, 0, 0, 0);
    AddBlockFrames(s);
    var sh0 := sh + [[]];
    var e0: seq<nat> := [];
    var e1: seq<seq<nat>> := [];
    var e2: seq<seq<seq<nat>>> := [];
    AddHalfShape(s1, t);
    assert ShapeOf(s1)[t] == e2;
    assert e2 + [e1] == [e1];
    assert ShapeOf(s2) == sh0[t := [e1]];
    AddRowShape(s2, t, 0);
    assert ShapeOf(s2)[t][0] == e1;
    assert e1 + [e0] == [e0];
    assert [e1][0 := [e0]] == [[e0]];
    Overwrite(sh0, t, [e1], [[e0]]);
    assert ShapeOf(s3) == sh0[t := [[e0]]];
    AddColumnShape(s3, t, 0, 0);
    assert ShapeOf(s3)[t][0][0] == e0;
    assert e0 + [0] == [0];
    assert [e0][0 := [0]] == [[0]];
    assert [[e0]][0 := [[0]]] == [[[0]]];
    Overwrite(sh0, t, [[e0]], [[[0]]]);
    assert ShapeOf(s4) == sh0[t := [[[0]]]];
    AddFrameShape(s4, t, 0, 0, 0);
    var z: seq<nat> := [0];
    assert z[0 := 1] == [1];
    assert [z][0 := [1]] == [[1]];
    assert [[z]][0 := [[1]]] == [[[1]]];
    Overwrite(sh0, t, [[[0]]], [[[1]]]);
    assert sh0[t := [[[1]]]] == sh + [[[[1]]]];
  }

  /** The loop body for the next minor of the column: just the frame. */
  lemma MinorSteps(hasHalf: bool, ld: Loader, x: Coord)
    requires x.t < |ld.store| && x.h < |ld.store[x.t]| && x.r < |ld.store[x.t][x.h]| &&
      x.c < |ld.store[x.t][x.h][x.r]|
    ensures var y := x.(m := x.m + 1);
      var p := Insert(hasHalf, ld, TrackerOf(x), y);
      p.ok && p.prev == TrackerOf(y) && p.ld.store == AddFrame(ld.store, x.t, x.h, x.r, x.c)
  {
  }

  lemma InsertNextMinor(hasHalf: bool, ld: Loader, x: Coord)
    requires Built(hasHalf, ShapeOf(ld.store), x)
    ensures var y := x.(m := x.m + 1);
      Filed(hasHalf, ld, Insert(hasHalf, ld, TrackerOf(x), y), y)
  {
    var s := ld.store;
    LengthsAt(s, x.t, x.h, x.r);
    MinorSteps(hasHalf, ld, x);
    AddFrameShape(s, x.t, x.h, x.r, x.c);
    MinorBuilt(hasHalf, ShapeOf(s), x, ShapeOf(Insert(hasHalf, ld, TrackerOf(x), x.(m := x.m + 1)).ld.store));
  }

  /** The next column of the row: a new column, and a frame in it. */
  lemma ColumnSteps(hasHalf: bool, ld: Loader, x: Coord)
    requires x.t < |ld.store| && x.h < |ld.store[x.t]| && x.r < |ld.store[x.t][x.h]| &&
      x.c + 1 == |ld.store[x.t][x.h][x.r]|
    ensures var y := x.(c := x.c + 1, m := 0);
      var s1 := AddColumn(ld.store, x.t, x.h, x.r);
      var p := Insert(hasHalf, ld, TrackerOf(x), y);
      p.ok && p.prev == TrackerOf(y) && p.ld.store == AddFrame(s1, x.t, x.h, x.r, y.c)
  {
  }

  lemma NewColumnShape(s: Store, t: nat, h: nat, r: nat)
    requires t < |s| && h < |s[t]| && r < |s[t][h]|
    ensures var s1 := AddColumn(s, t, h, r); var sh := ShapeOf(s);
      ShapeOf(AddFrame(s1, t, h, r, |s[t][h][r]|)) == sh[t := sh[t][h := sh[t][h][r := sh[t][h][r] + [1]]]]
  {
    var sh := ShapeOf(s);
    var s1 := AddColumn(s, t, h, r);
    var c := |s[t][h][r]|;
    LengthsAt(s, t, h, r);
    AddColumnShape(s, t, h, r);
    AddFrameShape(s1, t, h, r, c);
    var row0, row1 := sh[t][h][r] + [0], sh[t][h][r] + [1];
    var half0 := sh[t][h][r := row0];
    var block0 := sh[t][h := half0];
    assert row0[c := 1] == row1;
    Overwrite(sh[t][h], r, row0, row1);
    Overwrite(sh[t], h, half0, half0[r := row1]);
    Overwrite(sh, t, block0, block0[h := half0[r := row1]]);
  }

  lemma InsertNextColumn(hasHalf: bool, ld: Loader, x: Coord)
    requires Built(hasHalf, ShapeOf(ld.store), x)
    ensures var y := x.(c := x.c + 1, m := 0);
      Filed(hasHalf, ld, Insert(hasHalf, ld, TrackerOf(x), y), y)
  {
    var s := ld.store;
    LengthsAt(s, x.t, x.h, x.r);
    ColumnSteps(hasHalf, ld, x);
    NewColumnShape(s, x.t, x.h, x.r);
    ColumnBuilt(hasHalf, ShapeOf(s), x, ShapeOf(Insert(hasHalf, ld, TrackerOf(x), x.(c := x.c + 1, m := 0)).ld.store));
  }

  /** The next row of the half: a new row, a column and a frame. */
  lemma RowSteps(hasHalf: bool, ld: Loader, x: Coord)
    requires x.t < |ld.store| && x.h < |ld.store[x.t]| && x.r + 1 == |ld.store[x.t][x.h]|
    ensures var y := x.(r := x.r + 1, c := 0, m := 0);
      var s2 := AddColumn(AddRow(ld.store, x.t, x.h), x.t, x.h, y.r);
      var p := Insert(hasHalf, ld, TrackerOf(x), y);
      p.ok && p.prev == TrackerOf(y) && p.ld.store == AddFrame(s2, x.t, x.h, y.r, 0)
  {
  }

  lemma NewRowShape(s: Store, t: nat, h: nat)
    requires t < |s| && h < |s[t]|
    ensures var s2 := AddColumn(AddRow(s, t, h), t, h, |s[t][h]|); var sh := ShapeOf(s);
      ShapeOf(AddFrame(s2, t, h, |s[t][h]|, 0)) == sh[t := sh[t][h := sh[t][h] + [[1]]]]
  {
    var sh := ShapeOf(s);
    var r := |s[t][h]|;
    var s1 := AddRow(s, t, h);
    var s2 := AddColumn(s1, t, h, r);
    var e0: seq<nat> := [];
    LengthsAt(s, t, h, 0);
    AddRowShape(s, t, h);
    var half0 := sh[t][h] + [e0];
    var block0 := sh[t][h := half0];
    assert ShapeOf(s1) == sh[t := block0];
    AddColumnShape(s1, t, h, r);
    assert ShapeOf(s1)[t][h][r] == e0;
    assert e0 + [0] == [0];
    var half1 := half0[r := [0]];
    var block1 := block0[h := half1];
    Overwrite(sh[t], h, half0, half1);
    Overwrite(sh, t, block0, block1);
    assert ShapeOf(s2) == sh[t := block1];
    AddFrameShape(s2, t, h, r, 0);
    assert ShapeOf(s2)[t][h][r] == [0];
    var z: seq<nat> := [0];
    assert z[0 := 1] == [1];
    var half2 := half1[r := [1]];
    assert half2 == sh[t][h] + [[1]];
    Overwrite(sh[t], h, half1, half2);
    Overwrite(sh, t, block1, block1[h := half2]);
  }

  lemma InsertNextRow(hasHalf: bool, ld: Loader, x: Coord)
    requires Built(hasHalf, ShapeOf(ld.store), x)
    ensures var y := x.(r := x.r + 1, c := 0, m := 0);
      Filed(hasHalf, ld, Insert(hasHalf, ld, TrackerOf(x), y), y)
  {
    var s := ld.store;
    LengthsAt(s, x.t, x.h, x.r);
    RowSteps(hasHalf, ld, x);
    NewRowShape(s, x.t, x.h);
    RowBuilt(hasHalf, ShapeOf(s), x, ShapeOf(Insert(hasHalf, ld, TrackerOf(x), x.(r := x.r + 1, c := 0, m := 0)).ld.store));
  }

  /** Half 1 after half 0: a new half, a row, a column and a frame. */
  lemma HalfSteps(hasHalf: bool, ld: Loader, x: Coord)
    requires x.t < |ld.store| && x.h == 0 && |ld.store[x.t]| == 1
    ensures var y := x.(h := 1, r := 0, c := 0, m := 0);
      var s3 := AddColumn(AddRow(AddHalf(ld.store, x.t), x.t, 1), x.t, 1, 0);
      var p := Insert(hasHalf, ld, TrackerOf(x), y);
      p.ok && p.prev == TrackerOf(y) && p.ld.store == AddFrame(s3, x.t, 1, 0, 0)
  {
  }

  lemma NewHalfShape(s: Store, t: nat)
    requires t < |s| && |s[t]| == 1
    ensures var s3 := AddColumn(AddRow(AddHalf(s, t), t, 1), t, 1, 0); var sh := ShapeOf(s);
      ShapeOf(AddFrame(s3, t, 1, 0, 0)) == sh[t := sh[t] + [[[1]]]]
  {
    var sh := ShapeOf(s);
    var s1 := AddHalf(s, t);
    var s2 := AddRow(s1, t, 1);
    var s3 := AddColumn(s2, t, 1, 0);
    LengthsAt(s, t, 0, 0);
    AddHalfShape(s, t);
    var block0 := sh[t] + [[]];
    AddRowShape(s1, t, 1);
    var block1 := block0[1 := [[]]];
    assert ShapeOf(s1) == sh[t := block0];
    assert ShapeOf(s1)[t] == block0;
    assert block0[1] == [];
    assert ShapeOf(s1)[t][1] + [[]] == [[]];
    Overwrite(sh, t, block0, block1);
    assert ShapeOf(s2) == sh[t := block1];
    AddColumnShape(s2, t, 1, 0);
    var block2 := block1[1 := [[0]]];
    assert ShapeOf(s2)[t][1] == [[]];
    var e: seq<nat> := [];
    assert e + [0] == [0];
    assert [e][0 := e + [0]] == [[0]];
    Overwrite(sh, t, block1, block2);
    assert ShapeOf(s3) == sh[t := block2];
    AddFrameShape(s3, t, 1, 0, 0);
    var block3 := block2[1 := [[1]]];
    assert ShapeOf(s3)[t][1] == [[0]];
    var z: seq<nat> := [0];
    assert z[0 := 1] == [1];
    assert [z][0 := z[0 := 1]] == [[1]];
    assert block3 == sh[t] + [[[1]]];
    Overwrite(sh, t, block2, block3);
  }

  lemma InsertNextHalf(hasHalf: bool, ld: Loader, x: Coord)
    requires Built(hasHalf, ShapeOf(ld.store), x) && hasHalf && x.h == 0
    ensures var y := x.(h := 1, r := 0, c := 0, m := 0);
      Filed(hasHalf, ld, Insert(hasHalf, ld, TrackerOf(x), y), y)
  {
    var s := ld.store;
    LengthsAt(s, x.t, x.h, x.r);
    HalfSteps(hasHalf, ld, x);
    NewHalfShape(s, x.t);
    HalfBuilt(hasHalf, ShapeOf(s), x, ShapeOf(Insert(hasHalf, ld, TrackerOf(x), x.(h := 1, r := 0, c := 0, m := 0)).ld.store));
  }

  lemma InsertNextType(hasHalf: bool, ld: Loader, x: Coord)
    requires Built(hasHalf, ShapeOf(ld.store), x)
    ensures var y := Coord(x.t + 1, 0, 0, 0, 0);
      Filed(hasHalf, ld, Insert(hasHalf, ld, TrackerOf(x), y), y)
  {
    var s := ld.store;
    LengthsAt(s, x.t, x.h, x.r);
    TypeSteps(hasHalf, ld, TrackerOf(x), x.t + 1);
    NewTypeShape(s, x.t + 1);
    TypeBuilt(hasHalf, ShapeOf(s), x, ShapeOf(Insert(hasHalf, ld, TrackerOf(x), Coord(x.t + 1, 0, 0, 0, 0)).ld.store));
  }

  lemma BuiltValid(hasHalf: bool, sh: Shape, x: Coord)
    requires Built(hasHalf, sh, x)
    ensures Valid(sh, x)
  {
  }

  lemma InsertFollows(hasHalf: bool, ld: Loader, x: Coord, y: Coord)
    requires Built(hasHalf, ShapeOf(ld.store), x) && Follows(hasHalf, x, y)
    ensures Filed(hasHalf, ld, Insert(hasHalf, ld, TrackerOf(x), y), y)
  {
    if y == x.(m := x.m + 1) {
      InsertNextMinor(hasHalf, ld, x);
    } else if y == x.(c := x.c + 1, m := 0) {
      InsertNextColumn(hasHalf, ld, x);
    } else if y == x.(r := x.r + 1, c := 0, m := 0) {
      InsertNextRow(hasHalf, ld, x);
    } else if hasHalf && x.h == 0 && y == x.(h := 1, r := 0, c := 0, m := 0) {
      InsertNextHalf(hasHalf, ld, x);
    } else {
      InsertNextType(hasHalf, ld, x);
    }
  }

  /** The loop body, on the next cursor of a contiguous list. */
  lemma InsertStep(hasHalf: bool, ld: Loader, prev: Previous, xs: seq<Coord>, y: Coord)
    requires Holds(hasHalf, ld, prev, xs) && Contiguous(hasHalf, xs + [y])
    ensures var p := Insert(hasHalf, ld, prev, y);
      p.ok && Holds(hasHalf, p.ld, p.prev, xs + [y])
  {
    var p := Insert(hasHalf, ld, prev, y);
    if xs == [] {
      assert (xs + [y])[0] == y;
      InsertFirst(hasHalf, ld);
    } else {
      var x := xs[|xs| - 1];
      assert Follows(hasHalf, x, y) by {
        assert (xs + [y])[|xs| - 1] == x && (xs + [y])[|xs|] == y;
      }
      InsertFollows(hasHalf, ld, x, y);
    }
    assert Filed(hasHalf, ld, p, y);
    BuiltValid(hasHalf, ShapeOf(p.ld.store), y);
    assert (xs + [y])[|xs + [y]| - 1] == y;
    forall z | z in xs + [y]
      ensures Valid(ShapeOf(p.ld.store), z)
    {
      if z != y {
        assert z in xs;
      }
    }
  }

  lemma ContiguousFront(hasHalf: bool, xs: seq<Coord>, ys: seq<Coord>)
    requires Contiguous(hasHalf, xs + ys)
    ensures Contiguous(hasHalf, xs)
  {
    forall i | 1 <= i < |xs|
      ensures Follows(hasHalf, xs[i - 1], xs[i])
    {
      assert (xs + ys)[i - 1] == xs[i - 1] && (xs + ys)[i] == xs[i];
    }
    if |xs| > 0 {
      assert (xs + ys)[0] == xs[0];
    }
  }

  lemma CursorsSnoc(cfg: SeriesConfig, addrs: seq<int>, v: int)
    ensures Cursors(cfg, addrs + [v]) == Cursors(cfg, addrs) + CursorOf(cfg, v)
  {
    assert (addrs + [v])[..|addrs|] == addrs;
  }

  /** The cursor a line adds: none for an empty line or the dummy address. */
  function LineCursors(cfg: SeriesConfig, line: string): seq<Coord>
  {
    if |line| == 0 || AddressOf(line).None? then [] else CursorOf(cfg, AddressOf(line).value)
  }

  /** One line of the loop, on the next cursor of a contiguous list. */
  lemma LineStep(cfg: SeriesConfig, ld: Loader, prev: Previous, xs: seq<Coord>, line: string)
    requires Holds(cfg.hasHalf, ld, prev, xs)
    requires |line| > 0 ==> AddressOf(line).Some?
    requires Contiguous(cfg.hasHalf, xs + LineCursors(cfg, line))
    ensures var p := LoadLine(cfg, ld, prev, line);
      p.ok && Holds(cfg.hasHalf, p.ld, p.prev, xs + LineCursors(cfg, line))
  {
    if |line| > 0 {
      var v := AddressOf(line).value;
      var ld' := ld.(fradArray := ld.fradArray + [v]);
      if v != DummyFrame {
        InsertStep(cfg.hasHalf, ld', prev, xs, Decode(cfg, AddressBits(v)));
      } else {
        assert xs + LineCursors(cfg, line) == xs;
      }
    } else {
      assert xs + LineCursors(cfg, line) == xs;
    }
  }

  lemma CursorsOfLines(cfg: SeriesConfig, lines: seq<string>)
    requires |lines| > 0
    ensures var n := |lines| - 1;
      Cursors(cfg, Addresses(lines)) == Cursors(cfg, Addresses(lines[..n])) + LineCursors(cfg, lines[n])
  {
    var n := |lines| - 1;
    var line := lines[n];
    if |line| > 0 && AddressOf(line).Some? {
      CursorsSnoc(cfg, Addresses(lines[..n]), AddressOf(line).value);
    } else {
      var xs := Cursors(cfg, Addresses(lines[..n]));
      assert xs + [] == xs;
    }
  }

  /** The loop over the lines, on a file whose cursors are contiguous:
      every line goes through, and the loader holds them all. */
  lemma {:induction false} LoadBuilds(cfg: SeriesConfig, ld: Loader, lines: seq<string>)
    requires ld.store == []
    requires forall i :: 0 <= i < |lines| && |lines[i]| > 0 ==> AddressOf(lines[i]).Some?
    requires Contiguous(cfg.hasHalf, Cursors(cfg, Addresses(lines)))
    ensures var p := LoadLines(cfg, ld, Start, lines);
      p.ok && Holds(cfg.hasHalf, p.ld, p.prev, Cursors(cfg, Addresses(lines)))
    decreases |lines|
  {
    if lines != [] {
      var n := |lines| - 1;
      var front, line := lines[..n], lines[n];
      forall i | 0 <= i < |front| && |front[i]| > 0
        ensures AddressOf(front[i]).Some?
      {
        assert front[i] == lines[i];
      }
      var xs := Cursors(cfg, Addresses(front));
      CursorsOfLines(cfg, lines);
      ContiguousFront(cfg.hasHalf, xs, LineCursors(cfg, line));
      LoadBuilds(cfg, ld, front);
      var p := LoadLines(cfg, ld, Start, front);
      LineStep(cfg, p.ld, p.prev, xs, line);
    }
  }

  lemma {:induction false} InCursors(cfg: SeriesConfig, addrs: seq<int>, v: int)
    requires v in addrs && v != DummyFrame
    ensures Decode(cfg, AddressBits(v)) in Cursors(cfg, addrs)
    decreases |addrs|
  {
    var n := |addrs| - 1;
    if addrs[n] != v {
      assert v in addrs[..n] by {
        assert addrs == addrs[..n] + [addrs[n]];
      }
      InCursors(cfg, addrs[..n], v);
    }
  }

  /** `load_frads` on a file whose addresses come in order, with the
      indices at each level counting up from 0 without gaps, and at least
      one address that is not the dummy one: every line goes through, the
      structure it builds is well formed, and every address it records,
      except the dummy one, decodes to a cursor that passes
      `check_location`. */
  lemma LoadSortedWellFormed(cfg: SeriesConfig, ld: Loader, lines: seq<string>)
    requires ld.store == [] && ld.fradArray == []
    requires forall i :: 0 <= i < |lines| && |lines[i]| > 0 ==> AddressOf(lines[i]).Some?
    requires Contiguous(cfg.hasHalf, Cursors(cfg, Addresses(lines)))
    requires Cursors(cfg, Addresses(lines)) != []
    ensures var p := LoadLines(cfg, ld, Start, lines);
      p.ok && WellFormed(ShapeOf(p.ld.store), cfg.hasHalf) &&
      p.ld.fradArray == Addresses(lines) &&
      forall v :: v in p.ld.fradArray && v != DummyFrame ==>
        Valid(ShapeOf(p.ld.store), Decode(cfg, AddressBits(v)))
  {
    var p := LoadLines(cfg, ld, Start, lines);
    LoadBuilds(cfg, ld, lines);
    LoadRecordsAddresses(cfg, ld, Start, lines);
    forall v | v in p.ld.fradArray && v != DummyFrame
      ensures Valid(ShapeOf(p.ld.store), Decode(cfg, AddressBits(v)))
    {
      InCursors(cfg, Addresses(lines), v);
    }
  }
}
