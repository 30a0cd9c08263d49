/** The frame-address structure: the five-level list of frames of one
    device, the list of its addresses, its frame counters, and a cursor
    (type, top/bottom half, row, column, minor) that the navigation
    methods move. */
module Frads {
  import opened Wrappers
  import opened Bits
  import opened Series
  import opened Codec
  import opened Cursor
  import opened Nested
  import opened Loading
  import opened Rows
  import opened Filling

  const FradOk := 0
  const FradOutOfBounds := -1
  const WordOutOfBounds := -2

  class FradStructure {
    const series: int
    /** The masks, shifts and frame size the constructor picks by series. */
    const cfg: SeriesConfig

    var numFrads: nat
    var numLogicFrames: nat
    var numBramFrames: nat
    var numType2Frames: nat
    var numType3Frames: nat
    var numType4Frames: nat
    /** `fradStructure`: types, halves, rows, columns, minors, words. */
    var store: Store
    var fradArray: seq<int>

    /** The cursor; `blockType` is the source's `type`. */
    var blockType: nat
    var topBottom: nat
    var row: nat
    var column: nat
    var minor: nat

    /** The configuration belongs to the series and the counters count the
        frames of the store. */
    predicate Consistent()
      reads this
    {
      Configured() && Counted(Loaded())
    }

    predicate Configured()
    {
      IsSeries(series) && cfg == Config(series)
    }

    function Loaded(): Loader
      reads this
    {
      Loader(store, fradArray, numFrads, numLogicFrames, numBramFrames,
             numType2Frames, numType3Frames, numType4Frames)
    }

    function Location(): Coord
      reads this
    {
      Coord(blockType, topBottom, row, column, minor)
    }

    function StoreShape(): Shape
      reads this
    {
      ShapeOf(store)
    }

    constructor(series: int)
      requires IsSeries(series)
      ensures this.series == series && Consistent()
      ensures store == [] && fradArray == [] && numFrads == 0 && Location() == Origin
    {
      this.series := series;
      cfg := Config(series);
      numFrads, numLogicFrames, numBramFrames := 0, 0, 0;
      numType2Frames, numType3Frames, numType4Frames := 0, 0, 0;
      store := [];
      fradArray := [];
      blockType, topBottom, row, column, minor := 0, 0, 0, 0, 0;
    }

    // -------------------------------------------------------------------
    // Loading

    /** `load_frads` on the lines of the address file. `ok` is false when a
        line raised (an address that is not hexadecimal, or an index with
        no list to append to); the fields then stay as they were when it
        raised. */
    method LoadFrads(lines: seq<string>) returns (ok: bool)
      requires Consistent()
      modifies this
      ensures var p := LoadLines(cfg, old(Loaded()), Start, lines); Loaded() == p.ld && ok == p.ok
      ensures Location() == old(Location()) && Consistent()
    {
      ghost var ld0 := Loaded();
      LoadLinesCounted(cfg, ld0, Start, lines);
      var prev := Start;
      var i := 0;
      while i < |lines|
        invariant 0 <= i <= |lines|
        invariant LoadLines(cfg, ld0, Start, lines[..i]) == Progress(Loaded(), prev, true)
        invariant Location() == old(Location())
      {
        LoadLinesStep(cfg, ld0, Start, lines, i);
        var next, lineOk := LoadLine(lines[i], prev);
        prev := next;
        i := i + 1;
        if !lineOk {
          LoadStops(cfg, ld0, Start, lines, i);
          return false;
        }
      }
      assert lines[..i] == lines;
      return true;
    }

    /** One pass of the loop of `load_frads`, with the trackers `prevType`,
        `prevTopBottom`, `prevRow` and `prevColumn` passed in and out. */
    method LoadLine(line: string, prev: Previous) returns (next: Previous, ok: bool)
      requires Configured()
      modifies this
      ensures Progress(Loaded(), next, ok) == Loading.LoadLine(cfg, old(Loaded()), prev, line)
      ensures Location() == old(Location())
    {
      next, ok := prev, true;
      if |line| == 0 {
        return;
      }
      var address := AddressOf(line);
      if address.None? {
        return prev, false;
      }
      var fradVal := address.value;
      fradArray := fradArray + [fradVal];
      if fradVal == DummyFrame {
        return;
      }
      next, ok := Insert(Decode(cfg, AddressBits(fradVal)), prev);
    }

    /** The part of the loop body that files a non-dummy address. */
    method Insert(x: Coord, prev: Previous) returns (next: Previous, ok: bool)
      requires Configured()
      modifies this
      ensures Progress(Loaded(), next, ok) == Loading.Insert(cfg.hasHalf, old(Loaded()), prev, x)
      ensures Location() == old(Location())
    {
      var p1, a1 := OpenTypeStage(x, prev);
      var p2, a2, ok2 := OpenHalfStage(x, p1, a1);
      if !ok2 {
        return p2, false;
      }
      var p3, a3, ok3 := OpenRowStage(x, p2, a2);
      if !ok3 {
        return p3, false;
      }
      var a4, ok4;
      next, a4, ok4 := OpenColumnStage(x, p3, a3);
      if !ok4 {
        return next, false;
      }
      if !(x.t < |store| && x.h < |store[x.t]| && x.r < |store[x.t][x.h]| && x.c < |store[x.t][x.h][x.r]|) {
        return next, false;
      }
      store := AddFrame(store, x.t, x.h, x.r, x.c);
      CountFrame(x.t);
      ok := true;
    }

    /** The first test of that part: a new type index opens a type list
        (series 8 also forgets the half), and `loadTopBottom` is set. */
    method OpenTypeStage(x: Coord, prev: Previous) returns (next: Previous, added: bool)
      requires Configured()
      modifies this
      ensures Level(store, next, added) == OpenType(cfg.hasHalf, old(store), prev, x)
      ensures Loaded() == old(Loaded()).(store := store) && Location() == old(Location())
    {
      next, added := prev, false;
      if x.t != prev.t {
        store := store + [[]];
        next, added := next.(t := x.t), true;
        if series == 8 {
          next := next.(h := -1);
        }
      }
    }

    /** The second test: a new half index, or a new type, appends a half;
        `ok` is false when there is no type list to append to. */
    method OpenHalfStage(x: Coord, prev: Previous, load: bool) returns (next: Previous, added: bool, ok: bool)
      modifies this
      ensures ok == OpenHalf(Level(old(store), prev, load), x).Some?
      ensures ok ==> OpenHalf(Level(old(store), prev, load), x).value == Level(store, next, added)
      ensures !ok ==> store == old(store) && next == prev
      ensures Loaded() == old(Loaded()).(store := store) && Location() == old(Location())
    {
      next, added, ok := prev, false, true;
      if x.h != prev.h || load {
        if x.t >= |store| {
          return prev, false, false;
        }
        store := AddHalf(store, x.t);
        next, added := prev.(h := x.h), true;
      }
    }

    /** The third test: a new row index, or a new half, appends a row. */
    method OpenRowStage(x: Coord, prev: Previous, load: bool) returns (next: Previous, added: bool, ok: bool)
      modifies this
      ensures ok == OpenRow(Level(old(store), prev, load), x).Some?
      ensures ok ==> OpenRow(Level(old(store), prev, load), x).value == Level(store, next, added)
      ensures !ok ==> store == old(store) && next == prev
      ensures Loaded() == old(Loaded()).(store := store) && Location() == old(Location())
    {
      next, added, ok := prev, false, true;
      if x.r != prev.r || load {
        if !(x.t < |store| && x.h < |store[x.t]|) {
          return prev, false, false;
        }
        store := AddRow(store, x.t, x.h);
        next, added := prev.(r := x.r), true;
      }
    }

    /** The fourth test: a new column index, or a new row, appends a
        column. */
    method OpenColumnStage(x: Coord, prev: Previous, load: bool) returns (next: Previous, added: bool, ok: bool)
      modifies this
      ensures ok == OpenColumn(Level(old(store), prev, load), x).Some?
      ensures ok ==> OpenColumn(Level(old(store), prev, load), x).value == Level(store, next, added)
      ensures !ok ==> store == old(store) && next == prev
      ensures Loaded() == old(Loaded()).(store := store) && Location() == old(Location())
    {
      next, added, ok := prev, false, true;
      if x.c != prev.c || load {
        if !(x.t < |store| && x.h < |store[x.t]| && x.r < |store[x.t][x.h]|) {
          return prev, false, false;
        }
        store := AddColumn(store, x.t, x.h, x.r);
        next, added := prev.(c := x.c), true;
      }
    }

    /** The counters after a frame of type `t` has been added. */
    method CountFrame(t: nat)
      modifies this
      ensures numFrads == old(numFrads) + 1
      ensures numLogicFrames == CountIf(old(numLogicFrames), t, 0)
      ensures numBramFrames == CountIf(old(numBramFrames), t, 1)
      ensures numType2Frames == CountIf(old(numType2Frames), t, 2)
      ensures numType3Frames == CountIf(old(numType3Frames), t, 3)
      ensures numType4Frames == CountIf(old(numType4Frames), t, 4)
      ensures store == old(store) && fradArray == old(fradArray) && Location() == old(Location())
    {
      numFrads := numFrads + 1;
      if t == 0 {
        numLogicFrames := numLogicFrames + 1;
      }
      if t == 1 {
        numBramFrames := numBramFrames + 1;
      }
      if t == 2 {
        numType2Frames := numType2Frames + 1;
      }
      if t == 3 {
        numType3Frames := numType3Frames + 1;
      }
      if t == 4 {
        numType4Frames := numType4Frames + 1;
      }
    }

    // -------------------------------------------------------------------
    // Frames and words

    /** The store and the cursor, as a value. */
    function Filled(): Fill
      reads this
    {
      Fill(store, Location())
    }

    /** `append_word`: the word goes at the end of the current frame (see
        `Filling.Put` and `Filling.PutFrame`); no other frame and no length
        at any level changes. */
    method AppendWord(word: nat)
      requires Valid(StoreShape(), Location())
      modifies this
      ensures Filled() == Put(old(Filled()), word)
      ensures StoreShape() == old(StoreShape())
      ensures Location() == old(Location()) && fradArray == old(fradArray)
      ensures numFrads == old(numFrads) && numLogicFrames == old(numLogicFrames) &&
        numBramFrames == old(numBramFrames) && numType2Frames == old(numType2Frames) &&
        numType3Frames == old(numType3Frames) && numType4Frames == old(numType4Frames)
    {
      var x := Location();
      store := SetFrame(store, x, FrameAt(store, x) + [word]);
    }

    /** `get_word_from_current_frad`: nothing (`None`) for a word index past
        the frame size, otherwise the word of the current frame. Indexing a
        cursor outside the structure, or a frame not yet filled that far,
        raises `IndexError` (`ok` false, and no word). */
    method GetWordFromCurrentFrad(wordNum: nat) returns (w: Option<nat>, ok: bool)
      ensures ok <==>
        (wordNum >= cfg.wordsPerFrame ||
         (Valid(StoreShape(), Location()) && wordNum < |FrameAt(store, Location())|))
      ensures w.None? <==> !ok || wordNum >= cfg.wordsPerFrame
      ensures w.Some? ==> w.value == FrameAt(store, Location())[wordNum]
    {
      if wordNum >= cfg.wordsPerFrame {
        return None, true;
      }
      var located := CheckLocation(Location());
      if located == FradOutOfBounds {
        return None, false;
      }
      ValidInStore(store, Location());
      var frame := store[blockType][topBottom][row][column][minor];
      if wordNum >= |frame| {
        return None, false;
      }
      return Some(frame[wordNum]), true;
    }

    /** `check_location`: 0 exactly when every index is below the length of
        the list at its level. */
    method CheckLocation(x: Coord) returns (r: int)
      ensures r == FradOk <==> Valid(StoreShape(), x)
      ensures r == FradOk || r == FradOutOfBounds
    {
      if |store| > x.t && |store[x.t]| > x.h && |store[x.t][x.h]| > x.r &&
         |store[x.t][x.h][x.r]| > x.c && |store[x.t][x.h][x.r][x.c]| > x.m {
        return FradOk;
      }
      return FradOutOfBounds;
    }

    /** `get_word_from_frad`: -1 for an address outside the structure, -2
        for a word index past the frame size, otherwise the word; a frame
        not yet filled that far raises `IndexError` (`ok` false). */
    method GetWordFromFrad(frad: nat, wordNum: nat) returns (r: int, ok: bool)
      requires Configured()
      ensures var x := Decode(cfg, frad);
        ok <==> !Valid(StoreShape(), x) || wordNum >= cfg.wordsPerFrame || wordNum < |FrameAt(store, x)|
      ensures r == FradOutOfBounds <==> ok && !Valid(StoreShape(), Decode(cfg, frad))
      ensures r == WordOutOfBounds <==> ok && Valid(StoreShape(), Decode(cfg, frad)) && wordNum >= cfg.wordsPerFrame
      ensures ok && Valid(StoreShape(), Decode(cfg, frad)) && wordNum < cfg.wordsPerFrame ==>
        r == FrameAt(store, Decode(cfg, frad))[wordNum]
    {
      var x := Decode(cfg, frad);
      var located := CheckLocation(x);
      if located == FradOutOfBounds {
        return FradOutOfBounds, true;
      }
      if wordNum >= cfg.wordsPerFrame {
        return WordOutOfBounds, true;
      }
      ValidInStore(store, x);
      var frame := store[x.t][x.h][x.r][x.c][x.m];
      if wordNum >= |frame| {
        return 0, false;
      }
      return frame[wordNum], true;
    }

    /** `get_frame_data`: the words of the frame at an address, or `None`
        (the source's -1) for an address outside the structure. */
    method GetFrameData(frad: nat) returns (f: Option<Frame>)
      requires Configured()
      ensures f.None? <==> !Valid(StoreShape(), Decode(cfg, frad))
      ensures f.Some? ==> f.value == FrameAt(store, Decode(cfg, frad))
    {
      var x := Decode(cfg, frad);
      var located := CheckLocation(x);
      if located == FradOutOfBounds {
        return None;
      }
      ValidInStore(store, x);
      return Some(store[x.t][x.h][x.r][x.c][x.m]);
    }

    /** `get_current_frame_data` */
    method GetCurrentFrameData() returns (f: Frame)
      requires Valid(StoreShape(), Location())
      ensures f == FrameAt(store, Location())
    {
      return store[blockType][topBottom][row][column][minor];
    }

    /** `get_num_frads`: the number of frames in the structure. */
    method GetNumFrads() returns (n: nat)
      requires Consistent()
      ensures n == Total(StoreShape())
    {
      return numFrads;
    }

    // -------------------------------------------------------------------
    // The current address

    /** `get_current_frad`: the cursor composed into an address, which
        decodes back to the cursor when every index fits its field. */
    method GetCurrentFrad() returns (frad: nat)
      requires Configured()
      ensures frad == Compose(cfg, Location())
      ensures Fits(cfg, Location()) ==> Decode(cfg, frad) == Location()
    {
      frad := Compose(cfg, Location());
      if Fits(cfg, Location()) {
        DecodeCompose(series, Location());
      }
    }

    /** `set_current_location`: the cursor moves to `x` when `x` is in the
        structure (0), and stays where it is otherwise (-1). */
    method SetCurrentLocation(x: Coord) returns (r: int)
      modifies this
      ensures r == FradOk <==> Valid(StoreShape(), x)
      ensures r == FradOk ==> Location() == x
      ensures r != FradOk ==> r == FradOutOfBounds && Location() == old(Location())
      ensures Loaded() == old(Loaded())
    {
      var located := CheckLocation(x);
      if located == FradOk {
        blockType, topBottom, row, column, minor := x.t, x.h, x.r, x.c, x.m;
        return FradOk;
      }
      return FradOutOfBounds;
    }

    /** `set_current_frad`: an address with a bit outside every field, or
        outside the structure, is refused (-1) and the cursor stays; any
        other address becomes the cursor (0), and `get_current_frad` then
        gives it back. */
    method SetCurrentFrad(frad: nat) returns (r: int)
      requires Configured()
      modifies this
      ensures r == FradOk <==> !HasExtraneousBits(cfg, frad) && Valid(StoreShape(), Decode(cfg, frad))
      ensures r == FradOk ==> Location() == Decode(cfg, frad) && Compose(cfg, Location()) == frad
      ensures r != FradOk ==> r == FradOutOfBounds && Location() == old(Location())
      ensures Loaded() == old(Loaded())
    {
      if AndNot(frad, AllMasks(cfg)) != 0 {
        return FradOutOfBounds;
      }
      r := SetCurrentLocation(Decode(cfg, frad));
      if r == FradOk {
        ComposeDecode(series, frad);
      }
    }

    // -------------------------------------------------------------------
    // Rows, columns and minors

    /** `move_row_up`, reading the structure through `self`: the row (and
        half) above, or -1 at the top edge. The column and minor are then
        looked up again on the new row: a minor missing there is kept, a
        column missing there raises `IndexError` (`ok` false) with the new
        row already set, as does a missing half. */
    method MoveRowUp() returns (r: int, ok: bool)
      requires Configured()
      modifies this
      ensures var y := RowUp(series, old(StoreShape()), old(Location()));
        if y.None? then ok && r == FradOutOfBounds && Location() == old(Location())
        else Location() == y.value && (ok <==> PathExists(old(StoreShape()), y.value)) && (ok ==> r == FradOk)
      ensures Loaded() == old(Loaded())
    {
      var moved := RowUpStep();
      if !moved {
        return FradOutOfBounds, true;
      }
      ok := LookUpColumn();
      return FradOk, ok;
    }

    /** The branches of `move_row_up` that pick the new half and row
        (`moved` false at the edge). */
    method RowUpStep() returns (moved: bool)
      requires Configured()
      modifies this
      ensures var y := RowUp(series, old(StoreShape()), old(Location()));
        moved == y.Some? && Location() == if moved then y.value else old(Location())
      ensures Loaded() == old(Loaded())
    {
      ShapeLengths(store);
      if !(blockType < |store| && topBottom < |store[blockType]|) {
        return true;
      }
      var n := |store[blockType][topBottom]|;
      moved := true;
      if series == 5 {
        if row < n - 1 {
          row := row + 1;
        } else if topBottom == 1 {
          topBottom, row := 0, 0;
        } else {
          moved := false;
        }
      } else if series == 6 || series == 7 {
        if row < n - 1 && topBottom == 0 {
          row := row + 1;
        } else if row > 0 && topBottom == 1 {
          row := row - 1;
        } else if row == 0 && topBottom == 1 {
          topBottom, row := 0, 0;
        } else {
          moved := false;
        }
      } else {
        if row < n - 1 {
          row := row + 1;
        } else {
          moved := false;
        }
      }
    }

    /** `go_to_column(self.column)` then `go_to_minor(self.minor)` after a
        row change: the cursor stays, and the lookups raise (`ok` false)
        exactly when its column has no path in the store. */
    method LookUpColumn() returns (ok: bool)
      modifies this
      ensures ok <==> PathExists(old(StoreShape()), old(Location()))
      ensures Location() == old(Location()) && Loaded() == old(Loaded())
    {
      ShapeLengths(store);
      if !(blockType < |store| && topBottom < |store[blockType]| && row < |store[blockType][topBottom]|) {
        return false;
      }
      var _ := GoToColumn(column);
      if column >= |store[blockType][topBottom][row]| {
        return false;
      }
      var _ := GoToMinor(minor);
      return true;
    }

    /** `move_row_down`, reading the structure through `self`: the row (and
        half) below, or -1 at the bottom edge; the column and minor are then
        looked up again as in `MoveRowUp`. */
    method MoveRowDown() returns (r: int, ok: bool)
      requires Configured()
      modifies this
      ensures var y := RowDown(series, old(StoreShape()), old(Location()));
        if y.None? then ok && r == FradOutOfBounds && Location() == old(Location())
        else Location() == y.value && (ok <==> PathExists(old(StoreShape()), y.value)) && (ok ==> r == FradOk)
      ensures Loaded() == old(Loaded())
    {
      var moved := RowDownStep();
      if !moved {
        return FradOutOfBounds, true;
      }
      ok := LookUpColumn();
      return FradOk, ok;
    }

    /** The branches of `move_row_down` that pick the new half and row
        (`moved` false at the edge). */
    method RowDownStep() returns (moved: bool)
      requires Configured()
      modifies this
      ensures var y := RowDown(series, old(StoreShape()), old(Location()));
        moved == y.Some? && Location() == if moved then y.value else old(Location())
      ensures Loaded() == old(Loaded())
    {
      ShapeLengths(store);
      moved := true;
      if series == 5 {
        if row > 0 {
          row := row - 1;
        } else if topBottom == 0 {
          topBottom := 1;
          if blockType < |store| && 1 < |store[blockType]| {
            row := LastRow(StoreShape()[blockType][1]);
          }
        } else {
          moved := false;
        }
      } else if series == 6 || series == 7 {
        if row > 0 && topBottom == 0 {
          row := row - 1;
        } else if row == 0 && topBottom == 0 {
          topBottom, row := 1, 0;
        } else if !(blockType < |store| && topBottom < |store[blockType]|) {
          return true;
        } else if row < |store[blockType][topBottom]| - 1 && topBottom == 1 {
          row := row + 1;
        } else {
          moved := false;
        }
      } else {
        if row > 0 {
          row := row - 1;
        } else {
          moved := false;
        }
      }
    }

    /** `go_to_row`: -1 for a row past the current half; otherwise the row
        changes and the column and minor are looked up again as in
        `MoveRowUp`, raising (`ok` false) when the new row lacks the
        column. Reading the length of a missing half raises too, with the
        cursor unchanged. */
    method GoToRow(newRow: nat) returns (r: int, ok: bool)
      modifies this
      ensures var x, sh := old(Location()), old(StoreShape());
        if !(x.t < |sh| && x.h < |sh[x.t]|) then !ok && Location() == x
        else if newRow < |sh[x.t][x.h]| then
          Location() == x.(r := newRow) && (ok <==> PathExists(sh, x.(r := newRow))) && (ok ==> r == FradOk)
        else ok && r == FradOutOfBounds && Location() == x
      ensures Loaded() == old(Loaded())
    {
      ShapeLengths(store);
      if !(blockType < |store| && topBottom < |store[blockType]|) {
        return FradOk, false;
      }
      if newRow < |store[blockType][topBottom]| {
        row := newRow;
        ok := LookUpColumn();
        return FradOk, ok;
      }
      return FradOutOfBounds, true;
    }

    /** `move_column_left`: one column to the left, or -1 at column 0. The
        minor is kept even where the new column is shorter, so the cursor
        stays valid exactly when the new column has that minor. */
    method MoveColumnLeft() returns (r: int)
      requires column > 0 ==> PathExists(StoreShape(), Location().(c := column - 1))
      modifies this
      ensures old(column) == 0 ==> r == FradOutOfBounds && Location() == old(Location())
      ensures old(column) > 0 ==> r == FradOk && Location() == old(Location()).(c := old(column) - 1)
      ensures old(column) > 0 ==>
        (Valid(StoreShape(), Location()) <==> old(minor) < old(|store[blockType][topBottom][row][column - 1]|))
      ensures Loaded() == old(Loaded())
    {
      if column == 0 {
        return FradOutOfBounds;
      }
      column := column - 1;
      var _ := GoToMinor(minor);
      ValidInStore(store, Location());
      return FradOk;
    }

    /** `move_column_right`: one column to the right, or -1 at the last
        column of the row. The minor is kept, as in `MoveColumnLeft`. */
    method MoveColumnRight() returns (r: int)
      requires PathExists(StoreShape(), Location())
      modifies this
      ensures var last := old(|store[blockType][topBottom][row]|) - 1;
        if old(column) == last then r == FradOutOfBounds && Location() == old(Location())
        else r == FradOk && Location() == old(Location()).(c := old(column) + 1)
      ensures r == FradOk ==>
        (Valid(StoreShape(), Location()) <==> old(minor) < old(|store[blockType][topBottom][row][column + 1]|))
      ensures Loaded() == old(Loaded())
    {
      PathLengths();
      if column == |store[blockType][topBottom][row]| - 1 {
        return FradOutOfBounds;
      }
      column := column + 1;
      var _ := GoToMinor(minor);
      ValidInStore(store, Location());
      return FradOk;
    }

    /** `go_to_column`: only the column changes, and only to an existing
        column of the current row. The minor is kept, not moved onto the new
        column, so the cursor stays valid exactly when that column has it. */
    method GoToColumn(newColumn: nat) returns (r: int)
      requires blockType < |store| && topBottom < |store[blockType]| && row < |store[blockType][topBottom]|
      modifies this
      ensures r == FradOk <==> newColumn < old(|store[blockType][topBottom][row]|)
      ensures r == FradOk ==> Location() == old(Location()).(c := newColumn)
      ensures r == FradOk ==>
        (Valid(StoreShape(), Location()) <==> old(minor) < old(|store[blockType][topBottom][row][newColumn]|))
      ensures r != FradOk ==> r == FradOutOfBounds && Location() == old(Location())
      ensures Loaded() == old(Loaded())
    {
      if newColumn < |store[blockType][topBottom][row]| {
        column := newColumn;
        var _ := GoToMinor(minor);
        ValidInStore(store, Location());
        return FradOk;
      }
      return FradOutOfBounds;
    }

    /** `go_to_minor`: only the minor changes, and only to an existing minor
        of the current column. */
    method GoToMinor(newMinor: nat) returns (r: int)
      requires PathExists(StoreShape(), Location())
      modifies this
      ensures r == FradOk <==> newMinor < old(|store[blockType][topBottom][row][column]|)
      ensures r == FradOk ==> Location() == old(Location()).(m := newMinor)
      ensures r != FradOk ==> r == FradOutOfBounds && Location() == old(Location())
      ensures Loaded() == old(Loaded())
    {
      if newMinor < |store[blockType][topBottom][row][column]| {
        minor := newMinor;
        return FradOk;
      }
      return FradOutOfBounds;
    }

    /** The lengths along the cursor's path are those of the shape. */
    lemma PathLengths()
      requires PathExists(StoreShape(), Location())
      ensures var sh, x := StoreShape(), Location();
        |store| == |sh| && |store[x.t]| == |sh[x.t]| && |store[x.t][x.h]| == |sh[x.t][x.h]| &&
        |store[x.t][x.h][x.r]| == |sh[x.t][x.h][x.r]| && |store[x.t][x.h][x.r][x.c]| == sh[x.t][x.h][x.r][x.c]
    {
    }

    // -------------------------------------------------------------------
    // Stepping

    /** `step_forward`: the next frame in step order (see `Cursor.Next`),
        returned as an address. */
    method StepForward() returns (frad: nat)
      requires Configured() && PathExists(StoreShape(), Location())
      modifies this
      ensures Location() == Next(old(StoreShape()), cfg.hasHalf, old(Location()))
      ensures frad == Compose(cfg, Location())
      ensures Loaded() == old(Loaded())
    {
      ghost var sh, x := StoreShape(), Location();
      PathLengths();
      if minor < |store[blockType][topBottom][row][column]| - 1 {
        MoveInRow(column, minor + 1);
        assert Location() == Next(sh, cfg.hasHalf, x);
      } else if column < |store[blockType][topBottom][row]| - 1 {
        MoveInRow(column + 1, 0);
        assert Location() == Next(sh, cfg.hasHalf, x);
      } else {
        StepForwardAcrossRows();
      }
      frad := GetCurrentFrad();
    }

    /** The part of `step_forward` that leaves the row: the next row, the
        next half, or the next type (wrapping round to the first). */
    method StepForwardAcrossRows()
      requires Configured() && PathExists(StoreShape(), Location())
      requires var sh, x := StoreShape(), Location();
        x.m + 1 >= sh[x.t][x.h][x.r][x.c] && x.c + 1 >= |sh[x.t][x.h][x.r]|
      modifies this
      ensures Location() == Next(old(StoreShape()), cfg.hasHalf, old(Location()))
      ensures Loaded() == old(Loaded())
    {
      ghost var sh, x := StoreShape(), Location();
      PathLengths();
      assert series != 8 <==> cfg.hasHalf;
      minor, column := 0, 0;
      if row < |store[blockType][topBottom]| - 1 {
        row := row + 1;
        assert Location() == Next(sh, cfg.hasHalf, x);
      } else {
        row := 0;
        if series != 8 && topBottom < |store[blockType]| - 1 {
          topBottom := topBottom + 1;
          assert Location() == Next(sh, cfg.hasHalf, x);
        } else {
          if series != 8 {
            topBottom := 0;
          }
          if blockType < |store| - 1 {
            blockType := blockType + 1;
          } else {
            blockType := 0;
          }
          assert Location() == Next(sh, cfg.hasHalf, x);
        }
      }
    }

    /** The cursor on the last minor of row `r` of half `h` of type `t`,
        as `step_backward` sets it field by field. */
    method GoToRowEnd(t: nat, h: nat, r: nat)
      requires WellFormed(StoreShape(), cfg.hasHalf)
      requires t < |store| && h < |store[t]| && r < |store[t][h]|
      modifies this
      ensures Location() == RowEnd(old(StoreShape()), cfg.hasHalf, t, h, r)
      ensures Loaded() == old(Loaded())
    {
      LengthsAt(store, t, h, r);
      blockType, topBottom, row := t, h, r;
      column := |store[blockType][topBottom][row]| - 1;
      minor := |store[blockType][topBottom][row][column]| - 1;
    }

    /** The cursor on the last minor of type `t`. */
    method GoToBlockEnd(t: nat)
      requires WellFormed(StoreShape(), cfg.hasHalf) && t < |store|
      modifies this
      ensures Location() == BlockEnd(old(StoreShape()), cfg.hasHalf, t)
      ensures Loaded() == old(Loaded())
    {
      ghost var sh := StoreShape();
      LengthsAt(store, t, 0, 0);
      var h := |store[t]| - 1;
      LengthsAt(store, t, h, 0);
      var r := |store[t][h]| - 1;
      assert BlockEnd(sh, cfg.hasHalf, t) == RowEnd(sh, cfg.hasHalf, t, h, r);
      GoToRowEnd(t, h, r);
    }

    /** `step_backward`: the previous frame in step order (see
        `Cursor.Prev`), returned as an address. The source's provisional
        `topBottom` assignment before a change of type is overwritten by
        that change and is not repeated here. */
    method StepBackward() returns (frad: nat)
      requires Configured() && WellFormed(StoreShape(), cfg.hasHalf) && PathExists(StoreShape(), Location())
      modifies this
      ensures Location() == Prev(old(StoreShape()), cfg.hasHalf, old(Location()))
      ensures frad == Compose(cfg, Location())
      ensures Loaded() == old(Loaded())
    {
      ghost var sh, x := StoreShape(), Location();
      LengthsAt(store, blockType, topBottom, row);
      if minor > 0 {
        MoveInRow(column, minor - 1);
        assert Location() == Prev(sh, cfg.hasHalf, x);
      } else if column > 0 {
        assert sh[x.t][x.h][x.r][x.c - 1] == |store[blockType][topBottom][row][column - 1]|;
        MoveInRow(column - 1, |store[blockType][topBottom][row][column - 1]| - 1);
        assert Location() == Prev(sh, cfg.hasHalf, x);
      } else {
        StepBackwardAcrossRows();
      }
      frad := GetCurrentFrad();
    }

    /** Moves the cursor to column `c`, minor `m` of the current row. */
    method MoveInRow(c: nat, m: nat)
      modifies this
      ensures Location() == old(Location()).(c := c, m := m)
      ensures Loaded() == old(Loaded()) && StoreShape() == old(StoreShape())
    {
      column, minor := c, m;
    }

    /** The part of `step_backward` that leaves the row: the end of the row
        before, of the top half, or of the type before (wrapping round to
        the last type). */
    method StepBackwardAcrossRows()
      requires Configured() && WellFormed(StoreShape(), cfg.hasHalf) && PathExists(StoreShape(), Location())
      requires minor == 0 && column == 0
      modifies this
      ensures Location() == Prev(old(StoreShape()), cfg.hasHalf, old(Location()))
      ensures Loaded() == old(Loaded())
    {
      ghost var sh, x := StoreShape(), Location();
      assert series != 8 <==> cfg.hasHalf;
      if row > 0 {
        GoToRowEnd(blockType, topBottom, row - 1);
        assert Location() == Prev(sh, cfg.hasHalf, x);
      } else if series != 8 && topBottom == 1 {
        LengthsAt(store, blockType, 0, 0);
        GoToRowEnd(blockType, 0, |store[blockType][0]| - 1);
        assert Location() == Prev(sh, cfg.hasHalf, x);
      } else {
        GoToBlockEnd(if blockType > 0 then blockType - 1 else |store| - 1);
        assert Location() == Prev(sh, cfg.hasHalf, x);
      }
    }
  }
}
