/** `AsciiParser`: the readers of the text formats (`.rbt`, `.rba`,
    `.rbd`, `.msd`, `.ebd`), over the lines of the file, the text split at
    each '\n'. Where the source raises (a line too short for
    `ascii_to_int`, an empty line under the `.rbd` guard) the model
    returns `false`; the words stored before that point stay stored. Where
    the lines run out, the source simply returns, and so does the model,
    with `true`. */
module AsciiParsing {
  import opened Wrappers
  import opened Ascii
  import opened Streams
  import opened Series
  import opened Codec
  import opened Cursor
  import opened Nested
  import opened Loading
  import opened Filling
  import opened Extraction
  import opened Frads
  import opened BinParsing
  import opened AsciiRuns

  // ---------------------------------------------------------------------
  // The readers

  /** The sync phase of `parse_rbt_file` and `parse_rba_file`. */
  method FindSyncLine(lines: seq<string>) returns (m: Mark)
    ensures m == SyncLine(lines, 0)
  {
    var i := 0;
    while i < |lines|
      invariant i <= |lines| && SyncLine(lines, i) == SyncLine(lines, 0)
    {
      var line := lines[i];
      if IsWordLine(line) {
        var result := AsciiToInt(line);
        if result.None? {
          return Mark(i, Raised);
        }
        if result.value == SyncValue {
          return Mark(i + 1, Done);
        }
      }
      i := i + 1;
    }
    return Mark(i, RanOut);
  }

  /** The Type-2 phase of `parse_rbt_file` and `parse_rba_file`, from line
      `start`. */
  method FindHeaderLine(lines: seq<string>, start: nat, mask: nat) returns (m: Mark)
    requires start <= |lines|
    ensures m == HeaderLine(lines, start, mask)
  {
    var i := start;
    while i < |lines|
      invariant start <= i <= |lines| && HeaderLine(lines, i, mask) == HeaderLine(lines, start, mask)
    {
      var line := lines[i];
      if |line| > 0 {
        var result := AsciiToInt(line);
        if result.None? {
          return Mark(i, Raised);
        }
        if Bits.And(result.value, mask) == mask {
          return Mark(i + 1, Done);
        }
      }
      i := i + 1;
    }
    return Mark(i, RanOut);
  }

  /** The pad phase: `n` lines dropped from line `start`, counted as
      `Guard` says. */
  method SkipLines(lines: seq<string>, start: nat, n: nat, strict: bool) returns (m: Mark)
    requires start <= |lines|
    ensures m == Drop(lines, start, n, strict)
  {
    var i := start;
    var wordCount := 0;
    while i < |lines| && wordCount < n
      invariant start <= i <= |lines| && wordCount <= n
      invariant Drop(lines, i, n - wordCount, strict) == Drop(lines, start, n, strict)
    {
      var line := lines[i];
      if strict && |line| == 0 {
        // the guard raises
        return Mark(i, Raised);
      }
      if !strict || IsWordLine(line) {
        wordCount := wordCount + 1;
      }
      i := i + 1;
    }
    if wordCount == n {
      return Mark(i, Done);
    }
    return Mark(i, RanOut);
  }

  /** The storage phase shared by `parse_rbt_file`, `parse_rba_file` and
      `parse_rbd_file`, from line `start` with the cursor at address 0:
      each converted line is appended; after `wordsPerFrame` words the
      frame count goes up, and the loop breaks when it reaches `numFrads`;
      otherwise the cursor steps, and a change of type, half or row raises
      the dummy flag, which drops the next 202 counted lines. */
  method StoreLines(fs: FradStructure, lines: seq<string>, start: nat, strict: bool, ghost total: Run)
    returns (ok: bool)
    requires fs.Consistent() && WellFormed(fs.StoreShape(), fs.cfg.hasHalf) && fs.Location() == Origin
    requires start <= |lines|
    requires total == Stored(lines, start, strict, fs.StoreShape(), fs.cfg.hasHalf, fs.cfg.wordsPerFrame)
    modifies fs
    ensures fs.Loaded() == old(fs.Loaded()).(store := fs.store)
    ensures ok == total.ok && fs.Filled() == Written(old(fs.Filled()), fs.cfg.hasHalf, total.frames, total.partial)
  {
    ghost var sh, hasHalf, wpf := fs.StoreShape(), fs.cfg.hasHalf, fs.cfg.wordsPerFrame;
    Started(lines, start, strict, wpf, sh, hasHalf, total);
    OriginValid(sh, hasHalf);
    ok := StoreLoop(fs, lines, start, strict, fs.numFrads, wpf, sh, hasHalf, fs.Filled(), total);
  }

  /** The loop of `StoreLines`, turn by turn. */
  method StoreLoop(fs: FradStructure, lines: seq<string>, start: nat, strict: bool, numFrads: nat,
                   ghost wpf: nat, ghost sh: Shape, ghost hasHalf: bool, ghost f0: Fill, ghost total: Run)
    returns (ok: bool)
    requires fs.Configured() && wpf == fs.cfg.wordsPerFrame && hasHalf == fs.cfg.hasHalf && Ready(f0, hasHalf)
    requires sh == fs.StoreShape() && fs.Filled() == f0 && fs.Location() == Origin && start <= |lines| && numFrads > 0
    requires Along(lines, start, strict, wpf, sh, hasHalf, Standing(numFrads, Boundary(0, 0, 0), Origin, 0, [], []), total)
    modifies fs
    ensures fs.Loaded() == old(fs.Loaded()).(store := fs.store)
    ensures ok == total.ok && fs.Filled() == Written(f0, hasHalf, total.frames, total.partial)
  {
    var c := Counters(0, 0, false, 0, 0, 0, 0);
    ghost var ld0 := fs.Loaded();
    ghost var g := Standing(numFrads, Boundary(0, 0, 0), Origin, 0, [], []);
    var i := start;
    var stop := false;
    ok := true;
    while i < |lines| && !stop
      invariant fs.Loaded() == ld0.(store := fs.store) && fs.StoreShape() == sh
      invariant fs.Filled() == Written(f0, hasHalf, g.done, g.cur)
      invariant stop ==> total == Run(g.done, g.cur, ok)
      invariant !stop ==> i <= |lines| && g.x == fs.Location() && Tracking(c, numFrads, g)
      invariant !stop ==> AlongAt(lines, i, strict, wpf, sh, hasHalf, g, total)
    {
      AlongOpen(lines, i, strict, wpf, sh, hasHalf, g, total);
      stop, ok, c, g := LineTurn(fs, lines, i, strict, numFrads, c, wpf, sh, hasHalf, f0, g, total);
      i := i + 1;
    }
    if !stop {
      AlongOpen(lines, i, strict, wpf, sh, hasHalf, g, total);
      RestAtEnd(lines, strict, wpf, sh, hasHalf, g.left, g.prev, g.x, g.dummies, g.cur, total, g.done);
      ok := true;
    }
  }

  /** One turn of the storage loop, on line `i`: `stop` when the source
      raises (then `ok` is false) or breaks after the last frame (then
      `ok` is true). */
  method LineTurn(fs: FradStructure, lines: seq<string>, i: nat, strict: bool, numFrads: nat, c: Counters,
                  ghost wpf: nat, ghost sh: Shape, ghost hasHalf: bool, ghost f0: Fill, ghost g: Standing,
                  ghost total: Run)
    returns (stop: bool, ok: bool, next: Counters, ghost h: Standing)
    requires fs.Configured() && wpf == fs.cfg.wordsPerFrame && hasHalf == fs.cfg.hasHalf && Ready(f0, hasHalf)
    requires i < |lines| && sh == fs.StoreShape() && g.x == fs.Location()
    requires fs.Filled() == Written(f0, hasHalf, g.done, g.cur)
    requires Tracking(c, numFrads, g) && Along(lines, i, strict, wpf, sh, hasHalf, g, total)
    modifies fs
    ensures fs.Loaded() == old(fs.Loaded()).(store := fs.store) && fs.StoreShape() == sh
    ensures fs.Filled() == Written(f0, hasHalf, h.done, h.cur)
    ensures stop ==> total == Run(h.done, h.cur, ok)
    ensures !stop ==>
      h.x == fs.Location() && Tracking(next, numFrads, h) && Along(lines, i + 1, strict, wpf, sh, hasHalf, h, total)
  {
    var line := lines[i];
    stop, ok, next, h := false, true, c, g;
    if strict && |line| == 0 {
      // the guard raises on an empty line
      RestRaised(lines, i, strict, wpf, sh, hasHalf, g.left, g.prev, g.x, g.dummies, g.cur, total, g.done);
      stop, ok := true, false;
    } else if strict && !IsWordLine(line) {
      RestPassed(lines, i, strict, wpf, sh, hasHalf, g.left, g.prev, g.x, g.dummies, g.cur, total, g.done);
    } else if c.dummyFlag {
      next, h := DummyTurn(fs, lines, i, strict, numFrads, c, wpf, sh, hasHalf, g, total);
    } else if |line| > 0 {
      var result := AsciiToInt(line);
      if result.None? {
        RestRaised(lines, i, strict, wpf, sh, hasHalf, g.left, g.prev, g.x, g.dummies, g.cur, total, g.done);
        stop, ok := true, false;
      } else {
        stop, next, h := WordTurn(fs, lines, i, strict, result.value, numFrads, c, wpf, sh, hasHalf, f0, g, total);
      }
    } else {
      RestPassed(lines, i, strict, wpf, sh, hasHalf, g.left, g.prev, g.x, g.dummies, g.cur, total, g.done);
    }
  }

  /** The dummy branch of the storage loop: one more line dropped; after
      the 202nd the flag drops and the trackers take the cursor's type,
      half and row. */
  method DummyTurn(fs: FradStructure, lines: seq<string>, i: nat, strict: bool, numFrads: nat, c: Counters,
                   ghost wpf: nat, ghost sh: Shape, ghost hasHalf: bool, ghost g: Standing, ghost total: Run)
    returns (next: Counters, ghost h: Standing)
    requires i < |lines| && Guard(lines[i], strict) == Counted && g.x == fs.Location()
    requires c.dummyFlag && Tracking(c, numFrads, g) && Along(lines, i, strict, wpf, sh, hasHalf, g, total)
    ensures h.x == g.x && h.cur == g.cur && h.done == g.done
    ensures Tracking(next, numFrads, h) && Along(lines, i + 1, strict, wpf, sh, hasHalf, h, total)
  {
    RestDummy(lines, i, strict, wpf, sh, hasHalf, g.left, g.prev, g.x, g.dummies, total, g.done);
    next := c.(dummyWordCount := c.dummyWordCount + 1);
    h := g.(dummies := g.dummies - 1);
    if next.dummyWordCount == DummyLines {
      next := next.(dummyFlag := false, dummyWordCount := 0,
                    prevType := fs.blockType, prevTopBottom := fs.topBottom, prevRow := fs.row);
      h := h.(prev := BoundaryOf(g.x));
    }
  }

  /** One converted word of the storage loop: appended; when it completes
      a frame, the frame count goes up and, unless that was the last frame,
      the cursor steps and the dummy flag goes up if the cursor's type,
      half or row differs from the trackers. */
  method StoreWord(fs: FradStructure, v: nat, wpf: nat, numFrads: nat, c: Counters)
    returns (next: Counters, stepped: bool)
    requires fs.Configured() && Ready(fs.Filled(), fs.cfg.hasHalf) && c.wordCount < wpf
    modifies fs
    ensures fs.Loaded() == old(fs.Loaded()).(store := fs.store)
    ensures WordCounted(c, wpf, numFrads, BoundaryOf(fs.Location()) != Boundary(c.prevType, c.prevTopBottom, c.prevRow),
                        next, stepped)
    ensures fs.Filled() == if stepped then Advance(Put(old(fs.Filled()), v), fs.cfg.hasHalf) else Put(old(fs.Filled()), v)
    ensures stepped ==> fs.Location() == Next(old(fs.StoreShape()), fs.cfg.hasHalf, old(fs.Location()))
  {
    fs.AppendWord(v);
    next, stepped := c.(wordCount := c.wordCount + 1), false;
    if next.wordCount == wpf {
      next := next.(wordCount := 0, frameCount := c.frameCount + 1);
      if next.frameCount == numFrads {
        return;
      }
      ghost var f := fs.Filled();
      var _ := fs.StepForward();
      assert fs.Filled() == Advance(f, fs.cfg.hasHalf);
      stepped := true;
      if fs.blockType != c.prevType || fs.topBottom != c.prevTopBottom || fs.row != c.prevRow {
        next := next.(dummyFlag := true);
      }
    }
  }

  /** The word branch of the storage loop, with the bookkeeping of what
      is stored: `last` when the word completes the last frame, which ends
      the run. */
  method WordTurn(fs: FradStructure, lines: seq<string>, i: nat, strict: bool, v: nat, numFrads: nat, c: Counters,
                  ghost wpf: nat, ghost sh: Shape, ghost hasHalf: bool, ghost f0: Fill, ghost g: Standing,
                  ghost total: Run)
    returns (last: bool, next: Counters, ghost h: Standing)
    requires fs.Configured() && wpf == fs.cfg.wordsPerFrame && hasHalf == fs.cfg.hasHalf && Ready(f0, hasHalf)
    requires i < |lines| && WordKind(lines[i], strict) == Counted && AsciiValue(lines[i]) == Some(v)
    requires sh == fs.StoreShape() && g.x == fs.Location() && fs.Filled() == Written(f0, hasHalf, g.done, g.cur)
    requires !c.dummyFlag && Tracking(c, numFrads, g) && Along(lines, i, strict, wpf, sh, hasHalf, g, total)
    modifies fs
    ensures fs.Loaded() == old(fs.Loaded()).(store := fs.store) && fs.StoreShape() == sh
    ensures fs.Filled() == Written(f0, hasHalf, h.done, h.cur)
    ensures last ==> total == Run(h.done, h.cur, true)
    ensures !last ==>
      h.x == fs.Location() && Tracking(next, numFrads, h) && Along(lines, i + 1, strict, wpf, sh, hasHalf, h, total)
  {
    WordRoom(lines, i, strict, wpf, sh, hasHalf, numFrads, c, g, total);
    var stepped: bool;
    next, stepped := StoreWord(fs, v, fs.cfg.wordsPerFrame, numFrads, c);
    h := WordBook(lines, i, strict, wpf, sh, hasHalf, numFrads, f0, c, g, total, v, next, stepped, fs.Location());
    last := !stepped && next.wordCount == 0;
  }

  /** `parse_rbt_file` */
  method ParseRbtFile(fs: FradStructure, lines: seq<string>) returns (ok: bool)
    requires fs.Consistent() && WellFormed(fs.StoreShape(), fs.cfg.hasHalf)
    modifies fs
    ensures fs.Consistent() && fs.StoreShape() == old(fs.StoreShape())
    ensures fs.Loaded() == old(fs.Loaded()).(store := fs.store)
    ensures var run := RbtRun(lines, old(fs.StoreShape()), fs.cfg.hasHalf, fs.cfg.wordsPerFrame);
      ok == run.ok && fs.Filled() == Written(Fill(old(fs.store), Origin), fs.cfg.hasHalf, run.frames, run.partial)
  {
    ghost var ld0 := fs.Loaded();
    Rewind(fs);
    var sync := FindSyncLine(lines);
    if sync.outcome != Done {
      return sync.outcome == RanOut;
    }
    var header := FindHeaderLine(lines, sync.next, Type2WriteMask);
    if header.outcome != Done {
      return header.outcome == RanOut;
    }
    ok := StoreLines(fs, lines, header.next, false,
                     Stored(lines, header.next, false, fs.StoreShape(), fs.cfg.hasHalf, fs.cfg.wordsPerFrame));
    ShapeCounted(ld0, fs.store);
  }

  /** `parse_rba_file` */
  method ParseRbaFile(fs: FradStructure, lines: seq<string>) returns (ok: bool)
    requires fs.Consistent() && WellFormed(fs.StoreShape(), fs.cfg.hasHalf)
    modifies fs
    ensures fs.Consistent() && fs.StoreShape() == old(fs.StoreShape())
    ensures fs.Loaded() == old(fs.Loaded()).(store := fs.store)
    ensures var run := RbaRun(lines, old(fs.StoreShape()), fs.cfg.hasHalf, fs.cfg.wordsPerFrame);
      ok == run.ok && fs.Filled() == Written(Fill(old(fs.store), Origin), fs.cfg.hasHalf, run.frames, run.partial)
  {
    ghost var ld0 := fs.Loaded();
    Rewind(fs);
    var sync := FindSyncLine(lines);
    if sync.outcome != Done {
      return sync.outcome == RanOut;
    }
    var header := FindHeaderLine(lines, sync.next, Type2ReadMask);
    if header.outcome != Done {
      return header.outcome == RanOut;
    }
    var pad := SkipLines(lines, header.next, fs.cfg.wordsPerFrame, false);
    if pad.outcome != Done {
      return pad.outcome == RanOut;
    }
    ok := StoreLines(fs, lines, pad.next, false,
                     Stored(lines, pad.next, false, fs.StoreShape(), fs.cfg.hasHalf, fs.cfg.wordsPerFrame));
    ShapeCounted(ld0, fs.store);
  }

  /** `parse_rbd_file` */
  method ParseRbdFile(fs: FradStructure, lines: seq<string>) returns (ok: bool)
    requires fs.Consistent() && WellFormed(fs.StoreShape(), fs.cfg.hasHalf)
    modifies fs
    ensures fs.Consistent() && fs.StoreShape() == old(fs.StoreShape())
    ensures fs.Loaded() == old(fs.Loaded()).(store := fs.store)
    ensures var run := RbdRun(lines, old(fs.StoreShape()), fs.cfg.hasHalf, fs.cfg.wordsPerFrame);
      ok == run.ok && fs.Filled() == Written(Fill(old(fs.store), Origin), fs.cfg.hasHalf, run.frames, run.partial)
  {
    ghost var ld0 := fs.Loaded();
    Rewind(fs);
    var pad := SkipLines(lines, 0, fs.cfg.wordsPerFrame, true);
    if pad.outcome != Done {
      return pad.outcome == RanOut;
    }
    ok := StoreLines(fs, lines, pad.next, true,
                     Stored(lines, pad.next, true, fs.StoreShape(), fs.cfg.hasHalf, fs.cfg.wordsPerFrame));
    ShapeCounted(ld0, fs.store);
  }

  /** `parse_msd_file`: an `.msd` file is read as an `.rbd` file. */
  method ParseMsdFile(fs: FradStructure, lines: seq<string>) returns (ok: bool)
    requires fs.Consistent() && WellFormed(fs.StoreShape(), fs.cfg.hasHalf)
    modifies fs
    ensures fs.Consistent() && fs.StoreShape() == old(fs.StoreShape())
    ensures fs.Loaded() == old(fs.Loaded()).(store := fs.store)
    ensures var run := RbdRun(lines, old(fs.StoreShape()), fs.cfg.hasHalf, fs.cfg.wordsPerFrame);
      ok == run.ok && fs.Filled() == Written(Fill(old(fs.store), Origin), fs.cfg.hasHalf, run.frames, run.partial)
  {
    ok := ParseRbdFile(fs, lines);
  }

  /** `parse_ebd_file`: from address 0, every line beginning with '0' or
      '1' is a word of the current frame; a turn that begins with the frame
      full first steps forward, wrapping at the end of the device, so that
      the words of a long file go round the store again. A word line too
      short for `ascii_to_int` raises. */
  method ParseEbdFile(fs: FradStructure, lines: seq<string>) returns (ok: bool)
    requires fs.Consistent() && WellFormed(fs.StoreShape(), fs.cfg.hasHalf)
    modifies fs
    ensures fs.Consistent() && fs.StoreShape() == old(fs.StoreShape())
    ensures fs.Loaded() == old(fs.Loaded()).(store := fs.store)
    ensures var run := EbdRun(lines, fs.cfg.wordsPerFrame);
      ok == run.ok && fs.Filled() == Written(Fill(old(fs.store), Origin), fs.cfg.hasHalf, run.frames, run.partial)
  {
    ghost var ld0 := fs.Loaded();
    Rewind(fs);
    ok := EbdLoop(fs, lines);
    ShapeCounted(ld0, fs.store);
  }

  /** The loop of `parse_ebd_file`, from the first frame on. */
  method EbdLoop(fs: FradStructure, lines: seq<string>) returns (ok: bool)
    requires fs.Consistent() && WellFormed(fs.StoreShape(), fs.cfg.hasHalf) && fs.Location() == Origin
    modifies fs
    ensures fs.Loaded() == old(fs.Loaded()).(store := fs.store) && fs.StoreShape() == old(fs.StoreShape())
    ensures var run := EbdRun(lines, fs.cfg.wordsPerFrame);
      ok == run.ok && fs.Filled() == Written(old(fs.Filled()), fs.cfg.hasHalf, run.frames, run.partial)
  {
    ghost var ld0 := fs.Loaded();
    ghost var sh, f0, hasHalf := fs.StoreShape(), fs.Filled(), fs.cfg.hasHalf;
    var wpf := fs.cfg.wordsPerFrame;
    ghost var total := EbdRun(lines, wpf);
    ghost var done: seq<seq<nat>>, cur: seq<nat> := [], [];
    var wordCount := 0;
    var i := 0;
    while i < |lines|
      invariant fs.Loaded() == ld0.(store := fs.store) && fs.StoreShape() == sh
      invariant fs.Filled() == Written(f0, hasHalf, done, cur) && wordCount == |cur|
      invariant EbdAhead(lines, i, wpf, cur, total, done)
    {
      var stop: bool;
      stop, wordCount, done, cur := EbdTurn(fs, lines, i, wpf, wordCount, sh, hasHalf, f0, total, done, cur);
      if stop {
        return false;
      }
      i := i + 1;
    }
    EbdEnd(lines, wpf, cur, total, done);
    return true;
  }

  /** A turn of the loop of `parse_ebd_file`. */
  method EbdTurn(fs: FradStructure, lines: seq<string>, i: nat, wpf: nat, wordCount: nat,
                 ghost sh: Shape, ghost hasHalf: bool, ghost f0: Fill, ghost total: Run,
                 ghost done: seq<seq<nat>>, ghost cur: seq<nat>)
    returns (stop: bool, count: nat, ghost done': seq<seq<nat>>, ghost cur': seq<nat>)
    requires fs.Configured() && fs.StoreShape() == sh && hasHalf == fs.cfg.hasHalf
    requires Ready(f0, hasHalf) && fs.Filled() == Written(f0, hasHalf, done, cur) && wordCount == |cur|
    requires i < |lines| && EbdAhead(lines, i, wpf, cur, total, done)
    modifies fs
    ensures fs.Loaded() == old(fs.Loaded()).(store := fs.store) && fs.StoreShape() == sh
    ensures fs.Filled() == Written(f0, hasHalf, done', cur') && count == |cur'|
    ensures stop ==> total == Run(done', cur', false)
    ensures !stop ==> EbdAhead(lines, i + 1, wpf, cur', total, done')
  {
    count, done', cur' := EbdFull(fs, lines, i, wpf, wordCount, sh, hasHalf, f0, total, done, cur);
    stop, count, cur' := EbdLine(fs, lines, i, wpf, count, sh, hasHalf, f0, total, done', cur');
  }

  /** The head of a turn of the loop of `parse_ebd_file`: a full frame
      is closed by a step. */
  method EbdFull(fs: FradStructure, lines: seq<string>, i: nat, wpf: nat, wordCount: nat,
                 ghost sh: Shape, ghost hasHalf: bool, ghost f0: Fill, ghost total: Run,
                 ghost done: seq<seq<nat>>, ghost cur: seq<nat>)
    returns (count: nat, ghost done': seq<seq<nat>>, ghost cur': seq<nat>)
    requires fs.Configured() && fs.StoreShape() == sh && hasHalf == fs.cfg.hasHalf
    requires Ready(f0, hasHalf) && fs.Filled() == Written(f0, hasHalf, done, cur) && wordCount == |cur|
    requires i < |lines| && EbdAhead(lines, i, wpf, cur, total, done)
    modifies fs
    ensures fs.Loaded() == old(fs.Loaded()).(store := fs.store) && fs.StoreShape() == sh
    ensures fs.Filled() == Written(f0, hasHalf, done', cur') && count == |cur'| && count < wpf
    ensures EbdAhead(lines, i, wpf, cur', total, done')
  {
    count, done', cur' := wordCount, done, cur;
    if count == wpf {
      count := 0;
      EbdClose(lines, i, wpf, cur, total, done);
      WrittenStep(f0, hasHalf, done, cur);
      var _ := fs.StepForward();
      done', cur' := done + [cur], [];
    }
  }

  /** The rest of the turn: a word line is read and appended, any other
      line passed over; `stop` when the line raises. */
  method EbdLine(fs: FradStructure, lines: seq<string>, i: nat, wpf: nat, wordCount: nat,
                 ghost sh: Shape, ghost hasHalf: bool, ghost f0: Fill, ghost total: Run,
                 ghost done: seq<seq<nat>>, ghost cur: seq<nat>)
    returns (stop: bool, count: nat, ghost cur': seq<nat>)
    requires fs.Configured() && fs.StoreShape() == sh && hasHalf == fs.cfg.hasHalf
    requires Ready(f0, hasHalf) && fs.Filled() == Written(f0, hasHalf, done, cur) && wordCount == |cur| < wpf
    requires i < |lines| && EbdAhead(lines, i, wpf, cur, total, done)
    modifies fs
    ensures fs.Loaded() == old(fs.Loaded()).(store := fs.store) && fs.StoreShape() == sh
    ensures fs.Filled() == Written(f0, hasHalf, done, cur') && count == |cur'|
    ensures stop ==> total == Run(done, cur', false)
    ensures !stop ==> EbdAhead(lines, i + 1, wpf, cur', total, done)
  {
    var line := lines[i];
    if |line| > 0 && (line[0] == '0' || line[0] == '1') {
      var result := AsciiToInt(line);
      if result.None? {
        EbdRaised(lines, i, wpf, cur, total, done);
        return true, wordCount, cur;
      }
      EbdTake(lines, i, wpf, cur, total, done, result.value);
      WrittenPut(f0, hasHalf, done, cur, result.value);
      fs.AppendWord(result.value);
      return false, wordCount + 1, cur + [result.value];
    }
    EbdPass(lines, i, wpf, cur, total, done);
    return false, wordCount, cur;
  }
}
