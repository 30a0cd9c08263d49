/** `BinParser`: the readers of `.bit`, `.bin`, `.msk`, `.rbb` and `.data`
    files, over the bytes of the file. Where the source raises (the file
    ends before the sync word, before the Type-2 header or inside a frame)
    the model returns `false`; the words stored before that point stay
    stored, as they do in the structure the source was filling. */
module BinParsing {
  import opened Wrappers
  import opened Streams
  import opened Series
  import opened Codec
  import opened Cursor
  import opened Nested
  import opened Loading
  import opened Filling
  import opened Extraction
  import opened Frads

  /** The switches each entry point passes to `extract_frame_data`. */
  const DataFile := Options(false, false, true, true)
  const RbbFile := Options(false, true, true, false)
  const BitFile := Options(true, false, true, false)

  /** `n` reads of four bytes whose results are dropped. */
  method SkipWords(data: seq<Byte>, pos: nat, n: nat) returns (p: nat)
    requires pos <= |data|
    ensures p == Skip(data, pos, n)
  {
    p := pos;
    var i := 0;
    while i < n
      invariant i <= n && p <= |data|
      invariant p == if pos + 4 * i <= |data| then pos + 4 * i else |data|
    {
      p := if p + 4 <= |data| then p + 4 else |data|;
      i := i + 1;
    }
  }

  /** The inner loop of `extract_frame_data`: the `wpf` words of a frame,
      appended to the current frame as they are read; `full` is false when
      a read comes up short, where the source raises. */
  method ReadFrame(fs: FradStructure, data: seq<Byte>, pos: nat, wpf: nat, opt: Options) returns (p: nat, full: bool, ghost cur: seq<nat>)
    requires pos <= |data| && Valid(fs.StoreShape(), fs.Location())
    modifies fs
    ensures fs.Filled() == PutAll(old(fs.Filled()), cur)
    ensures fs.Loaded() == old(fs.Loaded()).(store := fs.store)
    ensures cur == ReadWords(data, pos, wpf, opt.swapEndian)
    ensures full <==> |cur| == wpf
    ensures full ==> p == pos + 4 * wpf
  {
    ghost var g, ld := fs.Filled(), fs.Loaded();
    p := pos;
    var wordCount := 0;
    cur := [];
    while wordCount < wpf
      invariant wordCount <= wpf && pos + 4 * wordCount == p && p <= |data| && |cur| == wordCount
      invariant forall m :: 0 <= m < |cur| ==> cur[m] == WordAt(data, pos + 4 * m, opt.swapEndian).value
      invariant fs.Filled() == PutAll(g, cur)
      invariant fs.Loaded() == ld.(store := fs.store)
    {
      if p + 4 > |data| {
        WordsRead(data, pos, wordCount, wpf, opt.swapEndian, cur);
        return p, false, cur;
      }
      var word := WordAt(data, p, opt.swapEndian).value;
      fs.AppendWord(word);
      assert (cur + [word])[..|cur|] == cur;
      cur := cur + [word];
      p := p + 4;
      wordCount := wordCount + 1;
    }
    WordsRead(data, pos, wordCount, wpf, opt.swapEndian, cur);
    full := true;
  }

  /** `set_current_frad(0)`, whose result the source ignores: address 0
      is the first frame of a well-formed structure. */
  method Rewind(fs: FradStructure)
    requires fs.Configured() && WellFormed(fs.StoreShape(), fs.cfg.hasHalf)
    modifies fs
    ensures fs.Location() == Origin && fs.Loaded() == old(fs.Loaded())
  {
    DecodeZero(fs.cfg);
    OriginValid(fs.StoreShape(), fs.cfg.hasHalf);
    var _ := fs.SetCurrentFrad(0);
  }

  /** One turn of the `while frameCount < numFrames` loop of
      `extract_frame_data`: two dummy frames skipped at a change of type,
      half or row (the trackers then follow the cursor), the words of the
      frame appended, and a step when the frame is whole. */
  method FrameTurn(fs: FradStructure, data: seq<Byte>, pos: nat, wpf: nat, opt: Options,
                   prevType: nat, prevTopBottom: nat, prevRow: nat)
    returns (p: nat, newType: nat, newTopBottom: nat, newRow: nat, full: bool, ghost ws: seq<nat>)
    requires fs.Configured() && pos <= |data| && Ready(fs.Filled(), fs.cfg.hasHalf)
    modifies fs
    ensures fs.Loaded() == old(fs.Loaded()).(store := fs.store)
    ensures Turn(data, wpf, opt, pos, Boundary(prevType, prevTopBottom, prevRow), old(fs.Location()),
                 ws, full, p, Boundary(newType, newTopBottom, newRow))
    ensures full ==> fs.Filled() == Advance(PutAll(old(fs.Filled()), ws), fs.cfg.hasHalf)
    ensures !full ==> fs.Filled() == PutAll(old(fs.Filled()), ws)
  {
    p, newType, newTopBottom, newRow := pos, prevType, prevTopBottom, prevRow;
    // two dummy frames when the type, half or row changes
    if opt.dummyFrames && (fs.blockType != prevType || fs.topBottom != prevTopBottom || fs.row != prevRow) {
      newType, newTopBottom, newRow := fs.blockType, fs.topBottom, fs.row;
      p := SkipWords(data, p, 2 * wpf);
    }
    p, full, ws := ReadFrame(fs, data, p, wpf, opt);
    if full {
      ghost var g := fs.Filled();
      var _ := fs.StepForward();
      assert fs.Filled() == Advance(g, fs.cfg.hasHalf);
    }
  }

  /** `extract_frame_data` from byte `pos`: the structure receives the
      frames of `Extracted` from address 0 on, each followed by a step,
      then the words of the frame the data ended in. Nothing but the words
      of the frames and the cursor changes. */
  method ExtractFrameData(fs: FradStructure, data: seq<Byte>, pos: nat, opt: Options) returns (ok: bool)
    requires fs.Consistent() && WellFormed(fs.StoreShape(), fs.cfg.hasHalf) && pos <= |data|
    modifies fs
    ensures fs.Consistent() && fs.StoreShape() == old(fs.StoreShape())
    ensures fs.Loaded() == old(fs.Loaded()).(store := fs.store)
    ensures var run := Extracted(old(fs.store), fs.cfg, data, pos, opt);
      ok == run.ok &&
      fs.Filled() == Written(Fill(old(fs.store), Origin), fs.cfg.hasHalf, run.frames, run.partial)
  {
    ghost var sh, s0, ld0, hasHalf := fs.StoreShape(), fs.store, fs.Loaded(), fs.cfg.hasHalf;
    var p: nat := pos;
    if opt.padFrame {
      p := SkipWords(data, p, fs.cfg.wordsPerFrame);
    }
    var prevType, prevTopBottom, prevRow := 0, 0, 0;
    var numFrames: nat;
    if opt.includeBram {
      numFrames := fs.GetNumFrads();
    } else {
      numFrames := fs.numLogicFrames;
    }
    Rewind(fs);
    OriginValid(sh, hasHalf);
    ghost var total := Extracted(s0, fs.cfg, data, pos, opt);
    Begun(data, sh, hasHalf, fs.cfg.wordsPerFrame, opt, numFrames, p, total);
    ok := FrameLoop(fs, data, p, fs.cfg.wordsPerFrame, opt, numFrames, total);
    ShapeCounted(ld0, fs.store);
  }

  /** The `while frameCount < numFrames` loop of `extract_frame_data`,
      from the trackers at 0: the whole frames of `total` go in one after
      the other, each followed by a step, then the words of the short
      frame, if any, which ends the loop with `false`. */
  method FrameLoop(fs: FradStructure, data: seq<Byte>, pos: nat, wpf: nat, opt: Options, numFrames: nat, ghost total: Run)
    returns (ok: bool)
    requires fs.Configured() && Ready(fs.Filled(), fs.cfg.hasHalf)
    requires Remaining(data, fs.StoreShape(), fs.cfg.hasHalf, wpf, opt, numFrames, pos,
                       Boundary(0, 0, 0), fs.Location(), total, [])
    modifies fs
    ensures fs.Loaded() == old(fs.Loaded()).(store := fs.store)
    ensures ok == total.ok && fs.Filled() == Written(old(fs.Filled()), fs.cfg.hasHalf, total.frames, total.partial)
  {
    ghost var sh, ld0, f0, hasHalf := fs.StoreShape(), fs.Loaded(), fs.Filled(), fs.cfg.hasHalf;
    var p: nat := pos;
    var prevType, prevTopBottom, prevRow := 0, 0, 0;
    var frameCount: nat := 0;
    ghost var done: seq<seq<nat>> := [];
    ghost var left: nat, prev, x := numFrames, Boundary(0, 0, 0), fs.Location();
    while frameCount < numFrames
      invariant fs.Loaded() == ld0.(store := fs.store)
      invariant frameCount <= numFrames && left == numFrames - frameCount
      invariant prev == Boundary(prevType, prevTopBottom, prevRow) && x == fs.Location()
      invariant fs.Filled() == WriteFrames(f0, hasHalf, done)
      invariant Remaining(data, sh, hasHalf, wpf, opt, left, p, prev, x, total, done)
      decreases left
    {
      ghost var start := p;
      var full: bool;
      ghost var ws: seq<nat>;
      p, prevType, prevTopBottom, prevRow, full, ws := FrameTurn(fs, data, p, wpf, opt, prevType, prevTopBottom, prevRow);
      if !full {
        // the short read raises
        ShortTurn(data, sh, hasHalf, wpf, opt, left, start, prev, x, total, done, ws, p,
                  Boundary(prevType, prevTopBottom, prevRow));
        return false;
      }
      frameCount := frameCount + 1;
      ghost var left0, prev0, x0, done0 := left, prev, x, done;
      left, prev, x, done := left - 1, Boundary(prevType, prevTopBottom, prevRow), fs.Location(), done + [ws];
      WholeTurn(data, sh, hasHalf, wpf, opt, left0, start, prev0, x0, total, done0, ws, p, prev, left, x, done);
      WriteFramesStep(f0, hasHalf, done0, ws);
    }
    Finished(data, sh, hasHalf, wpf, opt, p, prev, x, total, done);
    ok := true;
  }

  // ---------------------------------------------------------------------
  // The entry points

  /** `parse_data_file`: the frames start at the first byte, with dummy
      frames and swapped bytes. */
  method ParseDataFile(fs: FradStructure, data: seq<Byte>) returns (ok: bool)
    requires fs.Consistent() && WellFormed(fs.StoreShape(), fs.cfg.hasHalf)
    modifies fs
    ensures fs.Consistent() && fs.StoreShape() == old(fs.StoreShape())
    ensures fs.Loaded() == old(fs.Loaded()).(store := fs.store)
    ensures var run := Extracted(old(fs.store), fs.cfg, data, 0, DataFile);
      ok == run.ok &&
      fs.Filled() == Written(Fill(old(fs.store), Origin), fs.cfg.hasHalf, run.frames, run.partial)
  {
    ok := ExtractFrameData(fs, data, 0, DataFile);
  }

  /** Where the frames of a `.bit` or `.rbb` file start: just after the
      sync word, then just after the first word from there whose bits
      include all of `mask`; `None` when the data ends before either. */
  function ConfigStart(data: seq<Byte>, mask: nat): (r: Option<nat>)
    ensures r.Some? ==>
      SyncFrom(data, 0, 0).Some? &&
      var s := SyncFrom(data, 0, 0).value;
      4 <= s && s + 4 <= r.value <= |data| && (r.value - s) % 4 == 0 &&
      data[s - 4..s] == SyncWord && Matches(HeaderWord(data, r.value - 4), mask) &&
      forall q :: s <= q < r.value - 4 && (q - s) % 4 == 0 ==> !Matches(HeaderWord(data, q), mask)
  {
    match SyncFrom(data, 0, 0)
    case None => None
    case Some(s) =>
      SyncFound(data);
      if Type2From(data, s, mask).Some? then
        Type2First(data, s, mask);
        Type2From(data, s, mask)
      else None
  }

  /** When no start is found, either no sync word is found, or no word
      after it matches. */
  lemma ConfigMissing(data: seq<Byte>, mask: nat)
    requires ConfigStart(data, mask).None? && SyncFrom(data, 0, 0).Some?
    ensures var s := SyncFrom(data, 0, 0).value;
      forall q :: s <= q && q + 4 <= |data| && (q - s) % 4 == 0 ==> !Matches(HeaderWord(data, q), mask)
  {
    Type2None(data, SyncFrom(data, 0, 0).value, mask);
  }

  /** The sync word search then the Type-2 search of `parse_bit_file`
      and `parse_rbb_file`. */
  method FindConfig(data: seq<Byte>, mask: nat) returns (r: Option<nat>)
    ensures r == ConfigStart(data, mask)
  {
    var sync := FindSync(data);
    if sync.None? {
      return None;
    }
    r := FindType2(data, sync.value, mask);
  }

  /** `parse_rbb_file`: after the sync word and a Type-2 read header, a
      pad frame, then the frames with dummy frames, without BRAM. */
  method ParseRbbFile(fs: FradStructure, data: seq<Byte>) returns (ok: bool)
    requires fs.Consistent() && WellFormed(fs.StoreShape(), fs.cfg.hasHalf)
    modifies fs
    ensures fs.Consistent() && fs.StoreShape() == old(fs.StoreShape())
    ensures ConfigStart(data, Type2ReadMask).None? ==> !ok && unchanged(fs)
    ensures ConfigStart(data, Type2ReadMask).Some? ==>
      var run := Extracted(old(fs.store), fs.cfg, data, ConfigStart(data, Type2ReadMask).value, RbbFile);
      ok == run.ok && fs.Loaded() == old(fs.Loaded()).(store := fs.store) &&
      fs.Filled() == Written(Fill(old(fs.store), Origin), fs.cfg.hasHalf, run.frames, run.partial)
  {
    var start := FindConfig(data, Type2ReadMask);
    if start.None? {
      return false;
    }
    ok := ExtractFrameData(fs, data, start.value, RbbFile);
  }

  /** `parse_bit_file`: after the sync word and a Type-2 write header,
      the frames with dummy frames, BRAM included. */
  method ParseBitFile(fs: FradStructure, data: seq<Byte>) returns (ok: bool)
    requires fs.Consistent() && WellFormed(fs.StoreShape(), fs.cfg.hasHalf)
    modifies fs
    ensures fs.Consistent() && fs.StoreShape() == old(fs.StoreShape())
    ensures ConfigStart(data, Type2WriteMask).None? ==> !ok && unchanged(fs)
    ensures ConfigStart(data, Type2WriteMask).Some? ==>
      var run := Extracted(old(fs.store), fs.cfg, data, ConfigStart(data, Type2WriteMask).value, BitFile);
      ok == run.ok && fs.Loaded() == old(fs.Loaded()).(store := fs.store) &&
      fs.Filled() == Written(Fill(old(fs.store), Origin), fs.cfg.hasHalf, run.frames, run.partial)
  {
    var start := FindConfig(data, Type2WriteMask);
    if start.None? {
      return false;
    }
    ok := ExtractFrameData(fs, data, start.value, BitFile);
  }

  /** `parse_bin_file`: a `.bin` file is read as a `.bit` file. */
  method ParseBinFile(fs: FradStructure, data: seq<Byte>) returns (ok: bool)
    requires fs.Consistent() && WellFormed(fs.StoreShape(), fs.cfg.hasHalf)
    modifies fs
    ensures fs.Consistent() && fs.StoreShape() == old(fs.StoreShape())
    ensures ConfigStart(data, Type2WriteMask).None? ==> !ok && unchanged(fs)
    ensures ConfigStart(data, Type2WriteMask).Some? ==>
      var run := Extracted(old(fs.store), fs.cfg, data, ConfigStart(data, Type2WriteMask).value, BitFile);
      ok == run.ok && fs.Loaded() == old(fs.Loaded()).(store := fs.store) &&
      fs.Filled() == Written(Fill(old(fs.store), Origin), fs.cfg.hasHalf, run.frames, run.partial)
  {
    ok := ParseBitFile(fs, data);
  }

  /** `parse_msk_file`: a `.msk` file is read as a `.bit` file. */
  method ParseMskFile(fs: FradStructure, data: seq<Byte>) returns (ok: bool)
    requires fs.Consistent() && WellFormed(fs.StoreShape(), fs.cfg.hasHalf)
    modifies fs
    ensures fs.Consistent() && fs.StoreShape() == old(fs.StoreShape())
    ensures ConfigStart(data, Type2WriteMask).None? ==> !ok && unchanged(fs)
    ensures ConfigStart(data, Type2WriteMask).Some? ==>
      var run := Extracted(old(fs.store), fs.cfg, data, ConfigStart(data, Type2WriteMask).value, BitFile);
      ok == run.ok && fs.Loaded() == old(fs.Loaded()).(store := fs.store) &&
      fs.Filled() == Written(Fill(old(fs.store), Origin), fs.cfg.hasHalf, run.frames, run.partial)
  {
    ok := ParseBitFile(fs, data);
  }

  /** The invariant of the frame loop: the whole run is the frames stored
      so far followed by what the remaining turns store. */
  ghost predicate Remaining(data: seq<Byte>, sh: Shape, hasHalf: bool, wpf: nat, opt: Options,
                            left: nat, pos: nat, prev: Boundary, x: Coord, total: Run, done: seq<seq<nat>>)
  {
    pos <= |data| && WellFormed(sh, hasHalf) && Valid(sh, x) &&
    var rest := Frames(data, sh, hasHalf, wpf, opt, left, pos, prev, x);
    total == Run(done + rest.frames, rest.partial, rest.ok)
  }

  lemma Begun(data: seq<Byte>, sh: Shape, hasHalf: bool, wpf: nat, opt: Options,
              left: nat, pos: nat, total: Run)
    requires pos <= |data| && WellFormed(sh, hasHalf) && Valid(sh, Origin)
    requires total == Frames(data, sh, hasHalf, wpf, opt, left, pos, Boundary(0, 0, 0), Origin)
    ensures Remaining(data, sh, hasHalf, wpf, opt, left, pos, Boundary(0, 0, 0), Origin, total, [])
  {
    assert [] + total.frames == total.frames;
  }

  /** One turn of the loop from byte `pos`, trackers `prev` and cursor
      `x`: two dummy frames skipped when the cursor's type, half or row is
      not `prev` (the trackers `prev'` then follow the cursor), the words
      `ws` of the frame read, `full` when they are all there, and `p` the
      byte after them. */
  ghost predicate Turn(data: seq<Byte>, wpf: nat, opt: Options, pos: nat, prev: Boundary, x: Coord,
                       ws: seq<nat>, full: bool, p: nat, prev': Boundary)
  {
    pos <= |data| &&
    var cross := opt.dummyFrames && BoundaryOf(x) != prev;
    var start := if cross then Skip(data, pos, 2 * wpf) else pos;
    prev' == (if cross then BoundaryOf(x) else prev) &&
    ws == ReadWords(data, start, wpf, opt.swapEndian) &&
    (full <==> |ws| == wpf) &&
    (full ==> p == start + 4 * wpf && p <= |data|)
  }

  lemma ShortTurn(data: seq<Byte>, sh: Shape, hasHalf: bool, wpf: nat, opt: Options,
                  left: nat, pos: nat, prev: Boundary, x: Coord, total: Run, done: seq<seq<nat>>,
                  ws: seq<nat>, p: nat, prev': Boundary)
    requires Remaining(data, sh, hasHalf, wpf, opt, left, pos, prev, x, total, done) && left > 0
    requires Turn(data, wpf, opt, pos, prev, x, ws, false, p, prev')
    ensures total == Run(done, ws, false)
  {
    FramesShort(data, sh, hasHalf, wpf, opt, left, pos, prev, x,
                if opt.dummyFrames && BoundaryOf(x) != prev then Skip(data, pos, 2 * wpf) else pos);
    assert done + [] == done;
  }

  lemma WholeTurn(data: seq<Byte>, sh: Shape, hasHalf: bool, wpf: nat, opt: Options,
                  left: nat, pos: nat, prev: Boundary, x: Coord, total: Run, done: seq<seq<nat>>, ws: seq<nat>,
                  p: nat, prev': Boundary, left': nat, x': Coord, done': seq<seq<nat>>)
    requires Remaining(data, sh, hasHalf, wpf, opt, left, pos, prev, x, total, done) && left == left' + 1
    requires Turn(data, wpf, opt, pos, prev, x, ws, true, p, prev')
    requires x' == Next(sh, hasHalf, x) && done' == done + [ws]
    ensures Remaining(data, sh, hasHalf, wpf, opt, left', p, prev', x', total, done')
  {
    var start := if opt.dummyFrames && BoundaryOf(x) != prev then Skip(data, pos, 2 * wpf) else pos;
    FramesUnfold(data, sh, hasHalf, wpf, opt, left, pos, prev, x, start, prev', x');
    Appended(total, done, ws, Frames(data, sh, hasHalf, wpf, opt, left, pos, prev, x),
             Frames(data, sh, hasHalf, wpf, opt, left', p, prev', x'));
  }

  /** The run split after one more whole frame. */
  lemma Appended(total: Run, done: seq<seq<nat>>, ws: seq<nat>, r0: Run, r1: Run)
    requires total == Run(done + r0.frames, r0.partial, r0.ok)
    requires r0 == Run([ws] + r1.frames, r1.partial, r1.ok)
    ensures total == Run((done + [ws]) + r1.frames, r1.partial, r1.ok)
  {
    assert done + ([ws] + r1.frames) == (done + [ws]) + r1.frames;
  }

  lemma Finished(data: seq<Byte>, sh: Shape, hasHalf: bool, wpf: nat, opt: Options,
                 pos: nat, prev: Boundary, x: Coord, total: Run, done: seq<seq<nat>>)
    requires Remaining(data, sh, hasHalf, wpf, opt, 0, pos, prev, x, total, done)
    ensures total == Run(done, [], true)
  {
    assert done + [] == done;
  }
}
