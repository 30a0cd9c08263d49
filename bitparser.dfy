/** `BitParser`: the reader of `.bit` files that keeps its own frame size
    by series and reads every frame back to back, with neither a pad frame
    nor dummy frames. */
module BitParsing {
  import opened Wrappers
  import opened Streams
  import opened Series
  import opened Codec
  import opened Cursor
  import opened Nested
  import opened Loading
  import opened Filling
  import opened Extraction
  import opened Frads
  import opened BinParsing

  /** The table of `__init__`, which covers series 5 to 9; for any other
      series `wordsPerFrame` is never set, and reading it raises. */
  function BitWordsPerFrame(series: int): (w: Option<nat>)
    ensures w.Some? <==> 5 <= series <= 9
    ensures w.Some? ==> w.value == WordsPerFrame(series) && w.value > 0
  {
    if series == 5 then Some(41)
    else if series == 6 then Some(81)
    else if series == 7 then Some(101)
    else if series == 8 then Some(123)
    else if series == 9 then Some(93)
    else None
  }

  /** What `parse_file` passes to the shared frame loop: all frames, big
      endian, no pad, no dummy frames. */
  const BitOnly := Options(true, false, false, false)

  /** `BitParser(series).parse_file`: the sync word, the first Type-2
      write header, then `get_num_frads()` frames of the parser's own size
      from address 0, each followed by a step. */
  method ParseFile(series: int, fs: FradStructure, data: seq<Byte>) returns (ok: bool)
    requires fs.Consistent() && WellFormed(fs.StoreShape(), fs.cfg.hasHalf)
    modifies fs
    ensures fs.Consistent() && fs.StoreShape() == old(fs.StoreShape())
    ensures ConfigStart(data, Type2WriteMask).None? ==> !ok && unchanged(fs)
    ensures ConfigStart(data, Type2WriteMask).Some? && BitWordsPerFrame(series).None? ==>
      (ok <==> Total(fs.StoreShape()) == 0) && fs.Location() == Origin && fs.Loaded() == old(fs.Loaded())
    ensures ConfigStart(data, Type2WriteMask).Some? && BitWordsPerFrame(series).Some? ==>
      var sh := old(fs.StoreShape());
      var run := ExtractFrames(data, sh, fs.cfg.hasHalf, BitWordsPerFrame(series).value, BitOnly, Total(sh),
                               ConfigStart(data, Type2WriteMask).value);
      ok == run.ok && fs.Loaded() == old(fs.Loaded()).(store := fs.store) &&
      fs.Filled() == Written(Fill(old(fs.store), Origin), fs.cfg.hasHalf, run.frames, run.partial)
  {
    var start := FindConfig(data, Type2WriteMask);
    if start.None? {
      return false;
    }
    ghost var sh, s0, ld0, hasHalf := fs.StoreShape(), fs.store, fs.Loaded(), fs.cfg.hasHalf;
    var numFrames := fs.GetNumFrads();
    Rewind(fs);
    var wpf := BitWordsPerFrame(series);
    if wpf.None? {
      // the first turn reads `self.wordsPerFrame`, which was never set
      return numFrames == 0;
    }
    OriginValid(sh, hasHalf);
    ghost var total := ExtractFrames(data, sh, hasHalf, wpf.value, BitOnly, numFrames, start.value);
    Begun(data, sh, hasHalf, wpf.value, BitOnly, numFrames, start.value, total);
    ok := FrameLoop(fs, data, start.value, wpf.value, BitOnly, numFrames, total);
    ShapeCounted(ld0, fs.store);
  }

  /** Without dummy frames, frame `i` starts `i` frames after the first. */
  lemma BeginWithoutDummies(sh: Shape, hasHalf: bool, wpf: nat, opt: Options, prev: Boundary, x: Coord,
                            pos: nat, i: nat)
    requires WellFormed(sh, hasHalf) && Valid(sh, x) && !opt.dummyFrames
    ensures Begin(sh, hasHalf, wpf, opt, prev, x, pos, i) == pos + 4 * FrameWords(wpf, i)
  {
    if i > 0 {
      StartWithoutDummies(sh, hasHalf, wpf, opt, prev, x, pos, i - 1);
    }
  }

  /** The frames of `parse_file` are read back to back: the loop runs to
      its end exactly when the data holds `count` whole frames after the
      Type-2 word, and frame `i` is the `wpf` words from word `wpf * i`. */
  lemma BitLayout(data: seq<Byte>, sh: Shape, hasHalf: bool, wpf: nat, count: nat, pos: nat, i: nat)
    requires pos <= |data| && WellFormed(sh, hasHalf) && wpf > 0
    ensures var run := ExtractFrames(data, sh, hasHalf, wpf, BitOnly, count, pos);
      (run.ok <==> pos + 4 * FrameWords(wpf, count) <= |data|) &&
      (i < |run.frames| ==> run.frames[i] == ReadWords(data, pos + 4 * FrameWords(wpf, i), wpf, false))
  {
    OriginValid(sh, hasHalf);
    FramesLayout(data, sh, hasHalf, wpf, BitOnly, count, pos, Boundary(0, 0, 0), Origin);
    BeginWithoutDummies(sh, hasHalf, wpf, BitOnly, Boundary(0, 0, 0), Origin, pos, count);
    if i < |ExtractFrames(data, sh, hasHalf, wpf, BitOnly, count, pos).frames| {
      StartWithoutDummies(sh, hasHalf, wpf, BitOnly, Boundary(0, 0, 0), Origin, pos, i);
    }
  }

  /** Word `m` of frame `k` of a run of `parse_file` that reached its
      end is the word at byte `pos + 4 * (wpf * k + m)`, most significant
      byte first; `ExtractPlaced` puts frame `k` at rank `k` in step order. */
  lemma BitWord(data: seq<Byte>, sh: Shape, hasHalf: bool, wpf: nat, count: nat, pos: nat, k: nat, m: nat)
    requires pos <= |data| && WellFormed(sh, hasHalf) && wpf > 0
    requires ExtractFrames(data, sh, hasHalf, wpf, BitOnly, count, pos).ok && k < count && m < wpf
    ensures var frames := ExtractFrames(data, sh, hasHalf, wpf, BitOnly, count, pos).frames;
      var s := pos + 4 * FrameWords(wpf, k);
      k < |frames| && |frames[k]| == wpf && s + 4 * m + 4 <= |data| &&
      frames[k][m] == WordAt(data, s + 4 * m, false).value
  {
    OriginValid(sh, hasHalf);
    FramesLayout(data, sh, hasHalf, wpf, BitOnly, count, pos, Boundary(0, 0, 0), Origin);
    BitLayout(data, sh, hasHalf, wpf, count, pos, k);
    FrameWordsGrow(wpf, k, count);
    ReadWordsAt(data, pos + 4 * FrameWords(wpf, k), wpf, false, m);
  }
}
