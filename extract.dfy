/** `extract_frame_data` stated on values: which words of the input become
    which frame, which words the pad frame and the dummy frames take, and
    what is stored when the input ends early. */
module Extraction {
  import opened Wrappers
  import opened Series
  import opened Streams
  import opened Codec
  import opened Cursor
  import opened Nested
  import opened Filling

  /** The four switches of `extract_frame_data`: count all frames or the
      logic frames only, drop a pad frame first, drop two dummy frames at
      each change of type, half or row, and reverse the bytes of each
      word. */
  datatype Options = Options(includeBram: bool, padFrame: bool, dummyFrames: bool, swapEndian: bool)

  /** The type, half and row the dummy-frame test compares: `prevType`,
      `prevTopBottom` and `prevRow`. */
  datatype Boundary = Boundary(t: nat, h: nat, r: nat)

  function BoundaryOf(x: Coord): Boundary
  {
    Boundary(x.t, x.h, x.r)
  }

  /** The position after `n` reads of four bytes whose results are
      dropped; at the end of the data a read returns what is left, without
      raising. */
  function Skip(data: seq<Byte>, pos: nat, n: nat): (p: nat)
    requires pos <= |data|
    ensures pos <= p <= |data|
  {
    if pos + 4 * n <= |data| then pos + 4 * n else |data|
  }

  /** The words of one frame: `n` words from `pos`, or fewer when the data
      runs out (the read that comes up short raises). */
  function ReadWords(data: seq<Byte>, pos: nat, n: nat, swap: bool): (ws: seq<nat>)
    ensures |ws| <= n
    ensures |ws| == n <==> n == 0 || pos + 4 * n <= |data|
    decreases n
  {
    if n == 0 then []
    else
      var ws := ReadWords(data, pos, n - 1, swap);
      if pos + 4 * n <= |data| then ws + [WordAt(data, pos + 4 * (n - 1), swap).value] else ws
  }

  /** Word `m` of a frame read whole is the `m`-th word from its start. */
  lemma {:induction false} ReadWordsAt(data: seq<Byte>, pos: nat, n: nat, swap: bool, m: nat)
    requires m < n && pos + 4 * n <= |data|
    ensures ReadWords(data, pos, n, swap)[m] == WordAt(data, pos + 4 * m, swap).value
    decreases n
  {
    if m < n - 1 {
      ReadWordsAt(data, pos, n - 1, swap, m);
    }
  }

  /** Once a read comes up short, no further word is read. */
  lemma {:induction false} ReadWordsShort(data: seq<Byte>, pos: nat, k: nat, n: nat, swap: bool)
    requires k <= n && pos + 4 * (k + 1) > |data|
    ensures ReadWords(data, pos, n, swap) == ReadWords(data, pos, k, swap)
    decreases n
  {
    if n > k {
      ReadWordsShort(data, pos, k, n - 1, swap);
    }
  }

  /** Words read one at a time from `pos`, stopping after `n` or at the
      first short read, are `ReadWords`. */
  lemma WordsRead(data: seq<Byte>, pos: nat, k: nat, n: nat, swap: bool, ws: seq<nat>)
    requires k <= n && |ws| == k && pos + 4 * k <= |data|
    requires k == n || pos + 4 * (k + 1) > |data|
    requires forall m :: 0 <= m < k ==> ws[m] == WordAt(data, pos + 4 * m, swap).value
    ensures ws == ReadWords(data, pos, n, swap)
  {
    if k < n {
      ReadWordsShort(data, pos, k, n, swap);
    }
    var rs := ReadWords(data, pos, k, swap);
    forall m | 0 <= m < k
      ensures ws[m] == rs[m]
    {
      ReadWordsAt(data, pos, k, swap, m);
    }
  }

  // ---------------------------------------------------------------------
  // The frame loop

  /** What the loop stores: whole frames, each followed by a step, then
      the words of a frame cut short, and whether the loop ran to its end
      (`false`: a read came up short and raised). */
  datatype Run = Run(frames: seq<seq<nat>>, partial: seq<nat>, ok: bool)

  /** `left` more turns of the `while frameCount < numFrames` loop, from
      input position `pos`, tracked boundary `prev` and cursor `x`. */
  function Frames(data: seq<Byte>, sh: Shape, hasHalf: bool, wpf: nat, opt: Options,
                  left: nat, pos: nat, prev: Boundary, x: Coord): (run: Run)
    requires pos <= |data| && WellFormed(sh, hasHalf) && Valid(sh, x)
    decreases left
  {
    if left == 0 then Run([], [], true)
    else
      var cross := opt.dummyFrames && BoundaryOf(x) != prev;
      var p := if cross then Skip(data, pos, 2 * wpf) else pos;
      var ws := ReadWords(data, p, wpf, opt.swapEndian);
      if |ws| < wpf then Run([], ws, false)
      else
        NextValid(sh, hasHalf, x);
        var rest := Frames(data, sh, hasHalf, wpf, opt, left - 1, p + 4 * wpf,
                           if cross then BoundaryOf(x) else prev, Next(sh, hasHalf, x));
        Run([ws] + rest.frames, rest.partial, rest.ok)
  }

  /** Where the words of the first frame start: after the pad frame when
      there is one. */
  function FirstFrame(data: seq<Byte>, pos: nat, wpf: nat, opt: Options): nat
    requires pos <= |data|
  {
    if opt.padFrame then Skip(data, pos, wpf) else pos
  }

  /** `extract_frame_data` from input position `pos`: `count` frames,
      from address 0, with the trackers at 0. */
  function ExtractFrames(data: seq<Byte>, sh: Shape, hasHalf: bool, wpf: nat, opt: Options,
                   count: nat, pos: nat): Run
    requires pos <= |data| && WellFormed(sh, hasHalf)
  {
    OriginValid(sh, hasHalf);
    Frames(data, sh, hasHalf, wpf, opt, count, FirstFrame(data, pos, wpf, opt), Boundary(0, 0, 0), Origin)
  }

  /** What `extract_frame_data` does to a structure holding `s`: the
      count is `get_num_frads()` with the block RAM frames and
      `numLogicFrames` without, the frame size that of the series. */
  function Extracted(s: Store, cfg: SeriesConfig, data: seq<Byte>, pos: nat, opt: Options): Run
    requires pos <= |data| && WellFormed(ShapeOf(s), cfg.hasHalf)
  {
    ExtractFrames(data, ShapeOf(s), cfg.hasHalf, cfg.wordsPerFrame, opt,
                  if opt.includeBram then Total(ShapeOf(s)) else TypeFrames(s, 0), pos)
  }

  // ---------------------------------------------------------------------
  // The layout of the input, frame by frame

  /** Two dummy frames come before the `i`-th frame from `x` when its type,
      half or row differs from that of the frame before it (from `prev`
      for the first). */
  predicate Crossing(sh: Shape, hasHalf: bool, opt: Options, prev: Boundary, x: Coord, i: nat)
    requires WellFormed(sh, hasHalf) && Valid(sh, x)
  {
    opt.dummyFrames &&
    BoundaryOf(NextN(sh, hasHalf, x, i)) != (if i == 0 then prev else BoundaryOf(NextN(sh, hasHalf, x, i - 1)))
  }

  /** Where the words of the `i`-th frame from `x` start, when nothing is
      cut short: each frame takes `4 * wpf` bytes, and a dummy run
      `8 * wpf` more. */
  function Start(sh: Shape, hasHalf: bool, wpf: nat, opt: Options, prev: Boundary, x: Coord,
                 pos: nat, i: nat): nat
    requires WellFormed(sh, hasHalf) && Valid(sh, x)
    decreases i
  {
    Begin(sh, hasHalf, wpf, opt, prev, x, pos, i) +
      (if Crossing(sh, hasHalf, opt, prev, x, i) then 8 * wpf else 0)
  }

  /** Where the input stands before the dummy run of the `i`-th frame. */
  function Begin(sh: Shape, hasHalf: bool, wpf: nat, opt: Options, prev: Boundary, x: Coord,
                 pos: nat, i: nat): nat
    requires WellFormed(sh, hasHalf) && Valid(sh, x)
    decreases i, 0
  {
    if i == 0 then pos else Start(sh, hasHalf, wpf, opt, prev, x, pos, i - 1) + 4 * wpf
  }

  /** The boundary tracked after the first frame from `x`. */
  function Tracked(sh: Shape, hasHalf: bool, opt: Options, prev: Boundary, x: Coord): Boundary
    requires WellFormed(sh, hasHalf) && Valid(sh, x)
  {
    if Crossing(sh, hasHalf, opt, prev, x, 0) then BoundaryOf(x) else prev
  }

  /** Seen from the second frame, the crossings are those of the frames
      after the first. */
  lemma CrossingShift(sh: Shape, hasHalf: bool, opt: Options, prev: Boundary, x: Coord, i: nat)
    requires WellFormed(sh, hasHalf) && Valid(sh, x)
    ensures Crossing(sh, hasHalf, opt, Tracked(sh, hasHalf, opt, prev, x), NextN(sh, hasHalf, x, 1), i) ==
      Crossing(sh, hasHalf, opt, prev, x, i + 1)
  {
    NextValid(sh, hasHalf, x);
    var y := Next(sh, hasHalf, x);
    assert NextN(sh, hasHalf, x, 1) == y;
    assert NextN(sh, hasHalf, x, i + 1) == NextN(sh, hasHalf, y, i);
    if i == 0 {
      assert NextN(sh, hasHalf, x, 0) == x;
    } else {
      assert NextN(sh, hasHalf, x, i) == NextN(sh, hasHalf, y, i - 1);
    }
  }

  /** Seen from the second frame, the starts are those of the frames after
      the first. */
  lemma {:induction false} StartShift(sh: Shape, hasHalf: bool, wpf: nat, opt: Options, prev: Boundary,
                                      x: Coord, pos: nat, i: nat)
    requires WellFormed(sh, hasHalf) && Valid(sh, x)
    ensures var y, prev' := NextN(sh, hasHalf, x, 1), Tracked(sh, hasHalf, opt, prev, x);
      var pos' := Begin(sh, hasHalf, wpf, opt, prev, x, pos, 1);
      Start(sh, hasHalf, wpf, opt, prev', y, pos', i) == Start(sh, hasHalf, wpf, opt, prev, x, pos, i + 1) &&
      Begin(sh, hasHalf, wpf, opt, prev', y, pos', i) == Begin(sh, hasHalf, wpf, opt, prev, x, pos, i + 1)
    decreases i
  {
    CrossingShift(sh, hasHalf, opt, prev, x, i);
    if i > 0 {
      StartShift(sh, hasHalf, wpf, opt, prev, x, pos, i - 1);
    }
  }

  /** The input only moves forward. */
  lemma {:induction false} BeginGrows(sh: Shape, hasHalf: bool, wpf: nat, opt: Options, prev: Boundary,
                                      x: Coord, pos: nat, i: nat, j: nat)
    requires WellFormed(sh, hasHalf) && Valid(sh, x) && i <= j
    ensures Begin(sh, hasHalf, wpf, opt, prev, x, pos, i) <= Begin(sh, hasHalf, wpf, opt, prev, x, pos, j)
    decreases j
  {
    if i < j {
      BeginGrows(sh, hasHalf, wpf, opt, prev, x, pos, i, j - 1);
    }
  }

  /** Frame `i` of the loop is the `wpf` words at `Start(i)`; the loop runs
      to its end exactly when the input holds all its frames, dummy runs
      included; otherwise it stops at the first frame the input cannot
      hold, having stored fewer than `wpf` of its words. */
  lemma {:induction false} FramesLayout(data: seq<Byte>, sh: Shape, hasHalf: bool, wpf: nat, opt: Options,
                                        left: nat, pos: nat, prev: Boundary, x: Coord)
    requires pos <= |data| && WellFormed(sh, hasHalf) && Valid(sh, x) && wpf > 0
    ensures Laid(data, sh, hasHalf, wpf, opt, left, pos, prev, x,
                 Frames(data, sh, hasHalf, wpf, opt, left, pos, prev, x), 0)
    decreases left, 2
  {
    if left > 0 {
      var p := FirstRead(data, sh, hasHalf, wpf, opt, pos, prev, x);
      var ws := ReadWords(data, p, wpf, opt.swapEndian);
      var run := Frames(data, sh, hasHalf, wpf, opt, left, pos, prev, x);
      if |ws| < wpf {
        assert run == Run([], ws, false);
        ShortFirst(data, sh, hasHalf, wpf, opt, left, pos, prev, x, ws);
      } else {
        WholeLaid(data, sh, hasHalf, wpf, opt, left, pos, prev, x);
      }
    }
  }

  /** The step of the induction when the first read is whole: the first
      frame, then the layout of the rest. */
  lemma {:induction false} WholeLaid(data: seq<Byte>, sh: Shape, hasHalf: bool, wpf: nat, opt: Options,
                                     left: nat, pos: nat, prev: Boundary, x: Coord)
    requires pos <= |data| && WellFormed(sh, hasHalf) && Valid(sh, x) && left > 0 && wpf > 0
    requires |ReadWords(data, Start(sh, hasHalf, wpf, opt, prev, x, pos, 0), wpf, opt.swapEndian)| == wpf
    ensures Laid(data, sh, hasHalf, wpf, opt, left, pos, prev, x,
                 Frames(data, sh, hasHalf, wpf, opt, left, pos, prev, x), 0)
    decreases left, 1
  {
    var y, prev', p' := NextN(sh, hasHalf, x, 1), Tracked(sh, hasHalf, opt, prev, x),
      Begin(sh, hasHalf, wpf, opt, prev, x, pos, 1);
    var ws := ReadWords(data, Start(sh, hasHalf, wpf, opt, prev, x, pos, 0), wpf, opt.swapEndian);
    WholeFirst(data, sh, hasHalf, wpf, opt, left, pos, prev, x);
    var rest := Frames(data, sh, hasHalf, wpf, opt, left - 1, p', prev', y);
    FramesLayout(data, sh, hasHalf, wpf, opt, left - 1, p', prev', y);
    WholeJoin(data, sh, hasHalf, wpf, opt, left, pos, prev, x, ws, rest,
              Frames(data, sh, hasHalf, wpf, opt, left, pos, prev, x));
  }

  /** The first frame followed by the layout of the rest, seen from the
      second frame, is the layout of the whole loop. */
  lemma WholeJoin(data: seq<Byte>, sh: Shape, hasHalf: bool, wpf: nat, opt: Options,
                  left: nat, pos: nat, prev: Boundary, x: Coord, ws: seq<nat>, rest: Run, run: Run)
    requires WellFormed(sh, hasHalf) && Valid(sh, x) && left > 0
    requires ws == ReadWords(data, Start(sh, hasHalf, wpf, opt, prev, x, pos, 0), wpf, opt.swapEndian)
    requires Laid(data, sh, hasHalf, wpf, opt, left - 1, Begin(sh, hasHalf, wpf, opt, prev, x, pos, 1),
                  Tracked(sh, hasHalf, opt, prev, x), NextN(sh, hasHalf, x, 1), rest, 0)
    requires run == Run([ws] + rest.frames, rest.partial, rest.ok)
    ensures Laid(data, sh, hasHalf, wpf, opt, left, pos, prev, x, run, 0)
  {
    RestShifted(data, sh, hasHalf, wpf, opt, left, pos, prev, x, rest);
    FramesShift(data, sh, hasHalf, wpf, opt, left, pos, prev, x, ws, rest, run);
  }

  /** A loop whose first read is whole stores it, then runs on from the
      next frame. */
  lemma WholeFirst(data: seq<Byte>, sh: Shape, hasHalf: bool, wpf: nat, opt: Options,
                   left: nat, pos: nat, prev: Boundary, x: Coord)
    requires pos <= |data| && WellFormed(sh, hasHalf) && Valid(sh, x) && left > 0 && wpf > 0
    requires |ReadWords(data, Start(sh, hasHalf, wpf, opt, prev, x, pos, 0), wpf, opt.swapEndian)| == wpf
    ensures Begin(sh, hasHalf, wpf, opt, prev, x, pos, 1) <= |data|
    ensures Frames(data, sh, hasHalf, wpf, opt, left, pos, prev, x) ==
      var rest := Frames(data, sh, hasHalf, wpf, opt, left - 1, Begin(sh, hasHalf, wpf, opt, prev, x, pos, 1),
                         Tracked(sh, hasHalf, opt, prev, x), NextN(sh, hasHalf, x, 1));
      Run([ReadWords(data, Start(sh, hasHalf, wpf, opt, prev, x, pos, 0), wpf, opt.swapEndian)] + rest.frames,
          rest.partial, rest.ok)
  {
    var p := FirstRead(data, sh, hasHalf, wpf, opt, pos, prev, x);
    var s0 := Start(sh, hasHalf, wpf, opt, prev, x, pos, 0);
    assert p == s0 && p + 4 * wpf <= |data| by {
      if |ReadWords(data, p, wpf, opt.swapEndian)| < wpf {
        assert false;
      }
    }
    NextValid(sh, hasHalf, x);
    var y := Next(sh, hasHalf, x);
    var cross := opt.dummyFrames && BoundaryOf(x) != prev;
    assert NextN(sh, hasHalf, x, 1) == y &&
      Tracked(sh, hasHalf, opt, prev, x) == (if cross then BoundaryOf(x) else prev) &&
      Begin(sh, hasHalf, wpf, opt, prev, x, pos, 1) == p + 4 * wpf by {
      assert NextN(sh, hasHalf, x, 0) == x;
    }
    FramesUnfoldAt(data, sh, hasHalf, wpf, opt, left, pos, prev, x, p, Begin(sh, hasHalf, wpf, opt, prev, x, pos, 1),
                   Tracked(sh, hasHalf, opt, prev, x), NextN(sh, hasHalf, x, 1),
                   ReadWords(data, s0, wpf, opt.swapEndian));
  }

  /** `FramesUnfold` with the next position, boundary, cursor and words
      given as they are named elsewhere. */
  lemma FramesUnfoldAt(data: seq<Byte>, sh: Shape, hasHalf: bool, wpf: nat, opt: Options,
                       left: nat, pos: nat, prev: Boundary, x: Coord, p: nat,
                       q: nat, prev': Boundary, y: Coord, ws: seq<nat>)
    requires pos <= |data| && WellFormed(sh, hasHalf) && Valid(sh, x) && left > 0
    requires p == (if opt.dummyFrames && BoundaryOf(x) != prev then Skip(data, pos, 2 * wpf) else pos)
    requires p + 4 * wpf <= |data| && q == p + 4 * wpf
    requires prev' == (if opt.dummyFrames && BoundaryOf(x) != prev then BoundaryOf(x) else prev)
    requires y == Next(sh, hasHalf, x) && ws == ReadWords(data, p, wpf, opt.swapEndian)
    ensures Valid(sh, y)
    ensures var rest := Frames(data, sh, hasHalf, wpf, opt, left - 1, q, prev', y);
      Frames(data, sh, hasHalf, wpf, opt, left, pos, prev, x) == Run([ws] + rest.frames, rest.partial, rest.ok)
  {
    FramesUnfold(data, sh, hasHalf, wpf, opt, left, pos, prev, x, p, prev', y);
  }

  /** One turn of the loop that reads a whole frame. */
  lemma FramesUnfold(data: seq<Byte>, sh: Shape, hasHalf: bool, wpf: nat, opt: Options,
                     left: nat, pos: nat, prev: Boundary, x: Coord, p: nat, prev': Boundary, y: Coord)
    requires pos <= |data| && WellFormed(sh, hasHalf) && Valid(sh, x) && left > 0
    requires p == (if opt.dummyFrames && BoundaryOf(x) != prev then Skip(data, pos, 2 * wpf) else pos)
    requires p + 4 * wpf <= |data|
    requires prev' == (if opt.dummyFrames && BoundaryOf(x) != prev then BoundaryOf(x) else prev)
    requires y == Next(sh, hasHalf, x)
    ensures Valid(sh, y)
    ensures var rest := Frames(data, sh, hasHalf, wpf, opt, left - 1, p + 4 * wpf, prev', y);
      Frames(data, sh, hasHalf, wpf, opt, left, pos, prev, x) ==
      Run([ReadWords(data, p, wpf, opt.swapEndian)] + rest.frames, rest.partial, rest.ok)
  {
    NextValid(sh, hasHalf, x);
  }

  /** One turn of the loop whose read comes up short ends it. */
  lemma FramesShort(data: seq<Byte>, sh: Shape, hasHalf: bool, wpf: nat, opt: Options,
                    left: nat, pos: nat, prev: Boundary, x: Coord, p: nat)
    requires pos <= |data| && WellFormed(sh, hasHalf) && Valid(sh, x) && left > 0
    requires p == (if opt.dummyFrames && BoundaryOf(x) != prev then Skip(data, pos, 2 * wpf) else pos)
    requires |ReadWords(data, p, wpf, opt.swapEndian)| < wpf
    ensures Frames(data, sh, hasHalf, wpf, opt, left, pos, prev, x) == Run([], ReadWords(data, p, wpf, opt.swapEndian), false)
  {
  }

  /** A loop whose first read comes up short stores only that read. */
  lemma ShortFirst(data: seq<Byte>, sh: Shape, hasHalf: bool, wpf: nat, opt: Options,
                   left: nat, pos: nat, prev: Boundary, x: Coord, ws: seq<nat>)
    requires pos <= |data| && WellFormed(sh, hasHalf) && Valid(sh, x) && left > 0
    requires |ws| < wpf && Begin(sh, hasHalf, wpf, opt, prev, x, pos, 1) > |data|
    ensures Laid(data, sh, hasHalf, wpf, opt, left, pos, prev, x, Run([], ws, false), 0)
  {
    BeginGrows(sh, hasHalf, wpf, opt, prev, x, pos, 1, left);
  }

  /** The layout of a run, frames counted from `skip`: frame `i` is the
      `wpf` words at `Start(i + skip)`; the run is whole exactly when the
      input holds all its frames, dummy runs included; otherwise it stops
      at the first frame the input cannot hold, having stored fewer than
      `wpf` of its words. */
  predicate Laid(data: seq<Byte>, sh: Shape, hasHalf: bool, wpf: nat, opt: Options,
                 left: nat, pos: nat, prev: Boundary, x: Coord, run: Run, skip: nat)
    requires WellFormed(sh, hasHalf) && Valid(sh, x)
  {
    |run.frames| <= left &&
    (forall i :: 0 <= i < |run.frames| ==>
       run.frames[i] == ReadWords(data, Start(sh, hasHalf, wpf, opt, prev, x, pos, i + skip), wpf, opt.swapEndian)) &&
    (run.ok <==> Begin(sh, hasHalf, wpf, opt, prev, x, pos, left + skip) <= |data|) &&
    (run.ok ==> |run.frames| == left && run.partial == []) &&
    (!run.ok ==>
       |run.partial| < wpf &&
       Begin(sh, hasHalf, wpf, opt, prev, x, pos, |run.frames| + skip) <= |data| <
       Begin(sh, hasHalf, wpf, opt, prev, x, pos, |run.frames| + skip + 1))
  }

  /** The first turn of the loop: where its words are read, and when the
      read comes up short. */
  lemma FirstRead(data: seq<Byte>, sh: Shape, hasHalf: bool, wpf: nat, opt: Options,
                  pos: nat, prev: Boundary, x: Coord) returns (p: nat)
    requires pos <= |data| && WellFormed(sh, hasHalf) && Valid(sh, x) && wpf > 0
    ensures p == (if opt.dummyFrames && BoundaryOf(x) != prev then Skip(data, pos, 2 * wpf) else pos)
    ensures |ReadWords(data, p, wpf, opt.swapEndian)| == wpf ==>
      p == Start(sh, hasHalf, wpf, opt, prev, x, pos, 0) && p + 4 * wpf <= |data|
    ensures |ReadWords(data, p, wpf, opt.swapEndian)| < wpf ==>
      Begin(sh, hasHalf, wpf, opt, prev, x, pos, 1) > |data|
  {
    assert NextN(sh, hasHalf, x, 0) == x;
    p := if opt.dummyFrames && BoundaryOf(x) != prev then Skip(data, pos, 2 * wpf) else pos;
  }

  /** The layout of the rest of the loop, seen from the second frame, is
      that of the whole loop from the second frame on. */
  lemma RestShifted(data: seq<Byte>, sh: Shape, hasHalf: bool, wpf: nat, opt: Options,
                    left: nat, pos: nat, prev: Boundary, x: Coord, rest: Run)
    requires WellFormed(sh, hasHalf) && Valid(sh, x) && left > 0
    requires Laid(data, sh, hasHalf, wpf, opt, left - 1, Begin(sh, hasHalf, wpf, opt, prev, x, pos, 1),
                  Tracked(sh, hasHalf, opt, prev, x), NextN(sh, hasHalf, x, 1), rest, 0)
    ensures Laid(data, sh, hasHalf, wpf, opt, left - 1, pos, prev, x, rest, 1)
  {
    RestFrames(data, sh, hasHalf, wpf, opt, pos, prev, x, rest.frames);
    RestEnds(data, sh, hasHalf, wpf, opt, left, pos, prev, x, rest);
  }

  /** Where the rest of the loop stops, seen from the second frame, is
      where the whole loop stops. */
  lemma RestEnds(data: seq<Byte>, sh: Shape, hasHalf: bool, wpf: nat, opt: Options,
                 left: nat, pos: nat, prev: Boundary, x: Coord, rest: Run)
    requires WellFormed(sh, hasHalf) && Valid(sh, x) && left > 0
    requires var y, prev', p' := NextN(sh, hasHalf, x, 1), Tracked(sh, hasHalf, opt, prev, x),
        Begin(sh, hasHalf, wpf, opt, prev, x, pos, 1);
      (rest.ok <==> Begin(sh, hasHalf, wpf, opt, prev', y, p', left - 1) <= |data|) &&
      (!rest.ok ==>
         Begin(sh, hasHalf, wpf, opt, prev', y, p', |rest.frames|) <= |data| <
         Begin(sh, hasHalf, wpf, opt, prev', y, p', |rest.frames| + 1))
    ensures rest.ok <==> Begin(sh, hasHalf, wpf, opt, prev, x, pos, left) <= |data|
    ensures !rest.ok ==>
      Begin(sh, hasHalf, wpf, opt, prev, x, pos, |rest.frames| + 1) <= |data| <
      Begin(sh, hasHalf, wpf, opt, prev, x, pos, |rest.frames| + 2)
  {
    var y, prev', p' := NextN(sh, hasHalf, x, 1), Tracked(sh, hasHalf, opt, prev, x),
      Begin(sh, hasHalf, wpf, opt, prev, x, pos, 1);
    var n := |rest.frames|;
    assert Begin(sh, hasHalf, wpf, opt, prev', y, p', left - 1) == Begin(sh, hasHalf, wpf, opt, prev, x, pos, left) by {
      StartShift(sh, hasHalf, wpf, opt, prev, x, pos, left - 1);
    }
    assert Begin(sh, hasHalf, wpf, opt, prev', y, p', n) == Begin(sh, hasHalf, wpf, opt, prev, x, pos, n + 1) by {
      StartShift(sh, hasHalf, wpf, opt, prev, x, pos, n);
    }
    assert Begin(sh, hasHalf, wpf, opt, prev', y, p', n + 1) == Begin(sh, hasHalf, wpf, opt, prev, x, pos, n + 2) by {
      StartShift(sh, hasHalf, wpf, opt, prev, x, pos, n + 1);
    }
  }

  /** The frames of the rest of the loop, seen from the second frame, are
      those of the whole loop from the second frame on. */
  lemma RestFrames(data: seq<Byte>, sh: Shape, hasHalf: bool, wpf: nat, opt: Options,
                   pos: nat, prev: Boundary, x: Coord, frames: seq<seq<nat>>)
    requires WellFormed(sh, hasHalf) && Valid(sh, x)
    requires var y, prev', p' := NextN(sh, hasHalf, x, 1), Tracked(sh, hasHalf, opt, prev, x),
        Begin(sh, hasHalf, wpf, opt, prev, x, pos, 1);
      forall i :: 0 <= i < |frames| ==>
        frames[i] == ReadWords(data, Start(sh, hasHalf, wpf, opt, prev', y, p', i), wpf, opt.swapEndian)
    ensures forall i :: 0 <= i < |frames| ==>
      frames[i] == ReadWords(data, Start(sh, hasHalf, wpf, opt, prev, x, pos, i + 1), wpf, opt.swapEndian)
  {
    forall i | 0 <= i < |frames|
      ensures frames[i] == ReadWords(data, Start(sh, hasHalf, wpf, opt, prev, x, pos, i + 1), wpf, opt.swapEndian)
    {
      StartShift(sh, hasHalf, wpf, opt, prev, x, pos, i);
    }
  }

  /** A turn that reads a whole frame puts it in front of the frames of
      the rest of the loop. */
  lemma FramesShift(data: seq<Byte>, sh: Shape, hasHalf: bool, wpf: nat, opt: Options,
                    left: nat, pos: nat, prev: Boundary, x: Coord, ws: seq<nat>, rest: Run, run: Run)
    requires WellFormed(sh, hasHalf) && Valid(sh, x) && left > 0
    requires ws == ReadWords(data, Start(sh, hasHalf, wpf, opt, prev, x, pos, 0), wpf, opt.swapEndian)
    requires Laid(data, sh, hasHalf, wpf, opt, left - 1, pos, prev, x, rest, 1)
    requires run == Run([ws] + rest.frames, rest.partial, rest.ok)
    ensures Laid(data, sh, hasHalf, wpf, opt, left, pos, prev, x, run, 0)
  {
    forall i | 0 <= i < |run.frames|
      ensures run.frames[i] == ReadWords(data, Start(sh, hasHalf, wpf, opt, prev, x, pos, i), wpf, opt.swapEndian)
    {
      if i > 0 {
        assert run.frames[i] == rest.frames[i - 1];
      }
    }
  }

  /** Without dummy frames, frame `i` starts `4 * wpf * i` bytes after the
      first: word `m` of frame `i` is word `wpf * i + m` of the input. */
  lemma {:induction false} StartWithoutDummies(sh: Shape, hasHalf: bool, wpf: nat, opt: Options,
                                               prev: Boundary, x: Coord, pos: nat, i: nat)
    requires WellFormed(sh, hasHalf) && Valid(sh, x) && !opt.dummyFrames
    ensures Start(sh, hasHalf, wpf, opt, prev, x, pos, i) == pos + 4 * FrameWords(wpf, i)
    decreases i
  {
    if i > 0 {
      StartWithoutDummies(sh, hasHalf, wpf, opt, prev, x, pos, i - 1);
    }
  }

  /** The words of `k` frames of `wpf` words, counted frame by frame. */
  function FrameWords(wpf: nat, k: nat): nat
  {
    if k == 0 then 0 else FrameWords(wpf, k - 1) + wpf
  }

  lemma {:induction false} FrameWordsProduct(wpf: nat, k: nat)
    ensures FrameWords(wpf, k) == wpf * k
  {
    if k > 0 {
      FrameWordsProduct(wpf, k - 1);
    }
  }

  /** A later frame starts after the end of an earlier one. */
  lemma {:induction false} FrameWordsGrow(wpf: nat, k: nat, t: nat)
    requires k < t
    ensures FrameWords(wpf, k) + wpf <= FrameWords(wpf, t)
    decreases t
  {
    if k + 1 < t {
      FrameWordsGrow(wpf, k, t - 1);
    }
  }

  // ---------------------------------------------------------------------
  // What the structure holds afterwards

  /** After an extraction that ran to its end, with no more frames than the
      structure holds, the frame at rank `k` in step order has received
      the `wpf` words at `Start(k)` for `k` below the count, and nothing
      otherwise. */
  lemma ExtractPlaced(data: seq<Byte>, f: Fill, hasHalf: bool, wpf: nat, opt: Options,
                      count: nat, pos: nat, y: Coord)
    requires Ready(f, hasHalf) && f.at == Origin && pos <= |data| && wpf > 0
    requires count <= Total(ShapeOf(f.store)) && Valid(ShapeOf(f.store), y)
    requires Valid(ShapeOf(f.store), Origin)  // follows from `Ready`
    ensures var sh := ShapeOf(f.store);
      var run := ExtractFrames(data, sh, hasHalf, wpf, opt, count, pos);
      var p0 := FirstFrame(data, pos, wpf, opt);
      run.ok ==>
        FrameAt(Written(f, hasHalf, run.frames, run.partial).store, y) == FrameAt(f.store, y) +
          (if Rank(sh, y) < count
           then ReadWords(data, Start(sh, hasHalf, wpf, opt, Boundary(0, 0, 0), Origin, p0, Rank(sh, y)), wpf, opt.swapEndian)
           else [])
  {
    var sh := ShapeOf(f.store);
    OriginValid(sh, hasHalf);
    var p0 := FirstFrame(data, pos, wpf, opt);
    var run := ExtractFrames(data, sh, hasHalf, wpf, opt, count, pos);
    FramesLayout(data, sh, hasHalf, wpf, opt, count, p0, Boundary(0, 0, 0), Origin);
    if run.ok {
      PlacedAt(f, hasHalf, run.frames, y);
      assert Written(f, hasHalf, run.frames, run.partial) == WriteFrames(f, hasHalf, run.frames);
    }
  }

  /** The logic frames are among all frames. */
  lemma LogicFramesWithin(s: Store)
    ensures TypeFrames(s, 0) <= Total(ShapeOf(s))
  {
    if |s| > 0 && TypeFrames(s, 0) > 0 {
      var sh := ShapeOf(s);
      ShapeLengths(s);
      assert sh[0] == BlockShape(s[0]);
      assert sh[..0] == [];
      SumWithin(sh, BlockTotal, 0, BlockTotal(sh[0]) - 1);
    }
  }
}
