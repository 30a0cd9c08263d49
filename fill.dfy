/** A store being filled with words, and the cursor the words go to: what
    every parser does to a frame-address structure, through `append_word`
    and `step_forward`, stated on values. */
module Filling {
  import opened Codec
  import opened Cursor
  import opened Nested

  datatype Fill = Fill(store: Store, at: Coord)

  /** Words can go to the cursor, and stepping keeps it on a frame. */
  predicate Ready(f: Fill, hasHalf: bool)
  {
    WellFormed(ShapeOf(f.store), hasHalf) && Valid(ShapeOf(f.store), f.at)
  }

  /** `append_word`: the word goes at the end of the current frame. */
  function Put(f: Fill, w: nat): (g: Fill)
    requires Valid(ShapeOf(f.store), f.at)
    ensures ShapeOf(g.store) == ShapeOf(f.store) && g.at == f.at
  {
    Fill(SetFrame(f.store, f.at, FrameAt(f.store, f.at) + [w]), f.at)
  }

  /** The word goes at the end of the current frame, and nowhere else. */
  lemma PutFrame(f: Fill, w: nat, y: Coord)
    requires Valid(ShapeOf(f.store), f.at) && Valid(ShapeOf(f.store), y)
    ensures FrameAt(Put(f, w).store, y) == if y == f.at then FrameAt(f.store, y) + [w] else FrameAt(f.store, y)
  {
  }

  /** Several `append_word` calls in a row. */
  function PutAll(f: Fill, ws: seq<nat>): (g: Fill)
    requires Valid(ShapeOf(f.store), f.at)
    ensures ShapeOf(g.store) == ShapeOf(f.store) && g.at == f.at
    decreases |ws|
  {
    if ws == [] then f
    else Put(PutAll(f, ws[..|ws| - 1]), ws[|ws| - 1])
  }

  /** The words go, in order, at the end of the current frame, and nowhere
      else. */
  lemma {:induction false} PutAllFrame(f: Fill, ws: seq<nat>, y: Coord)
    requires Valid(ShapeOf(f.store), f.at) && Valid(ShapeOf(f.store), y)
    ensures FrameAt(PutAll(f, ws).store, y) == if y == f.at then FrameAt(f.store, y) + ws else FrameAt(f.store, y)
    decreases |ws|
  {
    if ws != [] {
      var n := |ws| - 1;
      PutAllFrame(f, ws[..n], y);
      var g := PutAll(f, ws[..n]);
      assert PutAll(f, ws) == Put(g, ws[n]);
      PutFrame(g, ws[n], y);
      if y == f.at {
        AppendLast(FrameAt(f.store, y), ws);
      }
    }
  }

  lemma AppendLast(a: seq<nat>, ws: seq<nat>)
    requires |ws| > 0
    ensures a + ws[..|ws| - 1] + [ws[|ws| - 1]] == a + ws
  {
    assert ws[..|ws| - 1] + [ws[|ws| - 1]] == ws;
  }

  /** `step_forward`, which leaves the store alone. */
  function Advance(f: Fill, hasHalf: bool): (g: Fill)
    requires Ready(f, hasHalf)
    ensures Ready(g, hasHalf) && g.store == f.store
  {
    NextValid(ShapeOf(f.store), hasHalf, f.at);
    Fill(f.store, Next(ShapeOf(f.store), hasHalf, f.at))
  }

  /** Frame after frame: the words of each frame, then a step. */
  function WriteFrames(f: Fill, hasHalf: bool, frames: seq<seq<nat>>): (g: Fill)
    requires Ready(f, hasHalf)
    ensures Ready(g, hasHalf) && ShapeOf(g.store) == ShapeOf(f.store)
    decreases |frames|
  {
    if frames == [] then f
    else
      var g := WriteFrames(f, hasHalf, frames[..|frames| - 1]);
      Advance(PutAll(g, frames[|frames| - 1]), hasHalf)
  }

  /** Whole frames, each followed by a step, then the words of a frame not
      finished. */
  function Written(f: Fill, hasHalf: bool, frames: seq<seq<nat>>, partial: seq<nat>): (g: Fill)
    requires Ready(f, hasHalf)
    ensures Ready(g, hasHalf) && ShapeOf(g.store) == ShapeOf(f.store)
  {
    PutAll(WriteFrames(f, hasHalf, frames), partial)
  }

  /** One more word of the unfinished frame. */
  lemma WrittenPut(f: Fill, hasHalf: bool, frames: seq<seq<nat>>, partial: seq<nat>, w: nat)
    requires Ready(f, hasHalf)
    ensures Written(f, hasHalf, frames, partial + [w]) == Put(Written(f, hasHalf, frames, partial), w)
  {
    assert (partial + [w])[..|partial|] == partial;
  }

  /** A step closes the unfinished frame. */
  lemma WrittenStep(f: Fill, hasHalf: bool, frames: seq<seq<nat>>, partial: seq<nat>)
    requires Ready(f, hasHalf)
    ensures Written(f, hasHalf, frames + [partial], []) == Advance(Written(f, hasHalf, frames, partial), hasHalf)
  {
    assert (frames + [partial])[..|frames|] == frames;
  }

  /** One more frame: its words, then a step. */
  lemma WriteFramesStep(f: Fill, hasHalf: bool, frames: seq<seq<nat>>, ws: seq<nat>)
    requires Ready(f, hasHalf)
    ensures WriteFrames(f, hasHalf, frames + [ws]) == Advance(PutAll(WriteFrames(f, hasHalf, frames), ws), hasHalf)
  {
    assert (frames + [ws])[..|frames|] == frames;
  }

  /** Each frame written is one step of the cursor. */
  lemma {:induction false} WriteFramesSteps(f: Fill, hasHalf: bool, frames: seq<seq<nat>>)
    requires Ready(f, hasHalf)
    ensures WriteFrames(f, hasHalf, frames).at == NextN(ShapeOf(f.store), hasHalf, f.at, |frames|)
    decreases |frames|
  {
    if |frames| > 0 {
      var sh, n := ShapeOf(f.store), |frames| - 1;
      WriteFramesSteps(f, hasHalf, frames[..n]);
      var g := WriteFrames(f, hasHalf, frames[..n]);
      var p := PutAll(g, frames[n]);
      var x := NextN(sh, hasHalf, f.at, n);
      assert p.at == x && ShapeOf(p.store) == sh;
      assert WriteFrames(f, hasHalf, frames) == Advance(p, hasHalf);
      NextNAdd(sh, hasHalf, f.at, n, 1);
      NextOne(sh, hasHalf, x);
    }
  }

  /** Written from the first frame, frame `k` lands at the `k`-th frame in
      step order; as long as there are no more frames than the structure
      holds, each frame of the store receives at most one of them. */
  lemma WriteFramesPlaced(f: Fill, hasHalf: bool, frames: seq<seq<nat>>)
    requires Ready(f, hasHalf) && f.at == Origin && |frames| <= Total(ShapeOf(f.store))
    ensures var g := WriteFrames(f, hasHalf, frames); var sh := ShapeOf(f.store);
      forall y :: Valid(sh, y) ==>
        FrameAt(g.store, y) == FrameAt(f.store, y) + (if Rank(sh, y) < |frames| then frames[Rank(sh, y)] else [])
  {
    forall y | Valid(ShapeOf(f.store), y)
      ensures FrameAt(WriteFrames(f, hasHalf, frames).store, y) == FrameAt(f.store, y) +
        (if Rank(ShapeOf(f.store), y) < |frames| then frames[Rank(ShapeOf(f.store), y)] else [])
    {
      PlacedAt(f, hasHalf, frames, y);
    }
  }

  lemma {:induction false} PlacedAt(f: Fill, hasHalf: bool, frames: seq<seq<nat>>, y: Coord)
    requires Ready(f, hasHalf) && f.at == Origin && |frames| <= Total(ShapeOf(f.store))
    requires Valid(ShapeOf(f.store), y)
    ensures FrameAt(WriteFrames(f, hasHalf, frames).store, y) == FrameAt(f.store, y) +
      (if Rank(ShapeOf(f.store), y) < |frames| then frames[Rank(ShapeOf(f.store), y)] else [])
    decreases |frames|
  {
    if |frames| == 0 {
      assert WriteFrames(f, hasHalf, frames) == f;
      assert FrameAt(f.store, y) + [] == FrameAt(f.store, y);
    } else {
      var sh := ShapeOf(f.store);
      var n := |frames| - 1;
      var before := frames[..n];
      PlacedAt(f, hasHalf, before, y);
      var x := NextN(sh, hasHalf, Origin, n);
      assert Valid(sh, x) && WriteFrames(f, hasHalf, before).at == x && Rank(sh, x) == n by {
        OriginValid(sh, hasHalf);
        WriteFramesSteps(f, hasHalf, before);
        RankNextN(sh, hasHalf, Origin, n);
      }
      WriteFramesLast(f, hasHalf, frames);
      LastFrame(WriteFrames(f, hasHalf, before), frames[n], y, WriteFrames(f, hasHalf, frames).store);
      PlacedOne(sh, x, y, frames, FrameAt(f.store, y), FrameAt(WriteFrames(f, hasHalf, before).store, y),
        FrameAt(WriteFrames(f, hasHalf, frames).store, y));
    }
  }

  /** The last frame written goes where the cursor stood, and only there. */
  lemma LastFrame(g: Fill, ws: seq<nat>, y: Coord, w: Store)
    requires Valid(ShapeOf(g.store), g.at) && Valid(ShapeOf(g.store), y)
    requires w == PutAll(g, ws).store
    ensures Valid(ShapeOf(w), y)
    ensures FrameAt(w, y) == FrameAt(g.store, y) + (if y == g.at then ws else [])
  {
    PutAllFrame(g, ws, y);
  }

  lemma WriteFramesLast(f: Fill, hasHalf: bool, frames: seq<seq<nat>>)
    requires Ready(f, hasHalf) && |frames| > 0
    ensures WriteFrames(f, hasHalf, frames).store ==
      PutAll(WriteFrames(f, hasHalf, frames[..|frames| - 1]), frames[|frames| - 1]).store
  {
  }

  /** The step of `WriteFramesPlaced` for one frame `y` of the store: the
      frame written last lands at `x`, the `n`-th in step order. */
  lemma PlacedOne(sh: Shape, x: Coord, y: Coord, frames: seq<seq<nat>>, fy: seq<nat>, gy: seq<nat>, py: seq<nat>)
    requires Valid(sh, x) && Valid(sh, y) && |frames| > 0 && Rank(sh, x) == |frames| - 1
    requires gy == fy + (if Rank(sh, y) < |frames| - 1 then frames[..|frames| - 1][Rank(sh, y)] else [])
    requires py == gy + (if y == x then frames[|frames| - 1] else [])
    ensures py == fy + (if Rank(sh, y) < |frames| then frames[Rank(sh, y)] else [])
  {
    if Rank(sh, y) == |frames| - 1 {
      RankInjective(sh, x, y);
    }
  }
}
