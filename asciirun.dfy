/** The lines the text readers of `AsciiParser` scan, drop and store,
    as functions of the lines: what each reader stores, and the steps its
    loops take over it. */
module AsciiRuns {
  import opened Wrappers
  import opened Ascii
  import opened Streams
  import opened Series
  import opened Codec
  import opened Cursor
  import opened Nested
  import opened Loading
  import opened Filling
  import opened Extraction
  import opened Frads
  import opened BinParsing

  /** The sync word, compared with the value of a whole line. */
  const SyncValue := 0xAA99_5566
  /** The lines dropped after a step to a new type, half or row. */
  const DummyLines := 202

  /** How a scan of the lines ends: it found what it looked for, the lines
      ran out, or a line raised. */
  datatype Outcome = Done | RanOut | Raised

  /** Where a scan stopped: just after what it found, at the end of the
      lines, or at the line that raised. */
  datatype Mark = Mark(next: nat, outcome: Outcome)

  /** The words a scan converted, and where and how it stopped. */
  datatype Taken = Taken(words: seq<nat>, next: nat, outcome: Outcome)

  /** What a reader does with a line: passes over it, raises on it, or
      counts it (as a dropped line or as a word). */
  datatype Kind = Passed | Faulty | Counted

  /** The `.rbd` reader (`strict`) first evaluates
      `(len(line) > 0 and line[0] == "0") or (line[0] == "1")`, which
      raises on an empty line and is false on any other line not starting
      with '0' or '1'; those lines are passed over. The `.rba` and `.rbt`
      readers count every line they drop, blank ones included. */
  function Guard(line: string, strict: bool): Kind
  {
    if !strict then Counted
    else if |line| == 0 then Faulty
    else if IsWordLine(line) then Counted
    else Passed
  }

  /** When a word is due, the `.rba` and `.rbt` readers pass over an empty
      line and convert any other. */
  function WordKind(line: string, strict: bool): Kind
  {
    if strict then Guard(line, strict)
    else if |line| == 0 then Passed
    else Counted
  }

  // ---------------------------------------------------------------------
  // Scans over the lines

  /** The sync search: the first line starting with '0' or '1' whose value
      is the sync word; any such line before it must convert. */
  function SyncLine(lines: seq<string>, i: nat): (m: Mark)
    requires i <= |lines|
    ensures i <= m.next <= |lines|
    ensures m.outcome == Done ==>
      i < m.next && IsWordLine(lines[m.next - 1]) && AsciiValue(lines[m.next - 1]) == Some(SyncValue)
    ensures m.outcome == RanOut ==> m.next == |lines|
    ensures m.outcome == Raised ==> m.next < |lines| && IsWordLine(lines[m.next]) && AsciiValue(lines[m.next]).None?
    ensures forall q :: i <= q < (if m.outcome == Done then m.next - 1 else m.next) && IsWordLine(lines[q]) ==>
      AsciiValue(lines[q]).Some? && AsciiValue(lines[q]) != Some(SyncValue)
    decreases |lines| - i
  {
    if i == |lines| then Mark(i, RanOut)
    else if !IsWordLine(lines[i]) then SyncLine(lines, i + 1)
    else match AsciiValue(lines[i])
      case None => Mark(i, Raised)
      case Some(v) => if v == SyncValue then Mark(i + 1, Done) else SyncLine(lines, i + 1)
  }

  /** The Type-2 search: the first non-empty line whose value has every
      bit of `mask` set; any non-empty line before it must convert. */
  function HeaderLine(lines: seq<string>, i: nat, mask: nat): (m: Mark)
    requires i <= |lines|
    ensures i <= m.next <= |lines|
    ensures m.outcome == Done ==>
      i < m.next && AsciiValue(lines[m.next - 1]).Some? && Matches(AsciiValue(lines[m.next - 1]).value, mask)
    ensures m.outcome == RanOut ==> m.next == |lines|
    ensures m.outcome == Raised ==> m.next < |lines| && |lines[m.next]| > 0 && AsciiValue(lines[m.next]).None?
    ensures forall q :: i <= q < (if m.outcome == Done then m.next - 1 else m.next) && |lines[q]| > 0 ==>
      AsciiValue(lines[q]).Some? && !Matches(AsciiValue(lines[q]).value, mask)
    decreases |lines| - i
  {
    if i == |lines| then Mark(i, RanOut)
    else if |lines[i]| == 0 then HeaderLine(lines, i + 1, mask)
    else match AsciiValue(lines[i])
      case None => Mark(i, Raised)
      case Some(v) => if Matches(v, mask) then Mark(i + 1, Done) else HeaderLine(lines, i + 1, mask)
  }

  /** `n` lines dropped, counted as `Guard` says: a pad frame or a run of
      dummy lines. Without the guard exactly the next `n` lines go,
      whatever they hold. */
  function Drop(lines: seq<string>, i: nat, n: nat, strict: bool): (d: Mark)
    requires i <= |lines|
    ensures i <= d.next <= |lines|
    ensures d.outcome == RanOut ==> d.next == |lines|
    ensures d.outcome == Raised ==> d.next < |lines| && Guard(lines[d.next], strict) == Faulty
    ensures !strict ==>
      d.outcome != Raised && (d.outcome == Done <==> i + n <= |lines|) && (d.outcome == Done ==> d.next == i + n)
    decreases |lines| - i
  {
    if n == 0 then Mark(i, Done)
    else if i == |lines| then Mark(i, RanOut)
    else match Guard(lines[i], strict)
      case Passed => Drop(lines, i + 1, n, strict)
      case Faulty => Mark(i, Raised)
      case Counted => Drop(lines, i + 1, n - 1, strict)
  }

  /** The next `n` words, converted from the lines `WordKind` counts, up
      to the line that raises or the end of the lines. */
  function Take(lines: seq<string>, i: nat, n: nat, strict: bool): (t: Taken)
    requires i <= |lines|
    ensures i <= t.next <= |lines| && |t.words| <= n
    ensures t.outcome == Done <==> |t.words| == n
    ensures t.outcome == Done && n > 0 ==> i < t.next
    ensures t.outcome == RanOut ==> t.next == |lines|
    ensures t.outcome == Raised ==>
      t.next < |lines| && (WordKind(lines[t.next], strict) == Faulty || AsciiValue(lines[t.next]).None?)
    decreases |lines| - i
  {
    if n == 0 then Taken([], i, Done)
    else if i == |lines| then Taken([], i, RanOut)
    else match WordKind(lines[i], strict)
      case Passed => Take(lines, i + 1, n, strict)
      case Faulty => Taken([], i, Raised)
      case Counted =>
        match AsciiValue(lines[i])
        case None => Taken([], i, Raised)
        case Some(v) =>
          var t := Take(lines, i + 1, n - 1, strict);
          Taken([v] + t.words, t.next, t.outcome)
  }

  // ---------------------------------------------------------------------
  // The storage phase, frame by frame

  /** The storage phase of `.rbt`, `.rba` and `.rbd` from line `i`, with
      `left` frames to go before the loop breaks, the trackers at `prev`,
      the cursor at `x` and the words `cur` already in its frame: the frame
      is filled up; after the last frame the loop breaks without a step;
      otherwise the cursor steps, and when its type, half or row is not
      `prev` the next 202 lines are dropped first. The run's `partial` is
      the frame the cursor is left on. */
  function LineFrames(lines: seq<string>, i: nat, strict: bool, wpf: nat, sh: Shape, hasHalf: bool,
                      left: nat, prev: Boundary, x: Coord, cur: seq<nat>): (r: Run)
    requires i <= |lines| && WellFormed(sh, hasHalf) && Valid(sh, x) && left > 0 && |cur| < wpf
    ensures forall k :: 0 <= k < |r.frames| ==> |r.frames[k]| == wpf
    ensures |r.frames| < left && |r.partial| <= wpf
    decreases left, 1
  {
    var t := Take(lines, i, wpf - |cur|, strict);
    var ws := cur + t.words;
    if t.outcome != Done then Run([], ws, t.outcome == RanOut)
    else if left == 1 then Run([], ws, true)
    else
      NextValid(sh, hasHalf, x);
      var y := Next(sh, hasHalf, x);
      var rest :=
        if BoundaryOf(y) != prev then AfterDummies(lines, t.next, DummyLines, strict, wpf, sh, hasHalf, left - 1, prev, y)
        else LineFrames(lines, t.next, strict, wpf, sh, hasHalf, left - 1, prev, y, []);
      Run([ws] + rest.frames, rest.partial, rest.ok)
  }

  /** `n` more dummy lines to drop, then the trackers take the cursor's
      type, half and row and the frames go on. */
  function AfterDummies(lines: seq<string>, i: nat, n: nat, strict: bool, wpf: nat, sh: Shape, hasHalf: bool,
                        left: nat, prev: Boundary, x: Coord): (r: Run)
    requires i <= |lines| && WellFormed(sh, hasHalf) && Valid(sh, x) && left > 0 && wpf > 0
    ensures forall k :: 0 <= k < |r.frames| ==> |r.frames[k]| == wpf
    ensures |r.frames| < left && |r.partial| <= wpf
    decreases left, 2
  {
    var d := Drop(lines, i, n, strict);
    if d.outcome == Done then LineFrames(lines, d.next, strict, wpf, sh, hasHalf, left, BoundaryOf(x), x, [])
    else Run([], [], d.outcome == RanOut)
  }

  /** The storage phase from line `start`, from address 0 with the
      trackers at 0, for `numFrads` frames. */
  function Stored(lines: seq<string>, start: nat, strict: bool, sh: Shape, hasHalf: bool, wpf: nat): Run
    requires start <= |lines| && WellFormed(sh, hasHalf) && wpf > 0
  {
    OriginValid(sh, hasHalf);
    RankBound(sh, Origin);
    LineFrames(lines, start, strict, wpf, sh, hasHalf, Total(sh), Boundary(0, 0, 0), Origin, [])
  }

  /** `parse_rbt_file`: the sync line, the first Type-2 write header
      after it, then the storage phase from the next line; neither the
      sync line nor the header is stored. */
  function RbtRun(lines: seq<string>, sh: Shape, hasHalf: bool, wpf: nat): Run
    requires WellFormed(sh, hasHalf) && wpf > 0
  {
    var sync := SyncLine(lines, 0);
    if sync.outcome != Done then Run([], [], sync.outcome == RanOut)
    else
      var header := HeaderLine(lines, sync.next, Type2WriteMask);
      if header.outcome != Done then Run([], [], header.outcome == RanOut)
      else Stored(lines, header.next, false, sh, hasHalf, wpf)
  }

  /** `parse_rba_file`: the sync line, the first Type-2 read header after
      it, a pad frame of exactly `wpf` lines, then the storage phase. */
  function RbaRun(lines: seq<string>, sh: Shape, hasHalf: bool, wpf: nat): Run
    requires WellFormed(sh, hasHalf) && wpf > 0
  {
    var sync := SyncLine(lines, 0);
    if sync.outcome != Done then Run([], [], sync.outcome == RanOut)
    else
      var header := HeaderLine(lines, sync.next, Type2ReadMask);
      if header.outcome != Done then Run([], [], header.outcome == RanOut)
      else
        var pad := Drop(lines, header.next, wpf, false);
        if pad.outcome != Done then Run([], [], pad.outcome == RanOut)
        else Stored(lines, pad.next, false, sh, hasHalf, wpf)
  }

  /** `parse_rbd_file` and `parse_msd_file`: no sync or Type-2 search; a
      pad frame of `wpf` lines starting with '0' or '1', then the storage
      phase, every line under the guard. */
  function RbdRun(lines: seq<string>, sh: Shape, hasHalf: bool, wpf: nat): Run
    requires WellFormed(sh, hasHalf) && wpf > 0
  {
    var pad := Drop(lines, 0, wpf, true);
    if pad.outcome != Done then Run([], [], pad.outcome == RanOut)
    else Stored(lines, pad.next, true, sh, hasHalf, wpf)
  }

  // ---------------------------------------------------------------------
  // The storage loop, line by line

  /** Where the storage loop stands: `dummies` lines still to drop (then
      `cur` is empty), or the words `cur` of the frame being filled. */
  function Rest(lines: seq<string>, i: nat, strict: bool, wpf: nat, sh: Shape, hasHalf: bool,
                left: nat, prev: Boundary, x: Coord, dummies: nat, cur: seq<nat>): Run
    requires i <= |lines| && WellFormed(sh, hasHalf) && Valid(sh, x) && left > 0 && |cur| < wpf
  {
    if dummies > 0 then AfterDummies(lines, i, dummies, strict, wpf, sh, hasHalf, left, prev, x)
    else LineFrames(lines, i, strict, wpf, sh, hasHalf, left, prev, x, cur)
  }

  /** The invariant of the storage loop: the whole run is the frames
      stored so far followed by what the remaining lines store. */
  ghost predicate Storing(lines: seq<string>, i: nat, strict: bool, wpf: nat, sh: Shape, hasHalf: bool,
                          left: nat, prev: Boundary, x: Coord, dummies: nat, cur: seq<nat>,
                          total: Run, done: seq<seq<nat>>)
  {
    i <= |lines| && WellFormed(sh, hasHalf) && Valid(sh, x) && left > 0 && |cur| < wpf &&
    (dummies > 0 ==> cur == []) &&
    var rest := Rest(lines, i, strict, wpf, sh, hasHalf, left, prev, x, dummies, cur);
    total == Run(done + rest.frames, rest.partial, rest.ok)
  }

  /** With the lines used up, what is stored is what the loop holds. */
  lemma RestAtEnd(lines: seq<string>, strict: bool, wpf: nat, sh: Shape, hasHalf: bool,
                  left: nat, prev: Boundary, x: Coord, dummies: nat, cur: seq<nat>, total: Run, done: seq<seq<nat>>)
    requires Storing(lines, |lines|, strict, wpf, sh, hasHalf, left, prev, x, dummies, cur, total, done)
    ensures total == Run(done, cur, true)
  {
    assert done + [] == done;
    assert cur + [] == cur;
  }

  /** A line the reader passes over changes nothing. */
  lemma RestPassed(lines: seq<string>, i: nat, strict: bool, wpf: nat, sh: Shape, hasHalf: bool,
                   left: nat, prev: Boundary, x: Coord, dummies: nat, cur: seq<nat>, total: Run, done: seq<seq<nat>>)
    requires Storing(lines, i, strict, wpf, sh, hasHalf, left, prev, x, dummies, cur, total, done) && i < |lines|
    requires if dummies > 0 then Guard(lines[i], strict) == Passed else WordKind(lines[i], strict) == Passed
    ensures Storing(lines, i + 1, strict, wpf, sh, hasHalf, left, prev, x, dummies, cur, total, done)
  {
  }

  /** A line that raises ends the loop with what it holds. */
  lemma RestRaised(lines: seq<string>, i: nat, strict: bool, wpf: nat, sh: Shape, hasHalf: bool,
                   left: nat, prev: Boundary, x: Coord, dummies: nat, cur: seq<nat>, total: Run, done: seq<seq<nat>>)
    requires Storing(lines, i, strict, wpf, sh, hasHalf, left, prev, x, dummies, cur, total, done) && i < |lines|
    requires if dummies > 0 then Guard(lines[i], strict) == Faulty
             else WordKind(lines[i], strict) == Faulty ||
                  (WordKind(lines[i], strict) == Counted && AsciiValue(lines[i]).None?)
    ensures total == Run(done, cur, false)
  {
    assert done + [] == done;
    assert cur + [] == cur;
  }

  /** One dummy line dropped; after the last, the trackers take the
      cursor's type, half and row. */
  lemma RestDummy(lines: seq<string>, i: nat, strict: bool, wpf: nat, sh: Shape, hasHalf: bool,
                  left: nat, prev: Boundary, x: Coord, dummies: nat, total: Run, done: seq<seq<nat>>)
    requires Storing(lines, i, strict, wpf, sh, hasHalf, left, prev, x, dummies, [], total, done) && i < |lines|
    requires dummies > 0 && Guard(lines[i], strict) == Counted
    ensures dummies > 1 ==> Storing(lines, i + 1, strict, wpf, sh, hasHalf, left, prev, x, dummies - 1, [], total, done)
    ensures dummies == 1 ==> Storing(lines, i + 1, strict, wpf, sh, hasHalf, left, BoundaryOf(x), x, 0, [], total, done)
  {
    if dummies == 1 {
      assert Drop(lines, i, 1, strict) == Mark(i + 1, Done);
    }
  }

  /** One word appended to a frame that is not yet full. */
  lemma RestWord(lines: seq<string>, i: nat, strict: bool, wpf: nat, sh: Shape, hasHalf: bool,
                 left: nat, prev: Boundary, x: Coord, cur: seq<nat>, total: Run, done: seq<seq<nat>>, v: nat)
    requires Storing(lines, i, strict, wpf, sh, hasHalf, left, prev, x, 0, cur, total, done) && i < |lines|
    requires WordKind(lines[i], strict) == Counted && AsciiValue(lines[i]) == Some(v) && |cur| + 1 < wpf
    ensures Storing(lines, i + 1, strict, wpf, sh, hasHalf, left, prev, x, 0, cur + [v], total, done)
  {
    var n := wpf - |cur|;
    var t := Take(lines, i + 1, n - 1, strict);
    assert Take(lines, i, n, strict) == Taken([v] + t.words, t.next, t.outcome);
    assert cur + ([v] + t.words) == (cur + [v]) + t.words;
  }

  /** The word that fills the last frame: the loop breaks, the cursor
      staying on that frame. */
  lemma RestLast(lines: seq<string>, i: nat, strict: bool, wpf: nat, sh: Shape, hasHalf: bool,
                 prev: Boundary, x: Coord, cur: seq<nat>, total: Run, done: seq<seq<nat>>, v: nat)
    requires Storing(lines, i, strict, wpf, sh, hasHalf, 1, prev, x, 0, cur, total, done) && i < |lines|
    requires WordKind(lines[i], strict) == Counted && AsciiValue(lines[i]) == Some(v) && |cur| + 1 == wpf
    ensures total == Run(done, cur + [v], true)
  {
    assert Take(lines, i, 1, strict) == Taken([v], i + 1, Done);
    assert done + [] == done;
  }

  /** The word that fills any other frame: the cursor steps, and dummy
      lines are due when its type, half or row is not the tracked one. */
  lemma RestStep(lines: seq<string>, i: nat, strict: bool, wpf: nat, sh: Shape, hasHalf: bool,
                 left: nat, prev: Boundary, x: Coord, cur: seq<nat>, total: Run, done: seq<seq<nat>>, v: nat,
                 y: Coord, dummies: nat)
    requires Storing(lines, i, strict, wpf, sh, hasHalf, left, prev, x, 0, cur, total, done) && i < |lines|
    requires WordKind(lines[i], strict) == Counted && AsciiValue(lines[i]) == Some(v) && |cur| + 1 == wpf
    requires left > 1 && y == Next(sh, hasHalf, x) && dummies == (if BoundaryOf(y) != prev then DummyLines else 0)
    ensures Storing(lines, i + 1, strict, wpf, sh, hasHalf, left - 1, prev, y, dummies, [], total, done + [cur + [v]])
  {
    NextValid(sh, hasHalf, x);
    assert Take(lines, i, 1, strict) == Taken([v], i + 1, Done);
    var r := Rest(lines, i + 1, strict, wpf, sh, hasHalf, left - 1, prev, y, dummies, []);
    Appended(total, done, cur + [v],
             LineFrames(lines, i, strict, wpf, sh, hasHalf, left, prev, x, cur), r);
  }


  /** The counters of the storage loop: frames and words stored, the
      dummy flag and the dummy lines dropped, and the type, half and row
      last tracked. */
  datatype Counters = Counters(frameCount: nat, wordCount: nat, dummyFlag: bool, dummyWordCount: nat,
                               prevType: nat, prevTopBottom: nat, prevRow: nat)

  /** Where the storage loop stands against `LineFrames`: the frames still
      to store, the tracked boundary, the cursor, the dummy lines still to
      drop, the words of the unfinished frame and the frames done. */
  datatype Standing = Standing(left: nat, prev: Boundary, x: Coord, dummies: nat, cur: seq<nat>,
                               done: seq<seq<nat>>)

  /** What the dummy counter says: while the flag is up, `dummies` lines
      remain to be dropped. */
  predicate DummyCount(dummyFlag: bool, dummyWordCount: nat, dummies: nat)
  {
    if dummyFlag then dummyWordCount < DummyLines && dummies == DummyLines - dummyWordCount
    else dummyWordCount == 0 && dummies == 0
  }

  /** The counters agree with the progress: the frames left are those
      below `numFrads`, the word count is the length of the unfinished
      frame, the trackers are the tracked boundary. */
  predicate Tracking(c: Counters, numFrads: nat, g: Standing)
  {
    c.frameCount < numFrads && g.left == numFrads - c.frameCount && |g.cur| == c.wordCount &&
    g.prev == Boundary(c.prevType, c.prevTopBottom, c.prevRow) && DummyCount(c.dummyFlag, c.dummyWordCount, g.dummies)
  }

  /** `Storing` at the progress `g`. */
  ghost predicate Along(lines: seq<string>, i: nat, strict: bool, wpf: nat, sh: Shape, hasHalf: bool,
                        g: Standing, total: Run)
  {
    Storing(lines, i, strict, wpf, sh, hasHalf, g.left, g.prev, g.x, g.dummies, g.cur, total, g.done)
  }

  /** `Along` at turn `i`, hidden behind `Pin(i)` so that the storage
      loop does not unfold it. */
  ghost predicate AlongAt(lines: seq<string>, i: nat, strict: bool, wpf: nat, sh: Shape, hasHalf: bool,
                          g: Standing, total: Run)
  {
    forall k {:trigger Pin(k)} :: k == i ==> Along(lines, k, strict, wpf, sh, hasHalf, g, total)
  }

  lemma AlongOpen(lines: seq<string>, i: nat, strict: bool, wpf: nat, sh: Shape, hasHalf: bool,
                  g: Standing, total: Run)
    requires AlongAt(lines, i, strict, wpf, sh, hasHalf, g, total)
    ensures Along(lines, i, strict, wpf, sh, hasHalf, g, total)
  {
    assert Pin(i) == i;
  }

  /** The counters after one more word: the word count goes up; a full
      frame resets it and counts a frame, and unless that was the last
      frame the cursor steps, raising the dummy flag when it `crossed` to
      another type, half or row. */
  predicate WordCounted(c: Counters, wpf: nat, numFrads: nat, crossed: bool, next: Counters, stepped: bool)
  {
    if c.wordCount + 1 < wpf then
      !stepped && next == c.(wordCount := c.wordCount + 1)
    else
      (stepped <==> c.frameCount + 1 != numFrads) &&
      next == c.(wordCount := 0, frameCount := c.frameCount + 1, dummyFlag := c.dummyFlag || (stepped && crossed))
  }

  /** In word mode the unfinished frame has room for the word. */
  lemma WordRoom(lines: seq<string>, i: nat, strict: bool, wpf: nat, sh: Shape, hasHalf: bool, numFrads: nat,
                 c: Counters, g: Standing, total: Run)
    requires Tracking(c, numFrads, g) && Along(lines, i, strict, wpf, sh, hasHalf, g, total)
    ensures c.wordCount < wpf
  {
  }

  /** The bookkeeping of one word of the storage loop: what is stored and
      where the loop stands after it, given the counters `next` and the
      cursor `y` after the word. */
  lemma WordBook(lines: seq<string>, i: nat, strict: bool, wpf: nat, sh: Shape, hasHalf: bool, numFrads: nat,
                 f0: Fill, c: Counters, g: Standing, total: Run, v: nat, next: Counters, stepped: bool, y: Coord)
    returns (h: Standing)
    requires Ready(f0, hasHalf) && i < |lines| && WordKind(lines[i], strict) == Counted && AsciiValue(lines[i]) == Some(v)
    requires !c.dummyFlag && Tracking(c, numFrads, g) && Along(lines, i, strict, wpf, sh, hasHalf, g, total)
    requires WordCounted(c, wpf, numFrads, BoundaryOf(y) != g.prev, next, stepped)
    requires stepped ==> y == Next(sh, hasHalf, g.x)
    ensures Written(f0, hasHalf, h.done, h.cur) ==
      if stepped then Advance(Put(Written(f0, hasHalf, g.done, g.cur), v), hasHalf)
      else Put(Written(f0, hasHalf, g.done, g.cur), v)
    ensures !stepped && next.wordCount == 0 ==> total == Run(h.done, h.cur, true)
    ensures !(!stepped && next.wordCount == 0) ==>
      h.x == (if stepped then y else g.x) && Tracking(next, numFrads, h) &&
      Along(lines, i + 1, strict, wpf, sh, hasHalf, h, total)
  {
    WrittenPut(f0, hasHalf, g.done, g.cur, v);
    h := g.(cur := g.cur + [v]);
    if stepped {
      WrittenStep(f0, hasHalf, g.done, g.cur + [v]);
      var dummies := if next.dummyFlag then DummyLines else 0;
      RestStep(lines, i, strict, wpf, sh, hasHalf, g.left, g.prev, g.x, g.cur, total, g.done, v, y, dummies);
      h := Standing(g.left - 1, g.prev, y, dummies, [], g.done + [g.cur + [v]]);
    } else if next.wordCount == 0 {
      RestLast(lines, i, strict, wpf, sh, hasHalf, g.prev, g.x, g.cur, total, g.done, v);
    } else {
      RestWord(lines, i, strict, wpf, sh, hasHalf, g.left, g.prev, g.x, g.cur, total, g.done, v);
    }
  }

  /** The storage loop starts at address 0 with every frame to store. */
  lemma Started(lines: seq<string>, start: nat, strict: bool, wpf: nat, sh: Shape, hasHalf: bool, total: Run)
    requires start <= |lines| && WellFormed(sh, hasHalf) && wpf > 0
    requires total == Stored(lines, start, strict, sh, hasHalf, wpf)
    ensures Along(lines, start, strict, wpf, sh, hasHalf, Standing(Total(sh), Boundary(0, 0, 0), Origin, 0, [], []), total)
  {
    OriginValid(sh, hasHalf);
    RankBound(sh, Origin);
    assert [] + total.frames == total.frames;
  }

  // ---------------------------------------------------------------------
  // The `.ebd` reader

  /** `parse_ebd_file` from line `i`, with `cur` the words of the frame
      being filled: every line beginning with '0' or '1' is a word, any
      other line is passed over, and a turn that begins with the frame full
      first closes it with a step. So the last frame is closed only when a
      line, of any kind, follows its last word. */
  function EbdFrom(lines: seq<string>, i: nat, wpf: nat, cur: seq<nat>): Run
    requires i <= |lines| && wpf > 0 && |cur| <= wpf
    decreases |lines| - i, |cur|
  {
    if i == |lines| then Run([], cur, true)
    else if |cur| == wpf then
      var r := EbdFrom(lines, i, wpf, []);
      Run([cur] + r.frames, r.partial, r.ok)
    else if !IsWordLine(lines[i]) then EbdFrom(lines, i + 1, wpf, cur)
    else match AsciiValue(lines[i])
      case None => Run([], cur, false)
      case Some(v) => EbdFrom(lines, i + 1, wpf, cur + [v])
  }

  /** What `parse_ebd_file` stores, from the first line and address 0. */
  function EbdRun(lines: seq<string>, wpf: nat): Run
    requires wpf > 0
  {
    EbdFrom(lines, 0, wpf, [])
  }

  /** The words of the lines from `i` on: each line beginning with '0' or
      '1', read as a word, up to the first that is too short to read. */
  function Accepted(lines: seq<string>, i: nat): seq<nat>
    requires i <= |lines|
    decreases |lines| - i
  {
    if i == |lines| then []
    else if !IsWordLine(lines[i]) then Accepted(lines, i + 1)
    else match AsciiValue(lines[i])
      case None => []
      case Some(v) => [v] + Accepted(lines, i + 1)
  }

  /** Every word line from `i` on has the 32 characters `ascii_to_int`
      reads. */
  predicate Convertible(lines: seq<string>, i: nat)
  {
    forall k :: i <= k < |lines| && IsWordLine(lines[k]) ==> |lines[k]| >= LineWidth
  }

  /** The frames one after the other. */
  function Concat(frames: seq<seq<nat>>): seq<nat>
  {
    if frames == [] then [] else frames[0] + Concat(frames[1..])
  }

  /** `parse_ebd_file` cuts the accepted words into frames of `wpf` words
      in order, the rest going into the frame it ends in, and it reads to
      the end exactly when every word line is long enough. */
  lemma {:induction false} EbdLayout(lines: seq<string>, i: nat, wpf: nat, cur: seq<nat>)
    requires i <= |lines| && wpf > 0 && |cur| <= wpf
    ensures var r := EbdFrom(lines, i, wpf, cur);
      Concat(r.frames) + r.partial == cur + Accepted(lines, i) &&
      (forall k :: 0 <= k < |r.frames| ==> |r.frames[k]| == wpf) && |r.partial| <= wpf &&
      (r.ok <==> Convertible(lines, i))
    decreases |lines| - i, |cur|
  {
    var r := EbdFrom(lines, i, wpf, cur);
    if i == |lines| {
    } else if |cur| == wpf {
      var r' := EbdFrom(lines, i, wpf, []);
      EbdLayout(lines, i, wpf, []);
      assert r == Run([cur] + r'.frames, r'.partial, r'.ok);
      assert ([cur] + r'.frames)[1..] == r'.frames;
      assert Concat(r.frames) == cur + Concat(r'.frames);
      assert Concat(r'.frames) + r'.partial == [] + Accepted(lines, i);
      assert (cur + Concat(r'.frames)) + r'.partial == cur + (Concat(r'.frames) + r'.partial);
      assert forall k :: 0 <= k < |r.frames| ==> |r.frames[k]| == wpf;
    } else if !IsWordLine(lines[i]) {
      EbdLayout(lines, i + 1, wpf, cur);
      ConvertibleNext(lines, i);
    } else if AsciiValue(lines[i]).None? {
      assert !Convertible(lines, i) by {
        assert IsWordLine(lines[i]) && |lines[i]| < LineWidth;
      }
    } else {
      var v := AsciiValue(lines[i]).value;
      EbdLayout(lines, i + 1, wpf, cur + [v]);
      ConvertibleNext(lines, i);
      assert (cur + [v]) + Accepted(lines, i + 1) == cur + ([v] + Accepted(lines, i + 1));
    }
  }

  lemma ConvertibleNext(lines: seq<string>, i: nat)
    requires i < |lines| && (IsWordLine(lines[i]) ==> |lines[i]| >= LineWidth)
    ensures Convertible(lines, i) <==> Convertible(lines, i + 1)
  {
  }

  /** Frames of `wpf` words laid end to end: word `m` of frame `k` is word
      `FrameWords(wpf, k) + m` of the whole. */
  lemma {:induction false} ConcatAt(frames: seq<seq<nat>>, wpf: nat, k: nat, m: nat)
    requires forall j :: 0 <= j < |frames| ==> |frames[j]| == wpf
    requires k < |frames| && m < wpf
    ensures FrameWords(wpf, k) + m < |Concat(frames)| && Concat(frames)[FrameWords(wpf, k) + m] == frames[k][m]
  {
    ConcatLength(frames, wpf);
    if k > 0 {
      ConcatAt(frames[1..], wpf, k - 1, m);
      FrameWordsShift(wpf, k);
    }
  }

  lemma {:induction false} ConcatLength(frames: seq<seq<nat>>, wpf: nat)
    requires forall j :: 0 <= j < |frames| ==> |frames[j]| == wpf
    ensures |Concat(frames)| == FrameWords(wpf, |frames|)
  {
    if frames != [] {
      ConcatLength(frames[1..], wpf);
      FrameWordsShift(wpf, |frames|);
    }
  }

  /** Counting the first frame first. */
  lemma {:induction false} FrameWordsShift(wpf: nat, k: nat)
    requires k > 0
    ensures FrameWords(wpf, k) == wpf + FrameWords(wpf, k - 1)
  {
  }

  /** Word `m` of frame `k` that `parse_ebd_file` stores is accepted word
      `FrameWords(wpf, k) + m` (that is, `wpf * k + m`), and so is word `m`
      of the unfinished frame after `k` whole ones. */
  lemma EbdWord(lines: seq<string>, wpf: nat, k: nat, m: nat)
    requires wpf > 0
    ensures var r := EbdRun(lines, wpf); var ws := Accepted(lines, 0);
      (k < |r.frames| && m < wpf ==>
         |r.frames[k]| == wpf && FrameWords(wpf, k) + m < |ws| && r.frames[k][m] == ws[FrameWords(wpf, k) + m]) &&
      (k == |r.frames| && m < |r.partial| ==>
         FrameWords(wpf, k) + m < |ws| && r.partial[m] == ws[FrameWords(wpf, k) + m])
  {
    var r := EbdRun(lines, wpf);
    var ws := Accepted(lines, 0);
    EbdLayout(lines, 0, wpf, []);
    assert Concat(r.frames) + r.partial == ws;
    ConcatLength(r.frames, wpf);
    if k < |r.frames| && m < wpf {
      ConcatAt(r.frames, wpf, k, m);
    }
    FrameWordsProduct(wpf, k);
  }

  /** Where the `.ebd` loop stands: the frames it closed, then what the
      rest of the lines gives from the unfinished frame `cur`. */
  ghost predicate EbdAhead(lines: seq<string>, i: nat, wpf: nat, cur: seq<nat>, total: Run, done: seq<seq<nat>>)
  {
    i <= |lines| && wpf > 0 && |cur| <= wpf &&
    var r := EbdFrom(lines, i, wpf, cur);
    total == Run(done + r.frames, r.partial, r.ok)
  }

  /** A turn that begins with the frame full closes it. */
  lemma EbdClose(lines: seq<string>, i: nat, wpf: nat, cur: seq<nat>, total: Run, done: seq<seq<nat>>)
    requires EbdAhead(lines, i, wpf, cur, total, done) && i < |lines| && |cur| == wpf
    ensures EbdAhead(lines, i, wpf, [], total, done + [cur])
  {
    var r := EbdFrom(lines, i, wpf, []);
    assert done + ([cur] + r.frames) == (done + [cur]) + r.frames;
  }

  /** A line that is not a word is passed over. */
  lemma EbdPass(lines: seq<string>, i: nat, wpf: nat, cur: seq<nat>, total: Run, done: seq<seq<nat>>)
    requires EbdAhead(lines, i, wpf, cur, total, done) && i < |lines| && |cur| < wpf && !IsWordLine(lines[i])
    ensures EbdAhead(lines, i + 1, wpf, cur, total, done)
  {
  }

  /** A word line is appended. */
  lemma EbdTake(lines: seq<string>, i: nat, wpf: nat, cur: seq<nat>, total: Run, done: seq<seq<nat>>, v: nat)
    requires EbdAhead(lines, i, wpf, cur, total, done) && i < |lines| && |cur| < wpf
    requires IsWordLine(lines[i]) && AsciiValue(lines[i]) == Some(v)
    ensures EbdAhead(lines, i + 1, wpf, cur + [v], total, done)
  {
  }

  /** A word line too short to read raises. */
  lemma EbdRaised(lines: seq<string>, i: nat, wpf: nat, cur: seq<nat>, total: Run, done: seq<seq<nat>>)
    requires EbdAhead(lines, i, wpf, cur, total, done) && i < |lines| && |cur| < wpf
    requires IsWordLine(lines[i]) && AsciiValue(lines[i]).None?
    ensures total == Run(done, cur, false)
  {
    assert done + [] == done;
  }

  /** With the lines used up, what is stored is what the loop holds. */
  lemma EbdEnd(lines: seq<string>, wpf: nat, cur: seq<nat>, total: Run, done: seq<seq<nat>>)
    requires EbdAhead(lines, |lines|, wpf, cur, total, done)
    ensures total == Run(done, cur, true)
  {
    assert done + [] == done;
  }
}
