/** `FrameOperations`: two frame-address structures compared frame by
    frame from address 0, bit by bit within each word, with an optional
    third structure that masks bits out (`diff_ignore_masked`) or marks the
    essential ones (`find_essential_upsets`). */
module Operations {
  import opened Wrappers
  import opened Bits
  import opened Series
  import opened Codec
  import opened Cursor
  import opened Nested
  import opened Loading
  import opened Frads
  import opened BinParsing
  import opened Upsets

  /** The `FrameOperations` object: the two structures its operations
      compare. */
  class FrameOperations {
    var fradStructure1: FradStructure
    var fradStructure2: FradStructure

    constructor(fradStructure1: FradStructure, fradStructure2: FradStructure)
      ensures this.fradStructure1 == fradStructure1 && this.fradStructure2 == fradStructure2
    {
      this.fradStructure1 := fradStructure1;
      this.fradStructure2 := fradStructure2;
    }

    /** `set_frad_structures` */
    method SetFradStructures(fradStructure1: FradStructure, fradStructure2: FradStructure)
      modifies this
      ensures this.fradStructure1 == fradStructure1 && this.fradStructure2 == fradStructure2
    {
      this.fradStructure1 := fradStructure1;
      this.fradStructure2 := fradStructure2;
    }

    /** `compare_frame` */
    method CompareFrame(frame1: Frame, frame2: Frame) returns (r: Option<seq<Spot>>)
      ensures r == Compared(frame1, frame2)
    {
      var returnList: seq<Spot> := [];
      var i := 0;
      while i < |frame1|
        invariant i <= |frame1| && i <= |frame2|
        invariant returnList == FrameDiffs(frame1, frame2, i, WordBits)
      {
        if i >= |frame2| {
          // `frame2[i]` raises
          return None;
        }
        if frame1[i] != frame2[i] {
          var j := 0;
          while j < WordBits
            invariant j <= WordBits
            invariant returnList == FrameDiffs(frame1, frame2, i, WordBits) + WordDiffs(i, frame1[i], frame2[i], j)
          {
            var msk := Pow2(j);
            MaskedBits(frame1[i], frame2[i], j);
            if And(frame1[i], msk) != And(frame2[i], msk) {
              returnList := returnList + [Spot(i, j)];
            }
            j := j + 1;
          }
        }
        i := i + 1;
      }
      return Some(returnList);
    }

    /** The `for pair in diffList` loop of the three diffs: each pair the
        filter keeps becomes an upset of the frame `frad`. */
    method Select(frad: nat, diffList: seq<Spot>, frame3: Frame, filter: Filter) returns (r: Option<seq<Upset>>)
      ensures r == Selected(frad, diffList, frame3, filter)
    {
      var upsetList: seq<Upset> := [];
      var k := 0;
      while k < |diffList|
        invariant k <= |diffList|
        invariant Selected(frad, diffList[..k], frame3, filter) == Some(upsetList)
      {
        var pair := diffList[k];
        assert diffList[..k + 1][..k] == diffList[..k] && diffList[..k + 1][k] == pair;
        var keep := true;
        if filter != Everything {
          if pair.word >= |frame3| {
            // `frame3[pair[0]]` raises
            SelectedDefined(frad, diffList, frame3, filter);
            return None;
          }
          MaskedBit(frame3[pair.word], pair.bit);
          var masked := And(frame3[pair.word], Pow2(pair.bit)) != 0;
          keep := if filter == Unmasked then !masked else masked;
        }
        assert Kept(filter, frame3, pair) == Some(keep);
        assert Selected(frad, diffList[..k + 1], frame3, filter) ==
          Some(upsetList + if keep then [Upset(frad, pair.word, pair.bit)] else []);
        if keep {
          upsetList := upsetList + [Upset(frad, pair.word, pair.bit)];
        } else {
          assert upsetList + [] == upsetList;
        }
        k := k + 1;
      }
      assert diffList[..k] == diffList;
      return Some(upsetList);
    }

    /** The body of the frame loop of the diffs, before the steps: the
        current frames compared and the kept pairs reported against the
        current address of the first structure. */
    method CurrentUpsets(fs1: FradStructure, fs2: FradStructure, frame3: Frame, filter: Filter)
      returns (r: Option<seq<Upset>>)
      requires fs1.Configured() && Valid(fs1.StoreShape(), fs1.Location()) && Valid(fs2.StoreShape(), fs2.Location())
      ensures r == FrameUpsets(Compose(fs1.cfg, fs1.Location()), FrameAt(fs1.store, fs1.Location()),
                               FrameAt(fs2.store, fs2.Location()), frame3, filter)
    {
      var frame1 := fs1.GetCurrentFrameData();
      var frame2 := fs2.GetCurrentFrameData();
      var diffList := CompareFrame(frame1, frame2);
      if diffList.None? {
        return None;
      }
      var frad := fs1.GetCurrentFrad();
      r := Select(frad, diffList.value, frame3, filter);
    }

    /** `diff`: the upsets of every frame (`includeBram`) or of the logic
        frames, the frames of the second structure taken in its own step
        order; both cursors end `limit` steps from address 0. */
    method Diff(includeBram: bool) returns (r: Option<seq<Upset>>)
      requires fradStructure1 != fradStructure2
      requires fradStructure1.Consistent() && WellFormed(fradStructure1.StoreShape(), fradStructure1.cfg.hasHalf)
      requires fradStructure2.Consistent() && WellFormed(fradStructure2.StoreShape(), fradStructure2.cfg.hasHalf)
      modifies fradStructure1, fradStructure2
      ensures fradStructure1.Loaded() == old(fradStructure1.Loaded())
      ensures fradStructure2.Loaded() == old(fradStructure2.Loaded())
      ensures var a, b := fradStructure1, fradStructure2;
        var limit := if includeBram then a.numFrads else a.numLogicFrames;
        r == UpsetsOf(Visits(a.store, a.cfg, b.store, b.cfg.hasHalf, b.store, b.cfg.hasHalf, limit), Everything) &&
        (r.Some? ==> a.Location() == StepN(a.store, a.cfg.hasHalf, limit) &&
                     b.Location() == StepN(b.store, b.cfg.hasHalf, limit))
    {
      Rewind(fradStructure1);
      Rewind(fradStructure2);
      var limit := if includeBram then fradStructure1.numFrads else fradStructure1.numLogicFrames;
      ghost var a, b := fradStructure1, fradStructure2;
      ghost var vs := Visits(a.store, a.cfg, b.store, b.cfg.hasHalf, b.store, b.cfg.hasHalf, limit);
      VisitsWalked(a.store, a.cfg, b.store, b.cfg.hasHalf, b.store, b.cfg.hasHalf, limit);
      r := DiffWalk(fradStructure1, fradStructure2, limit, vs);
    }

    /** The frame loop of `diff`, from address 0 in both structures. */
    method DiffWalk(fs1: FradStructure, fs2: FradStructure, limit: nat, ghost vs: seq<Visit>)
      returns (r: Option<seq<Upset>>)
      requires fs1 != fs2
      requires fs1.Configured() && WellFormed(fs1.StoreShape(), fs1.cfg.hasHalf)
      requires fs2.Configured() && WellFormed(fs2.StoreShape(), fs2.cfg.hasHalf)
      requires fs1.Location() == Origin && fs2.Location() == Origin
      requires |vs| == limit && Walked(vs, fs1.store, fs1.cfg, fs2.store, fs2.cfg.hasHalf, fs2.store, fs2.cfg.hasHalf)
      modifies fs1, fs2
      ensures fs1.Loaded() == old(fs1.Loaded()) && fs2.Loaded() == old(fs2.Loaded())
      ensures r == UpsetsOf(vs, Everything)
      ensures r.Some? ==>
        fs1.Location() == StepN(fs1.store, fs1.cfg.hasHalf, limit) &&
        fs2.Location() == StepN(fs2.store, fs2.cfg.hasHalf, limit)
    {
      ghost var s1, c1, s2, h2 := fs1.store, fs1.cfg, fs2.store, fs2.cfg.hasHalf;
      var upsetList: seq<Upset> := [];
      var i := 0;
      while i < limit
        invariant i <= limit
        invariant fs1.Loaded() == old(fs1.Loaded()) && fs2.Loaded() == old(fs2.Loaded())
        invariant fs1.Location() == StepN(s1, c1.hasHalf, i) && fs2.Location() == StepN(s2, h2, i)
        invariant UpsetsOf(vs[..i], Everything) == Some(upsetList)
      {
        var found := DiffTurn(fs1, fs2, i, vs, upsetList);
        if found.None? {
          return None;
        }
        upsetList := upsetList + found.value;
        i := i + 1;
      }
      UpsetsWhole(vs, Everything);
      return Some(upsetList);
    }

    /** One turn of the frame loop of `diff`: the current frames compared,
        then both cursors stepped. */
    method DiffTurn(fs1: FradStructure, fs2: FradStructure, i: nat, ghost vs: seq<Visit>, ghost done: seq<Upset>)
      returns (found: Option<seq<Upset>>)
      requires fs1 != fs2 && fs1.Configured() && fs2.Configured()
      requires WellFormed(fs1.StoreShape(), fs1.cfg.hasHalf) && WellFormed(fs2.StoreShape(), fs2.cfg.hasHalf)
      requires fs1.Location() == StepN(fs1.store, fs1.cfg.hasHalf, i)
      requires fs2.Location() == StepN(fs2.store, fs2.cfg.hasHalf, i)
      requires i < |vs| && Walked(vs, fs1.store, fs1.cfg, fs2.store, fs2.cfg.hasHalf, fs2.store, fs2.cfg.hasHalf)
      requires UpsetsOf(vs[..i], Everything) == Some(done)
      modifies fs1, fs2
      ensures fs1.Loaded() == old(fs1.Loaded()) && fs2.Loaded() == old(fs2.Loaded())
      ensures found.None? ==> UpsetsOf(vs, Everything).None?
      ensures found.Some? ==>
        UpsetsOf(vs[..i + 1], Everything) == Some(done + found.value) &&
        fs1.Location() == StepN(fs1.store, fs1.cfg.hasHalf, i + 1) &&
        fs2.Location() == StepN(fs2.store, fs2.cfg.hasHalf, i + 1)
    {
      WalkedAt(vs, fs1.store, fs1.cfg, fs2.store, fs2.cfg.hasHalf, fs2.store, fs2.cfg.hasHalf, i);
      ghost var v := vs[i];
      found := CurrentUpsets(fs1, fs2, [], Everything);
      FrameUpsetsIgnores(v.frad, v.f1, v.f2, [], v.f3);
      UpsetsSnoc(vs, i, Everything);
      if found.None? {
        UpsetsRaised(vs, i + 1, Everything);
        return;
      }
      Advance(fs1, i);
      Advance(fs2, i);
    }

    /** `step_forward` on a cursor `i` steps from address 0. */
    method Advance(fs: FradStructure, i: nat)
      requires fs.Configured() && WellFormed(fs.StoreShape(), fs.cfg.hasHalf)
      requires fs.Location() == StepN(fs.store, fs.cfg.hasHalf, i)
      modifies fs
      ensures fs.Loaded() == old(fs.Loaded()) && fs.Location() == StepN(fs.store, fs.cfg.hasHalf, i + 1)
    {
      StepNNext(fs.store, fs.cfg.hasHalf, i);
      var _ := fs.StepForward();
    }

    /** The frame loop `diff_ignore_masked` and `find_essential_upsets`
        share: the third structure's cursor steps with the other two. */
    method Walk(fs1: FradStructure, fs2: FradStructure, fs3: FradStructure, filter: Filter, limit: nat)
      returns (r: Option<seq<Upset>>)
      requires fs1 != fs2 && fs1 != fs3 && fs2 != fs3
      requires fs1.Configured() && WellFormed(fs1.StoreShape(), fs1.cfg.hasHalf)
      requires fs2.Configured() && WellFormed(fs2.StoreShape(), fs2.cfg.hasHalf)
      requires fs3.Configured() && WellFormed(fs3.StoreShape(), fs3.cfg.hasHalf)
      modifies fs1, fs2, fs3
      ensures fs1.Loaded() == old(fs1.Loaded()) && fs2.Loaded() == old(fs2.Loaded()) &&
        fs3.Loaded() == old(fs3.Loaded())
      ensures r == UpsetsOf(Visits(fs1.store, fs1.cfg, fs2.store, fs2.cfg.hasHalf, fs3.store, fs3.cfg.hasHalf, limit),
                            filter)
      ensures r.Some? ==>
        fs1.Location() == StepN(fs1.store, fs1.cfg.hasHalf, limit) &&
        fs2.Location() == StepN(fs2.store, fs2.cfg.hasHalf, limit) &&
        fs3.Location() == StepN(fs3.store, fs3.cfg.hasHalf, limit)
    {
      Rewind(fs1);
      Rewind(fs2);
      Rewind(fs3);
      ghost var vs := Visits(fs1.store, fs1.cfg, fs2.store, fs2.cfg.hasHalf, fs3.store, fs3.cfg.hasHalf, limit);
      VisitsWalked(fs1.store, fs1.cfg, fs2.store, fs2.cfg.hasHalf, fs3.store, fs3.cfg.hasHalf, limit);
      r := WalkFrom(fs1, fs2, fs3, filter, limit, vs);
    }

    /** The frame loop of `Walk`, from address 0 in all three structures. */
    method WalkFrom(fs1: FradStructure, fs2: FradStructure, fs3: FradStructure, filter: Filter, limit: nat,
                    ghost vs: seq<Visit>)
      returns (r: Option<seq<Upset>>)
      requires fs1 != fs2 && fs1 != fs3 && fs2 != fs3
      requires fs1.Configured() && WellFormed(fs1.StoreShape(), fs1.cfg.hasHalf)
      requires fs2.Configured() && WellFormed(fs2.StoreShape(), fs2.cfg.hasHalf)
      requires fs3.Configured() && WellFormed(fs3.StoreShape(), fs3.cfg.hasHalf)
      requires fs1.Location() == Origin && fs2.Location() == Origin && fs3.Location() == Origin
      requires |vs| == limit && Walked(vs, fs1.store, fs1.cfg, fs2.store, fs2.cfg.hasHalf, fs3.store, fs3.cfg.hasHalf)
      modifies fs1, fs2, fs3
      ensures fs1.Loaded() == old(fs1.Loaded()) && fs2.Loaded() == old(fs2.Loaded()) &&
        fs3.Loaded() == old(fs3.Loaded())
      ensures r == UpsetsOf(vs, filter)
      ensures r.Some? ==>
        fs1.Location() == StepN(fs1.store, fs1.cfg.hasHalf, limit) &&
        fs2.Location() == StepN(fs2.store, fs2.cfg.hasHalf, limit) &&
        fs3.Location() == StepN(fs3.store, fs3.cfg.hasHalf, limit)
    {
      ghost var s1, c1, s2, h2, s3, h3 := fs1.store, fs1.cfg, fs2.store, fs2.cfg.hasHalf, fs3.store, fs3.cfg.hasHalf;
      var upsetList: seq<Upset> := [];
      var i := 0;
      while i < limit
        invariant i <= limit
        invariant fs1.Loaded() == old(fs1.Loaded()) && fs2.Loaded() == old(fs2.Loaded()) &&
          fs3.Loaded() == old(fs3.Loaded())
        invariant fs1.Location() == StepN(s1, c1.hasHalf, i) && fs2.Location() == StepN(s2, h2, i) &&
          fs3.Location() == StepN(s3, h3, i)
        invariant UpsetsOf(vs[..i], filter) == Some(upsetList)
      {
        var found := WalkTurn(fs1, fs2, fs3, filter, i, vs, upsetList);
        if found.None? {
          return None;
        }
        upsetList := upsetList + found.value;
        i := i + 1;
      }
      UpsetsWhole(vs, filter);
      return Some(upsetList);
    }

    /** One turn of `Walk`: the current frames compared, the pairs
        filtered by the third frame, then the three cursors stepped. */
    method WalkTurn(fs1: FradStructure, fs2: FradStructure, fs3: FradStructure, filter: Filter, i: nat,
                    ghost vs: seq<Visit>, ghost done: seq<Upset>)
      returns (found: Option<seq<Upset>>)
      requires fs1 != fs2 && fs1 != fs3 && fs2 != fs3
      requires fs1.Configured() && fs2.Configured() && fs3.Configured()
      requires WellFormed(fs1.StoreShape(), fs1.cfg.hasHalf) && WellFormed(fs2.StoreShape(), fs2.cfg.hasHalf) &&
        WellFormed(fs3.StoreShape(), fs3.cfg.hasHalf)
      requires fs1.Location() == StepN(fs1.store, fs1.cfg.hasHalf, i) &&
        fs2.Location() == StepN(fs2.store, fs2.cfg.hasHalf, i) && fs3.Location() == StepN(fs3.store, fs3.cfg.hasHalf, i)
      requires i < |vs| && Walked(vs, fs1.store, fs1.cfg, fs2.store, fs2.cfg.hasHalf, fs3.store, fs3.cfg.hasHalf)
      requires UpsetsOf(vs[..i], filter) == Some(done)
      modifies fs1, fs2, fs3
      ensures fs1.Loaded() == old(fs1.Loaded()) && fs2.Loaded() == old(fs2.Loaded()) &&
        fs3.Loaded() == old(fs3.Loaded())
      ensures found.None? ==> UpsetsOf(vs, filter).None?
      ensures found.Some? ==>
        UpsetsOf(vs[..i + 1], filter) == Some(done + found.value) &&
        fs1.Location() == StepN(fs1.store, fs1.cfg.hasHalf, i + 1) &&
        fs2.Location() == StepN(fs2.store, fs2.cfg.hasHalf, i + 1) &&
        fs3.Location() == StepN(fs3.store, fs3.cfg.hasHalf, i + 1)
    {
      found := WalkLook(fs1, fs2, fs3, filter, i, vs, done);
      if found.None? {
        return;
      }
      Advance(fs1, i);
      Advance(fs2, i);
      Advance(fs3, i);
    }

    /** The comparison of one turn of `Walk`, before the steps. */
    method WalkLook(fs1: FradStructure, fs2: FradStructure, fs3: FradStructure, filter: Filter, i: nat,
                    ghost vs: seq<Visit>, ghost done: seq<Upset>)
      returns (found: Option<seq<Upset>>)
      requires fs1.Configured() && fs2.Configured() && fs3.Configured()
      requires WellFormed(fs1.StoreShape(), fs1.cfg.hasHalf) && WellFormed(fs2.StoreShape(), fs2.cfg.hasHalf) &&
        WellFormed(fs3.StoreShape(), fs3.cfg.hasHalf)
      requires fs1.Location() == StepN(fs1.store, fs1.cfg.hasHalf, i) &&
        fs2.Location() == StepN(fs2.store, fs2.cfg.hasHalf, i) && fs3.Location() == StepN(fs3.store, fs3.cfg.hasHalf, i)
      requires i < |vs| && Walked(vs, fs1.store, fs1.cfg, fs2.store, fs2.cfg.hasHalf, fs3.store, fs3.cfg.hasHalf)
      requires UpsetsOf(vs[..i], filter) == Some(done)
      ensures found.None? ==> UpsetsOf(vs, filter).None?
      ensures found.Some? ==> UpsetsOf(vs[..i + 1], filter) == Some(done + found.value)
    {
      WalkedAt(vs, fs1.store, fs1.cfg, fs2.store, fs2.cfg.hasHalf, fs3.store, fs3.cfg.hasHalf, i);
      ghost var v := vs[i];
      var frame3 := fs3.GetCurrentFrameData();
      found := CurrentUpsets(fs1, fs2, frame3, filter);
      assert found == FrameUpsets(v.frad, v.f1, v.f2, v.f3, filter);
      LookExtends(vs, i, filter, done, found);
    }

    /** `diff_ignore_masked`: the upsets of `diff` whose bit is clear in
        the mask structure's frame at the same step. */
    method DiffIgnoreMasked(includeBram: bool, mskFradStructure: FradStructure) returns (r: Option<seq<Upset>>)
      requires fradStructure1 != fradStructure2 && mskFradStructure != fradStructure1 &&
        mskFradStructure != fradStructure2
      requires fradStructure1.Consistent() && WellFormed(fradStructure1.StoreShape(), fradStructure1.cfg.hasHalf)
      requires fradStructure2.Consistent() && WellFormed(fradStructure2.StoreShape(), fradStructure2.cfg.hasHalf)
      requires mskFradStructure.Consistent() &&
        WellFormed(mskFradStructure.StoreShape(), mskFradStructure.cfg.hasHalf)
      modifies fradStructure1, fradStructure2, mskFradStructure
      ensures fradStructure1.Loaded() == old(fradStructure1.Loaded()) &&
        fradStructure2.Loaded() == old(fradStructure2.Loaded()) &&
        mskFradStructure.Loaded() == old(mskFradStructure.Loaded())
      ensures var a, b, m := fradStructure1, fradStructure2, mskFradStructure;
        var limit := if includeBram then a.numFrads else a.numLogicFrames;
        r == UpsetsOf(Visits(a.store, a.cfg, b.store, b.cfg.hasHalf, m.store, m.cfg.hasHalf, limit), Unmasked) &&
        (r.Some? ==> a.Location() == StepN(a.store, a.cfg.hasHalf, limit) &&
                     b.Location() == StepN(b.store, b.cfg.hasHalf, limit) &&
                     m.Location() == StepN(m.store, m.cfg.hasHalf, limit))
    {
      var limit := if includeBram then fradStructure1.numFrads else fradStructure1.numLogicFrames;
      r := Walk(fradStructure1, fradStructure2, mskFradStructure, Unmasked, limit);
    }

    /** `find_essential_upsets`: the upsets among the logic frames whose
        bit is set in the essential-bit structure's frame at the same
        step. */
    method FindEssentialUpsets(ebdFradStructure: FradStructure) returns (r: Option<seq<Upset>>)
      requires fradStructure1 != fradStructure2 && ebdFradStructure != fradStructure1 &&
        ebdFradStructure != fradStructure2
      requires fradStructure1.Consistent() && WellFormed(fradStructure1.StoreShape(), fradStructure1.cfg.hasHalf)
      requires fradStructure2.Consistent() && WellFormed(fradStructure2.StoreShape(), fradStructure2.cfg.hasHalf)
      requires ebdFradStructure.Consistent() &&
        WellFormed(ebdFradStructure.StoreShape(), ebdFradStructure.cfg.hasHalf)
      modifies fradStructure1, fradStructure2, ebdFradStructure
      ensures fradStructure1.Loaded() == old(fradStructure1.Loaded()) &&
        fradStructure2.Loaded() == old(fradStructure2.Loaded()) &&
        ebdFradStructure.Loaded() == old(ebdFradStructure.Loaded())
      ensures var a, b, e := fradStructure1, fradStructure2, ebdFradStructure;
        var limit := a.numLogicFrames;
        r == UpsetsOf(Visits(a.store, a.cfg, b.store, b.cfg.hasHalf, e.store, e.cfg.hasHalf, limit), Essential) &&
        (r.Some? ==> a.Location() == StepN(a.store, a.cfg.hasHalf, limit) &&
                     b.Location() == StepN(b.store, b.cfg.hasHalf, limit) &&
                     e.Location() == StepN(e.store, e.cfg.hasHalf, limit))
    {
      r := Walk(fradStructure1, fradStructure2, ebdFradStructure, Essential, fradStructure1.numLogicFrames);
    }
  }
}
