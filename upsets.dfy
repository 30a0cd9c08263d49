/** What the comparisons of `FrameOperations` report: the differing bits
    of two frames, the pairs a mask or an essential-bit frame keeps, and
    the upsets collected over a walk of the structures. */
module Upsets {
  import opened Wrappers
  import opened Bits
  import opened Series
  import opened Codec
  import opened Cursor
  import opened Nested
  import opened Loading

  /** The bits `compare_frame` looks at in each word. */
  const WordBits := 32

  /** A `(word, bit)` pair of `compare_frame`. */
  datatype Spot = Spot(word: nat, bit: nat)

  /** A `(frad, word, bit)` upset tuple. */
  datatype Upset = Upset(frad: nat, word: nat, bit: nat)

  /** Which differing bits a diff keeps: all of them (`diff`), those clear
      in the mask (`diff_ignore_masked`), or those set in the essential-bit
      frame (`find_essential_upsets`). */
  datatype Filter = Everything | Unmasked | Essential

  // ---------------------------------------------------------------------
  // compare_frame

  /** Bit `j` of `a` differs from bit `j` of `b`, read by halving both
      `j` times. */
  predicate Differs(a: nat, b: nat, j: nat)
  {
    if j == 0 then a % 2 != b % 2 else Differs(a / 2, b / 2, j - 1)
  }

  lemma {:induction false} DiffersBit(a: nat, b: nat, j: nat)
    ensures Differs(a, b, j) <==> Bit(a, j) != Bit(b, j)
  {
    if j == 0 {
      assert Pow2(0) == 1;
    } else {
      DiffersBit(a / 2, b / 2, j - 1);
      BitHalf(a, j - 1);
      BitHalf(b, j - 1);
    }
  }

  /** Bit `j` of `x` is set, read by halving `x` `j` times. */
  predicate IsSet(x: nat, j: nat)
  {
    if j == 0 then x % 2 == 1 else IsSet(x / 2, j - 1)
  }

  lemma {:induction false} IsSetBit(x: nat, j: nat)
    ensures IsSet(x, j) <==> Bit(x, j) == 1
  {
    if j == 0 {
      assert Pow2(0) == 1;
    } else {
      IsSetBit(x / 2, j - 1);
      BitHalf(x, j - 1);
    }
  }

  lemma {:induction false} DiffersSame(a: nat, j: nat)
    ensures !Differs(a, a, j)
  {
    if j > 0 {
      DiffersSame(a / 2, j - 1);
    }
  }

  /** The bits below `n` where `a` and `b` differ, lowest first, each
      tagged with the word index `i`. */
  function WordDiffs(i: nat, a: nat, b: nat, n: nat): seq<Spot>
  {
    if n == 0 then []
    else WordDiffs(i, a, b, n - 1) + (if Differs(a, b, n - 1) then [Spot(i, n - 1)] else [])
  }

  /** The differences among the low `w` bits of the first `n` words;
      words that are equal are passed over whole. */
  function FrameDiffs(f1: Frame, f2: Frame, n: nat, w: nat): seq<Spot>
    requires n <= |f1| && n <= |f2|
  {
    if n == 0 then []
    else
      FrameDiffs(f1, f2, n - 1, w) + WordPart(f1, f2, n - 1, w)
  }

  /** What word `i` adds to the differences: nothing when the words are
      equal, otherwise the bits below `w` where they differ. */
  function WordPart(f1: Frame, f2: Frame, i: nat, w: nat): seq<Spot>
    requires i < |f1| && i < |f2|
  {
    if f1[i] != f2[i] then WordDiffs(i, f1[i], f2[i], w) else []
  }

  /** What `compare_frame` returns; `None` when the second frame is the
      shorter, where indexing it raises. */
  function Compared(f1: Frame, f2: Frame): Option<seq<Spot>>
  {
    if |f2| < |f1| then None else Some(FrameDiffs(f1, f2, |f1|, WordBits))
  }

  /** `x & (1 << j)` is non-zero exactly when bit `j` is set. */
  lemma MaskedBit(x: nat, j: nat)
    ensures And(x, Pow2(j)) != 0 <==> Bit(x, j) == 1
    ensures And(x, Pow2(j)) != 0 <==> IsSet(x, j)
  {
    AndPow2(x, j);
    IsSetBit(x, j);
  }

  /** Two words agree under `1 << j` exactly when their bits `j` agree. */
  lemma MaskedBits(x: nat, y: nat, j: nat)
    ensures And(x, Pow2(j)) != And(y, Pow2(j)) <==> Bit(x, j) != Bit(y, j)
    ensures And(x, Pow2(j)) != And(y, Pow2(j)) <==> Differs(x, y, j)
  {
    AndPow2(x, j);
    AndPow2(y, j);
    DiffersBit(x, y, j);
  }

  /** Spot `s` is in the bits below `n` of word `i` exactly when it names
      word `i` and a bit below `n` where the words differ. */
  lemma {:induction false} WordDiffsIff(i: nat, a: nat, b: nat, n: nat, s: Spot)
    ensures s in WordDiffs(i, a, b, n) <==> s.word == i && s.bit < n && Differs(a, b, s.bit)
  {
    if n > 0 {
      WordDiffsIff(i, a, b, n - 1, s);
    }
  }

  lemma WordDiffsOther(i: nat, a: nat, b: nat, n: nat, s: Spot)
    requires s.word != i
    ensures s !in WordDiffs(i, a, b, n)
  {
    WordDiffsIff(i, a, b, n, s);
  }

  /** Spot `s` is in what word `i` adds exactly when it names word `i`
      and a bit below `w` where the words differ. */
  lemma WordPartIff(f1: Frame, f2: Frame, i: nat, w: nat, s: Spot)
    requires i < |f1| && i < |f2|
    ensures s in WordPart(f1, f2, i, w) <==> s.word == i && s.bit < w && Differs(f1[i], f2[i], s.bit)
  {
    DiffersSame(f1[i], s.bit);
    WordDiffsIff(i, f1[i], f2[i], w, s);
  }

  /** Every spot of the differences of the first `n` words names one of
      those words and a bit below `w` where the frames differ. */
  lemma {:induction false} FrameDiffsSound(f1: Frame, f2: Frame, n: nat, w: nat, s: Spot)
    requires n <= |f1| && n <= |f2| && s in FrameDiffs(f1, f2, n, w)
    ensures s.word < n && s.bit < w && Differs(f1[s.word], f2[s.word], s.bit)
  {
    WordPartIff(f1, f2, n - 1, w, s);
    if s !in WordPart(f1, f2, n - 1, w) {
      FrameDiffsSound(f1, f2, n - 1, w, s);
    }
  }

  /** Every bit below `w` of the first `n` words where the frames differ
      is among the differences. */
  lemma {:induction false} FrameDiffsComplete(f1: Frame, f2: Frame, n: nat, w: nat, s: Spot)
    requires n <= |f1| && n <= |f2|
    requires s.word < n && s.bit < w && Differs(f1[s.word], f2[s.word], s.bit)
    ensures s in FrameDiffs(f1, f2, n, w)
  {
    if s.word == n - 1 {
      WordPartIff(f1, f2, n - 1, w, s);
    } else {
      FrameDiffsComplete(f1, f2, n - 1, w, s);
    }
  }

  /** Spot `s` is in the differences of the first `n` words exactly when
      its bit, below `w`, differs between the two frames. */
  lemma FrameDiffsIff(f1: Frame, f2: Frame, n: nat, w: nat, s: Spot)
    requires n <= |f1| && n <= |f2|
    ensures s in FrameDiffs(f1, f2, n, w) <==>
      s.word < n && s.bit < w && Differs(f1[s.word], f2[s.word], s.bit)
  {
    if s in FrameDiffs(f1, f2, n, w) {
      FrameDiffsSound(f1, f2, n, w, s);
    }
    if s.word < n && s.bit < w && Differs(f1[s.word], f2[s.word], s.bit) {
      FrameDiffsComplete(f1, f2, n, w, s);
    }
  }

  /** `compare_frame` raises exactly when the second frame is shorter, and
      otherwise lists every bit below 32 of every word where the frames
      differ, and nothing else. */
  lemma ComparedIff(f1: Frame, f2: Frame, s: Spot)
    ensures Compared(f1, f2).None? <==> |f2| < |f1|
    ensures Compared(f1, f2).Some? ==>
      (s in Compared(f1, f2).value <==>
         s.word < |f1| && s.bit < WordBits && Bit(f1[s.word], s.bit) != Bit(f2[s.word], s.bit))
  {
    if |f1| <= |f2| {
      FrameDiffsIff(f1, f2, |f1|, WordBits, s);
      if s.word < |f1| {
        DiffersBit(f1[s.word], f2[s.word], s.bit);
      }
    }
  }

  /** `s` comes before `t`: by word, then by bit. */
  predicate Before(s: Spot, t: Spot)
  {
    s.word < t.word || (s.word == t.word && s.bit < t.bit)
  }

  predicate Ordered(d: seq<Spot>)
  {
    forall p, q :: 0 <= p < q < |d| ==> Before(d[p], d[q])
  }

  lemma OrderedJoin(d: seq<Spot>, e: seq<Spot>)
    requires Ordered(d) && Ordered(e)
    requires forall p, q :: 0 <= p < |d| && 0 <= q < |e| ==> Before(d[p], e[q])
    ensures Ordered(d + e)
  {
    forall p, q | 0 <= p < q < |d + e|
      ensures Before((d + e)[p], (d + e)[q])
    {
      if q < |d| {
      } else if p >= |d| {
        assert (d + e)[p] == e[p - |d|] && (d + e)[q] == e[q - |d|];
      }
    }
  }

  /** Spots of earlier words, then spots of word `k`. */
  lemma OrderedWords(d: seq<Spot>, e: seq<Spot>, k: nat)
    requires Ordered(d) && Ordered(e)
    requires forall t :: t in d ==> t.word < k
    requires forall q :: 0 <= q < |e| ==> e[q].word == k
    ensures Ordered(d + e)
  {
    forall p, q | 0 <= p < |d| && 0 <= q < |e|
      ensures Before(d[p], e[q])
    {
      assert d[p] in d;
    }
    OrderedJoin(d, e);
  }

  lemma {:induction false} WordDiffsOrdered(i: nat, a: nat, b: nat, n: nat)
    ensures Ordered(WordDiffs(i, a, b, n))
    ensures forall p :: 0 <= p < |WordDiffs(i, a, b, n)| ==>
      WordDiffs(i, a, b, n)[p].word == i && WordDiffs(i, a, b, n)[p].bit < n
  {
    if n > 0 {
      WordDiffsOrdered(i, a, b, n - 1);
      var d := WordDiffs(i, a, b, n - 1);
      var e: seq<Spot> := if Differs(a, b, n - 1) then [Spot(i, n - 1)] else [];
      OrderedJoin(d, e);
    }
  }

  /** The differences come in order, word by word and bit by bit within
      a word, so no pair twice. */
  lemma {:induction false} FrameDiffsOrdered(f1: Frame, f2: Frame, n: nat, w: nat)
    requires n <= |f1| && n <= |f2|
    ensures Ordered(FrameDiffs(f1, f2, n, w))
  {
    if n > 0 {
      FrameDiffsOrdered(f1, f2, n - 1, w);
      var d := FrameDiffs(f1, f2, n - 1, w);
      var e := WordPart(f1, f2, n - 1, w);
      WordDiffsOrdered(n - 1, f1[n - 1], f2[n - 1], w);
      forall t | t in d
        ensures t.word < n - 1
      {
        FrameDiffsSound(f1, f2, n - 1, w, t);
      }
      OrderedWords(d, e, n - 1);
    }
  }

  /** `compare_frame` lists its pairs in order: by word, then by bit. */
  lemma ComparedOrdered(f1: Frame, f2: Frame)
    requires Compared(f1, f2).Some?
    ensures Ordered(Compared(f1, f2).value)
  {
    FrameDiffsOrdered(f1, f2, |f1|, WordBits);
  }

  lemma {:induction false} FrameDiffsSelf(f: Frame, n: nat, w: nat)
    requires n <= |f|
    ensures FrameDiffs(f, f, n, w) == []
  {
    if n > 0 {
      FrameDiffsSelf(f, n - 1, w);
    }
  }

  /** A frame compared with itself has no differences. */
  lemma CompareSelf(f: Frame)
    ensures Compared(f, f) == Some([])
  {
    FrameDiffsSelf(f, |f|, WordBits);
  }

  /** A word contributes as many pairs as its exclusive-or with the other
      word has bits set among the low 32. */
  lemma {:induction false} WordDiffsCount(i: nat, a: nat, b: nat, n: nat)
    ensures |WordDiffs(i, a, b, n)| == PopCount(Xor(a, b), n)
  {
    if n > 0 {
      WordDiffsCount(i, a, b, n - 1);
      XorBit(a, b, n - 1);
      DiffersBit(a, b, n - 1);
    }
  }

  // ---------------------------------------------------------------------
  // Keeping the pairs a diff reports

  /** Whether the pair `s` is kept, or `None` where the third frame is too
      short to index and `frame3[pair[0]]` raises. */
  function Kept(filter: Filter, f3: Frame, s: Spot): Option<bool>
  {
    match filter
    case Everything => Some(true)
    case Unmasked => if s.word < |f3| then Some(!IsSet(f3[s.word], s.bit)) else None
    case Essential => if s.word < |f3| then Some(IsSet(f3[s.word], s.bit)) else None
  }

  /** The `for pair in diffList` loop: the kept pairs, in order, as upsets
      of the frame `frad`. */
  function Selected(frad: nat, d: seq<Spot>, f3: Frame, filter: Filter): Option<seq<Upset>>
  {
    if d == [] then Some([])
    else
      var s := d[|d| - 1];
      match Selected(frad, d[..|d| - 1], f3, filter)
      case None => None
      case Some(u) =>
        match Kept(filter, f3, s)
        case None => None
        case Some(keep) => Some(u + if keep then [Upset(frad, s.word, s.bit)] else [])
  }

  /** The loop raises exactly when a pair's word is past the end of the
      third frame (never for a plain diff). */
  lemma {:induction false} SelectedDefined(frad: nat, d: seq<Spot>, f3: Frame, filter: Filter)
    ensures Selected(frad, d, f3, filter).Some? <==>
      filter == Everything || forall k :: 0 <= k < |d| ==> d[k].word < |f3|
  {
    if d != [] {
      var init := d[..|d| - 1];
      SelectedDefined(frad, init, f3, filter);
      if filter != Everything && forall k :: 0 <= k < |init| ==> init[k].word < |f3| {
        assert forall k :: 0 <= k < |init| ==> init[k] == d[k];
      }
    }
  }

  /** An upset is reported exactly when it belongs to the frame, its pair
      is one of the differences and the filter keeps it. */
  lemma {:induction false} SelectedIff(frad: nat, d: seq<Spot>, f3: Frame, filter: Filter, up: Upset)
    requires Selected(frad, d, f3, filter).Some?
    ensures up in Selected(frad, d, f3, filter).value <==>
      up.frad == frad && Spot(up.word, up.bit) in d && Kept(filter, f3, Spot(up.word, up.bit)) == Some(true)
  {
    if d != [] {
      var init := d[..|d| - 1];
      SelectedIff(frad, init, f3, filter, up);
      assert d == init + [d[|d| - 1]];
    }
  }

  /** A mask splits the differences: the unmasked upsets and the masked
      ones (those an essential-bit frame of the same words would keep)
      together are all of them. */
  lemma {:induction false} SelectedSplit(frad: nat, d: seq<Spot>, f3: Frame)
    requires Selected(frad, d, f3, Unmasked).Some?
    ensures Selected(frad, d, f3, Essential).Some? && Selected(frad, d, f3, Everything).Some?
    ensures multiset(Selected(frad, d, f3, Unmasked).value) + multiset(Selected(frad, d, f3, Essential).value) ==
      multiset(Selected(frad, d, f3, Everything).value)
  {
    if d != [] {
      var init, s := d[..|d| - 1], d[|d| - 1];
      SelectedSplit(frad, init, f3);
      var u, m, a := Selected(frad, init, f3, Unmasked).value, Selected(frad, init, f3, Essential).value,
        Selected(frad, init, f3, Everything).value;
      var up := Upset(frad, s.word, s.bit);
      SplitStep(u, m, a, up);
      assert s.word < |f3|;
      if !IsSet(f3[s.word], s.bit) {
        assert Selected(frad, d, f3, Unmasked) == Some(u + [up]);
        assert Selected(frad, d, f3, Essential) == Some(m + []);
      } else {
        assert Selected(frad, d, f3, Unmasked) == Some(u + []);
        assert Selected(frad, d, f3, Essential) == Some(m + [up]);
      }
      assert Selected(frad, d, f3, Everything) == Some(a + [up]);
    }
  }

  lemma SplitStep(u: seq<Upset>, m: seq<Upset>, a: seq<Upset>, up: Upset)
    requires multiset(u) + multiset(m) == multiset(a)
    ensures multiset(u + [up]) + multiset(m + []) == multiset(a + [up])
    ensures multiset(u + []) + multiset(m + [up]) == multiset(a + [up])
  {
    assert u + [] == u && m + [] == m;
  }

  /** A plain diff does not look at the third frame. */
  lemma FrameUpsetsIgnores(frad: nat, f1: Frame, f2: Frame, f3: Frame, g3: Frame)
    ensures FrameUpsets(frad, f1, f2, f3, Everything) == FrameUpsets(frad, f1, f2, g3, Everything)
  {
    if Compared(f1, f2).Some? {
      SelectedIgnores(frad, Compared(f1, f2).value, f3, g3);
    }
  }

  lemma {:induction false} SelectedIgnores(frad: nat, d: seq<Spot>, f3: Frame, g3: Frame)
    ensures Selected(frad, d, f3, Everything) == Selected(frad, d, g3, Everything)
  {
    if d != [] {
      SelectedIgnores(frad, d[..|d| - 1], f3, g3);
    }
  }

  /** The upsets one frame contributes. */
  function FrameUpsets(frad: nat, f1: Frame, f2: Frame, f3: Frame, filter: Filter): Option<seq<Upset>>
  {
    match Compared(f1, f2)
    case None => None
    case Some(d) => Selected(frad, d, f3, filter)
  }

  // ---------------------------------------------------------------------
  // Walking the structures

  /** The cursor of a structure after `k` calls of `step_forward` from
      address 0. */
  function StepN(s: Store, hasHalf: bool, k: nat): (x: Coord)
    requires WellFormed(ShapeOf(s), hasHalf)
    ensures Valid(ShapeOf(s), x)
  {
    OriginValid(ShapeOf(s), hasHalf);
    NextN(ShapeOf(s), hasHalf, Origin, k)
  }

  lemma StepNNext(s: Store, hasHalf: bool, k: nat)
    requires WellFormed(ShapeOf(s), hasHalf)
    ensures StepN(s, hasHalf, k + 1) == Next(ShapeOf(s), hasHalf, StepN(s, hasHalf, k))
  {
    OriginValid(ShapeOf(s), hasHalf);
    NextNAdd(ShapeOf(s), hasHalf, Origin, k, 1);
    NextOne(ShapeOf(s), hasHalf, StepN(s, hasHalf, k));
  }

  /** One turn of the frame loop of the diffs: the address of the first
      structure's cursor and the frames under the three cursors. */
  datatype Visit = Visit(frad: nat, f1: Frame, f2: Frame, f3: Frame)

  /** The turn after `k` steps: store `a` (with configuration `ca`, which
      composes the address reported) against store `b`, with store `m` as
      the third structure; each store is walked in its own step order. */
  function VisitAt(a: Store, ca: SeriesConfig, b: Store, hb: bool, m: Store, hm: bool, k: nat): Visit
    requires WellFormed(ShapeOf(a), ca.hasHalf) && WellFormed(ShapeOf(b), hb) && WellFormed(ShapeOf(m), hm)
  {
    var x := StepN(a, ca.hasHalf, k);
    Visit(Compose(ca, x), FrameAt(a, x), FrameAt(b, StepN(b, hb, k)), FrameAt(m, StepN(m, hm, k)))
  }

  /** The first `n` turns. */
  function Visits(a: Store, ca: SeriesConfig, b: Store, hb: bool, m: Store, hm: bool, n: nat): (vs: seq<Visit>)
    requires WellFormed(ShapeOf(a), ca.hasHalf) && WellFormed(ShapeOf(b), hb) && WellFormed(ShapeOf(m), hm)
    ensures |vs| == n
  {
    seq(n, k requires 0 <= k < n => VisitAt(a, ca, b, hb, m, hm, k))
  }

  ghost predicate Walked(vs: seq<Visit>, a: Store, ca: SeriesConfig, b: Store, hb: bool, m: Store, hm: bool)
    requires WellFormed(ShapeOf(a), ca.hasHalf) && WellFormed(ShapeOf(b), hb) && WellFormed(ShapeOf(m), hm)
  {
    forall k {:trigger Pin(k)} :: 0 <= k < |vs| ==> vs[k] == VisitAt(a, ca, b, hb, m, hm, k)
  }

  lemma VisitsWalked(a: Store, ca: SeriesConfig, b: Store, hb: bool, m: Store, hm: bool, n: nat)
    requires WellFormed(ShapeOf(a), ca.hasHalf) && WellFormed(ShapeOf(b), hb) && WellFormed(ShapeOf(m), hm)
    ensures Walked(Visits(a, ca, b, hb, m, hm, n), a, ca, b, hb, m, hm)
  {
  }

  lemma WalkedAt(vs: seq<Visit>, a: Store, ca: SeriesConfig, b: Store, hb: bool, m: Store, hm: bool, k: nat)
    requires WellFormed(ShapeOf(a), ca.hasHalf) && WellFormed(ShapeOf(b), hb) && WellFormed(ShapeOf(m), hm)
    requires Walked(vs, a, ca, b, hb, m, hm) && k < |vs|
    ensures vs[k] == VisitAt(a, ca, b, hb, m, hm, k)
  {
    assert Pin(k) == k;
  }

  /** The upsets of one stretch of frames, then of the next; `None` once
      one of them raises. */
  function Then(u: Option<seq<Upset>>, v: Option<seq<Upset>>): Option<seq<Upset>>
  {
    if u.Some? && v.Some? then Some(u.value + v.value) else None
  }

  /** The upsets the loop collects over the turns `vs`; `None` when a
      frame raises. */
  function UpsetsOf(vs: seq<Visit>, filter: Filter): Option<seq<Upset>>
  {
    if vs == [] then Some([])
    else
      var v := vs[|vs| - 1];
      Then(UpsetsOf(vs[..|vs| - 1], filter), FrameUpsets(v.frad, v.f1, v.f2, v.f3, filter))
  }

  /** One more turn. */
  lemma UpsetsSnoc(vs: seq<Visit>, i: nat, filter: Filter)
    requires i < |vs|
    ensures UpsetsOf(vs[..i + 1], filter) ==
      Then(UpsetsOf(vs[..i], filter), FrameUpsets(vs[i].frad, vs[i].f1, vs[i].f2, vs[i].f3, filter))
  {
    assert vs[..i + 1][..i] == vs[..i];
  }

  /** All the turns taken. */
  lemma UpsetsWhole(vs: seq<Visit>, filter: Filter)
    ensures UpsetsOf(vs[..|vs|], filter) == UpsetsOf(vs, filter)
  {
    assert vs[..|vs|] == vs;
  }

  /** The upsets of visit `i` extend those of the visits before it, or
      end the walk with `None`. */
  lemma LookExtends(vs: seq<Visit>, i: nat, filter: Filter, done: seq<Upset>, found: Option<seq<Upset>>)
    requires i < |vs| && UpsetsOf(vs[..i], filter) == Some(done)
    requires found == FrameUpsets(vs[i].frad, vs[i].f1, vs[i].f2, vs[i].f3, filter)
    ensures found.None? ==> UpsetsOf(vs, filter).None?
    ensures found.Some? ==> UpsetsOf(vs[..i + 1], filter) == Some(done + found.value)
  {
    UpsetsSnoc(vs, i, filter);
    if found.None? {
      UpsetsRaised(vs, i + 1, filter);
    }
  }

  /** Once a turn raises, the loop reports nothing at all. */
  lemma {:induction false} UpsetsRaised(vs: seq<Visit>, j: nat, filter: Filter)
    requires j <= |vs| && UpsetsOf(vs[..j], filter).None?
    ensures UpsetsOf(vs, filter).None?
  {
    if j < |vs| {
      var init := vs[..|vs| - 1];
      assert init[..j] == vs[..j];
      UpsetsRaised(init, j, filter);
    } else {
      assert vs[..j] == vs;
    }
  }

  /** Turns whose two frames are equal report nothing, whatever the
      filter. */
  lemma {:induction false} UpsetsSame(vs: seq<Visit>, filter: Filter)
    requires forall k :: 0 <= k < |vs| ==> vs[k].f1 == vs[k].f2
    ensures UpsetsOf(vs, filter) == Some([])
  {
    if vs != [] {
      var v := vs[|vs| - 1];
      UpsetsSame(vs[..|vs| - 1], filter);
      CompareSelf(v.f1);
      var none: seq<Upset> := [];
      assert none + none == none;
    }
  }

  /** Comparing a structure with itself visits equal frames: `diff`
      reports nothing. */
  lemma StoresSame(a: Store, ca: SeriesConfig, m: Store, hm: bool, n: nat, filter: Filter)
    requires WellFormed(ShapeOf(a), ca.hasHalf) && WellFormed(ShapeOf(m), hm)
    ensures UpsetsOf(Visits(a, ca, a, ca.hasHalf, m, hm, n), filter) == Some([])
  {
    var vs := Visits(a, ca, a, ca.hasHalf, m, hm, n);
    UpsetsSame(vs, filter);
  }

  /** The split of `SelectedSplit`, for one frame. */
  lemma FrameUpsetsSplit(frad: nat, f1: Frame, f2: Frame, f3: Frame)
    requires FrameUpsets(frad, f1, f2, f3, Unmasked).Some?
    ensures FrameUpsets(frad, f1, f2, f3, Essential).Some? && FrameUpsets(frad, f1, f2, f3, Everything).Some?
    ensures multiset(FrameUpsets(frad, f1, f2, f3, Unmasked).value) +
      multiset(FrameUpsets(frad, f1, f2, f3, Essential).value) ==
      multiset(FrameUpsets(frad, f1, f2, f3, Everything).value)
  {
    SelectedSplit(frad, Compared(f1, f2).value, f3);
  }

  /** With the same structure as mask and as essential-bit map, the
      upsets `diff_ignore_masked` reports and those `find_essential_upsets`
      reports are, together, the upsets `diff` reports over the same
      frames. */
  lemma {:induction false} UpsetsSplit(vs: seq<Visit>)
    requires UpsetsOf(vs, Unmasked).Some?
    ensures UpsetsOf(vs, Essential).Some? && UpsetsOf(vs, Everything).Some?
    ensures multiset(UpsetsOf(vs, Unmasked).value) + multiset(UpsetsOf(vs, Essential).value) ==
      multiset(UpsetsOf(vs, Everything).value)
  {
    if vs != [] {
      var v := vs[|vs| - 1];
      UpsetsSplit(vs[..|vs| - 1]);
      FrameUpsetsSplit(v.frad, v.f1, v.f2, v.f3);
    }
  }
}
