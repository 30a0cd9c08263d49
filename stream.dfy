/** The binary formats read as a sequence of bytes: 32-bit words made of
    four bytes, the byte-wise search for the sync word and the word-wise
    search for a Type-2 packet header. */
module Streams {
  import opened Wrappers
  import opened Bits
  import opened Packing

  type Byte = b: nat | b < 256

  /** The four byte fields of a 32-bit word, most significant first. */
  const ByteFields: seq<Field> := [Field(24, 8), Field(16, 8), Field(8, 8), Field(0, 8)]

  /** `0xAA995566`, byte by byte, as it appears in the file. */
  const SyncWord: seq<Byte> := [0xAA, 0x99, 0x55, 0x66]

  /** The Type-2 header tests: bits 30 and 28 for a write, 30 and 27 for a
      read. */
  const Type2WriteMask := 0x5000_0000
  const Type2ReadMask := 0x4800_0000

  // ---------------------------------------------------------------------
  // Words

  /** The value of four bytes, most significant first. */
  function Word(b0: Byte, b1: Byte, b2: Byte, b3: Byte): nat
  {
    b0 as nat * 0x100_0000 + b1 as nat * 0x1_0000 + b2 as nat * 0x100 + b3
  }

  /** `(b0 << 24) | (b1 << 16) | (b2 << 8) | b3`, as the source writes it. */
  function Join(b0: Byte, b1: Byte, b2: Byte, b3: Byte): nat
  {
    OrAll(Placed([b0, b1, b2, b3], ByteFields))
  }

  lemma Sum4(a: nat, b: nat, c: nat, d: nat)
    ensures Sum([a, b, c, d]) == a + b + c + d
  {
    assert [a, b, c, d][..3] == [a, b, c];
    assert [a, b, c][..2] == [a, b];
    assert [a, b][..1] == [a];
    assert [a][..0] == [];
    assert Sum([a]) == a;
    assert Sum([a, b]) == a + b;
    assert Sum([a, b, c]) == a + b + c;
  }

  /** The shifted bytes do not overlap, so OR-ing them adds them, and the
      word is below `2^32`. */
  lemma JoinIsSum(b0: Byte, b1: Byte, b2: Byte, b3: Byte)
    ensures Join(b0, b1, b2, b3) == Word(b0, b1, b2, b3)
    ensures Join(b0, b1, b2, b3) < 0x1_0000_0000
  {
    Pow2Table();
    var vs: seq<nat> := [b0, b1, b2, b3];
    assert FitsAll(vs, ByteFields);
    assert Stacked(ByteFields);
    OrAllStacked(vs, ByteFields);
    var p := Placed(vs, ByteFields);
    assert p == [b0 as nat * 0x100_0000, b1 as nat * 0x1_0000, b2 as nat * 0x100, b3];
    Sum4(p[0], p[1], p[2], p[3]);
  }

  /** The bytes of a 32-bit word, most significant first. */
  function Split(w: nat): (bs: seq<Byte>)
    requires w < 0x1_0000_0000
    ensures |bs| == 4
  {
    [w / 0x100_0000, (w / 0x1_0000) % 0x100, (w / 0x100) % 0x100, w % 0x100]
  }

  /** Splitting a word and joining its bytes gives the word back. */
  lemma JoinSplit(w: nat)
    requires w < 0x1_0000_0000
    ensures var bs := Split(w); Join(bs[0], bs[1], bs[2], bs[3]) == w
  {
    var bs := Split(w);
    JoinIsSum(bs[0], bs[1], bs[2], bs[3]);
    var q1, q2 := w / 0x1_0000, w / 0x100;
    DivDiv(w, 0x100, 0x100);
    DivDiv(w, 0x1_0000, 0x100);
    assert q1 == 0x100 * (bs[0] as nat) + bs[1];
    assert q2 == 0x100 * q1 + bs[2];
  }

  /** Joining four bytes and splitting the word gives the bytes back. */
  lemma SplitJoin(b0: Byte, b1: Byte, b2: Byte, b3: Byte)
    ensures Join(b0, b1, b2, b3) < 0x1_0000_0000 && Split(Join(b0, b1, b2, b3)) == [b0, b1, b2, b3]
  {
    JoinIsSum(b0, b1, b2, b3);
    var w := Join(b0, b1, b2, b3);
    var n0, n1, n2, n3: nat := b0, b1, b2, b3;
    DivUnique(w, 0x100_0000, n0, n1 * 0x1_0000 + n2 * 0x100 + n3);
    DivUnique(w, 0x1_0000, n0 * 0x100 + n1, n2 * 0x100 + n3);
    DivUnique(n0 * 0x100 + n1, 0x100, n0, n1);
    DivUnique(w, 0x100, n0 * 0x1_0000 + n1 * 0x100 + n2, n3);
    DivUnique(n0 * 0x1_0000 + n1 * 0x100 + n2, 0x100, n0 * 0x100 + n1, n2);
  }

  /** The word whose first byte is at `pos`: in file order, or with the
      four bytes reversed (`swapEndian`). `None` when fewer than four bytes
      are left: the source indexes the short read, which raises. */
  function WordAt(data: seq<Byte>, pos: nat, swap: bool): (w: Option<nat>)
    ensures w.Some? <==> pos + 4 <= |data|
  {
    if pos + 4 > |data| then None
    else if swap then Some(Word(data[pos + 3], data[pos + 2], data[pos + 1], data[pos]))
    else Some(Word(data[pos], data[pos + 1], data[pos + 2], data[pos + 3]))
  }

  /** A word read in either byte order is the source's shift-and-OR of its
      bytes, and is below `2^32`. */
  lemma WordAtValue(data: seq<Byte>, pos: nat, swap: bool)
    requires pos + 4 <= |data|
    ensures var w := WordAt(data, pos, swap).value;
      w < 0x1_0000_0000 &&
      (!swap ==> w == Join(data[pos], data[pos + 1], data[pos + 2], data[pos + 3])) &&
      (swap ==> w == Join(data[pos + 3], data[pos + 2], data[pos + 1], data[pos]))
  {
    if swap {
      JoinIsSum(data[pos + 3], data[pos + 2], data[pos + 1], data[pos]);
    } else {
      JoinIsSum(data[pos], data[pos + 1], data[pos + 2], data[pos + 3]);
    }
  }

  /** Reading a word in swapped order reads the reversed bytes. */
  lemma SwappedWord(data: seq<Byte>, pos: nat)
    requires pos + 4 <= |data|
    ensures WordAt(data, pos, true) == WordAt([data[pos + 3], data[pos + 2], data[pos + 1], data[pos]], 0, false)
  {
  }

  // ---------------------------------------------------------------------
  // The sync word

  /** One byte through the sync state machine. State `k < 4` has matched
      the first `k` bytes of the sync word; a byte that does not continue
      the match sends it to state 0 and is not looked at again. */
  function SyncStep(state: nat, b: Byte): (s: nat)
    ensures s <= 4
  {
    if state == 0 && b == 0xAA then 1
    else if state == 1 && b == 0x99 then 2
    else if state == 2 && b == 0x55 then 3
    else if state == 3 && b == 0x66 then 4
    else 0
  }

  /** The position just after the sync word, reading from `pos` in
      `state`; `None` when the data ends first (the source then applies
      `ord` to an empty read, which raises). */
  function SyncFrom(data: seq<Byte>, pos: nat, state: nat): Option<nat>
    requires pos <= |data| && state < 4
    decreases |data| - pos
  {
    if pos == |data| then None
    else
      var s := SyncStep(state, data[pos]);
      if s == 4 then Some(pos + 1) else SyncFrom(data, pos + 1, s)
  }

  /** The state machine of `parse_bit_file` and `parse_rbb_file`: the
      position just after the sync word. */
  method FindSync(data: seq<Byte>) returns (r: Option<nat>)
    ensures r == SyncFrom(data, 0, 0)
  {
    var state := 0;
    var pos := 0;
    while state != 4
      invariant pos <= |data| && state <= 4
      invariant state < 4 ==> SyncFrom(data, pos, state) == SyncFrom(data, 0, 0)
      invariant state == 4 ==> SyncFrom(data, 0, 0) == Some(pos)
      decreases |data| - pos, 4 - state
    {
      if pos == |data| {
        return None;
      }
      var b := data[pos];
      if state == 0 && b == 0xAA {
        state := 1;
      } else if state == 1 && b == 0x99 {
        state := 2;
      } else if state == 2 && b == 0x55 {
        state := 3;
      } else if state == 3 && b == 0x66 {
        state := 4;
      } else {
        state := 0;
      }
      pos := pos + 1;
    }
    return Some(pos);
  }

  /** State `k` holds only right after the first `k` bytes of the sync
      word, so when the machine stops, the last four bytes read are the
      sync word. */
  lemma {:induction false} SyncFromFound(data: seq<Byte>, pos: nat, state: nat)
    requires pos <= |data| && state < 4 && state <= pos
    requires data[pos - state..pos] == SyncWord[..state]
    ensures var r := SyncFrom(data, pos, state);
      r.Some? ==> pos < r.value <= |data| && 4 <= r.value && data[r.value - 4..r.value] == SyncWord
    decreases |data| - pos
  {
    if pos < |data| {
      var s := SyncStep(state, data[pos]);
      assert data[pos + 1 - s..pos + 1] == SyncWord[..s] by {
        if s > 0 {
          assert data[pos + 1 - s..pos + 1] == data[pos - state..pos] + [data[pos]];
        }
      }
      if s < 4 {
        SyncFromFound(data, pos + 1, s);
      }
    }
  }

  lemma SyncFound(data: seq<Byte>)
    ensures var r := SyncFrom(data, 0, 0);
      r.Some? ==> 4 <= r.value <= |data| && data[r.value - 4..r.value] == SyncWord
  {
    SyncFromFound(data, 0, 0);
  }

  /** From state 0, a sync word is recognised where it starts. */
  lemma SyncHere(data: seq<Byte>, pos: nat)
    requires pos + 4 <= |data| && data[pos..pos + 4] == SyncWord
    ensures SyncFrom(data, pos, 0) == Some(pos + 4)
  {
    assert data[pos] == 0xAA && data[pos + 1] == 0x99 && data[pos + 2] == 0x55 && data[pos + 3] == 0x66 by {
      assert data[pos..pos + 4][0] == data[pos];
      assert data[pos..pos + 4][1] == data[pos + 1];
      assert data[pos..pos + 4][2] == data[pos + 2];
      assert data[pos..pos + 4][3] == data[pos + 3];
    }
    assert SyncFrom(data, pos + 3, 3) == Some(pos + 4);
    assert SyncFrom(data, pos + 2, 2) == Some(pos + 4);
    assert SyncFrom(data, pos + 1, 1) == Some(pos + 4);
  }

  /** Bytes other than `0xAA` keep the machine in state 0. */
  lemma {:induction false} SyncSkipsHeader(data: seq<Byte>, pos: nat, stop: nat)
    requires pos <= stop <= |data|
    requires forall i :: pos <= i < stop ==> data[i] != 0xAA
    ensures stop < |data| ==> SyncFrom(data, pos, 0) == SyncFrom(data, stop, 0)
    decreases stop - pos
  {
    if pos < stop {
      SyncSkipsHeader(data, pos + 1, stop);
    }
  }

  /** A sync word with no `0xAA` byte before it is found, and the search
      ends right after it. */
  lemma SyncAfterHeader(data: seq<Byte>, i: nat)
    requires i + 4 <= |data| && data[i..i + 4] == SyncWord
    requires forall k :: 0 <= k < i ==> data[k] != 0xAA
    ensures SyncFrom(data, 0, 0) == Some(i + 4)
  {
    SyncSkipsHeader(data, 0, i);
    SyncHere(data, i);
  }

  /** The byte that breaks a match is not tested again: a sync word right
      after a lone `0xAA` is not recognised. */
  lemma SyncMissedAfterAA()
    ensures SyncFrom([0xAA, 0xAA, 0x99, 0x55, 0x66], 0, 0) == None
  {
    var d: seq<Byte> := [0xAA, 0xAA, 0x99, 0x55, 0x66];
    assert SyncFrom(d, 4, 0) == None;
    assert SyncFrom(d, 3, 0) == None;
    assert SyncFrom(d, 2, 0) == None;
    assert SyncFrom(d, 1, 1) == None;
  }

  // ---------------------------------------------------------------------
  // The Type-2 packet header

  /** `(word & mask) == mask`: every bit of the mask is set in the word. */
  predicate Matches(w: nat, mask: nat)
  {
    And(w, mask) == mask
  }

  /** The word the Type-2 search reads at `pos`, most significant byte
      first. */
  function HeaderWord(data: seq<Byte>, pos: nat): nat
    requires pos + 4 <= |data|
  {
    Join(data[pos], data[pos + 1], data[pos + 2], data[pos + 3])
  }

  /** The position just after the first word from `pos` (in steps of four
      bytes, most significant byte first) that matches the mask; `None` when
      the data runs out first. */
  function Type2From(data: seq<Byte>, pos: nat, mask: nat): Option<nat>
    decreases |data| - pos
  {
    if pos + 4 > |data| then None
    else if Matches(HeaderWord(data, pos), mask) then Some(pos + 4)
    else Type2From(data, pos + 4, mask)
  }

  /** The `while 1` loop of `parse_bit_file` and `parse_rbb_file`. */
  method FindType2(data: seq<Byte>, pos: nat, mask: nat) returns (r: Option<nat>)
    ensures r == Type2From(data, pos, mask)
  {
    var p := pos;
    while true
      invariant Type2From(data, p, mask) == Type2From(data, pos, mask)
      decreases |data| - p
    {
      if p + 4 > |data| {
        return None;
      }
      var word := Join(data[p], data[p + 1], data[p + 2], data[p + 3]);
      if And(word, mask) == mask {
        return Some(p + 4);
      }
      p := p + 4;
    }
  }

  /** The search stops at, and consumes, the first matching word: every
      word it passes over fails the test. */
  lemma {:induction false} Type2First(data: seq<Byte>, pos: nat, mask: nat)
    requires Type2From(data, pos, mask).Some?
    ensures var p := Type2From(data, pos, mask).value;
      pos + 4 <= p <= |data| && (p - pos) % 4 == 0 && Matches(HeaderWord(data, p - 4), mask) &&
      forall q :: pos <= q < p - 4 && (q - pos) % 4 == 0 ==> !Matches(HeaderWord(data, q), mask)
    decreases |data| - pos
  {
    if !Matches(HeaderWord(data, pos), mask) {
      Type2First(data, pos + 4, mask);
    }
  }

  /** When the search finds nothing, no whole word left matches. */
  lemma {:induction false} Type2None(data: seq<Byte>, pos: nat, mask: nat)
    requires Type2From(data, pos, mask).None?
    ensures forall q :: pos <= q && q + 4 <= |data| && (q - pos) % 4 == 0 ==> !Matches(HeaderWord(data, q), mask)
    decreases |data| - pos
  {
    if pos + 4 <= |data| {
      Type2None(data, pos + 4, mask);
    }
  }

  /** Every bit set in `mask` below bit `n` is set in `w`. */
  predicate Covers(w: nat, mask: nat, n: nat)
  {
    forall j :: 0 <= j < n && Bit(mask, j) == 1 ==> Bit(w, j) == 1
  }

  lemma MatchesStep(w: nat, mask: nat)
    ensures Matches(w, mask) <==> (mask % 2 == 1 ==> w % 2 == 1) && Matches(w / 2, mask / 2)
  {
    AndStep(w, mask);
  }

  lemma CoversStep(w: nat, mask: nat, n: nat)
    requires n > 0
    ensures Covers(w, mask, n) <==> (mask % 2 == 1 ==> w % 2 == 1) && Covers(w / 2, mask / 2, n - 1)
  {
    assert Bit(mask, 0) == mask % 2 && Bit(w, 0) == w % 2;
    forall j | 0 <= j < n - 1
      ensures Bit(mask, j + 1) == Bit(mask / 2, j) && Bit(w, j + 1) == Bit(w / 2, j)
    {
      BitHalf(mask, j);
      BitHalf(w, j);
    }
    if Covers(w / 2, mask / 2, n - 1) && (mask % 2 == 1 ==> w % 2 == 1) {
      forall j | 0 <= j < n && Bit(mask, j) == 1
        ensures Bit(w, j) == 1
      {
        if j > 0 {
          assert Bit(mask / 2, j - 1) == 1;
        }
      }
    }
    if Covers(w, mask, n) {
      forall j | 0 <= j < n - 1 && Bit(mask / 2, j) == 1
        ensures Bit(w / 2, j) == 1
      {
        assert Bit(mask, j + 1) == 1;
      }
    }
  }

  /** `(w & mask) == mask` holds exactly when every bit set in the mask is
      set in `w`. */
  lemma {:induction false} MatchesBits(w: nat, mask: nat, n: nat)
    requires mask < Pow2(n)
    ensures Matches(w, mask) <==> Covers(w, mask, n)
    decreases n
  {
    MatchesStep(w, mask);
    if n == 0 {
      assert mask == 0;
    } else {
      MatchesBits(w / 2, mask / 2, n - 1);
      CoversStep(w, mask, n);
    }
  }

  /** The write test asks for bits 30 and 28, the read test for bits 30
      and 27; no other bit of the word matters. */
  lemma MaskBits(w: nat)
    ensures Matches(w, Type2WriteMask) <==> Bit(w, 30) == 1 && Bit(w, 28) == 1
    ensures Matches(w, Type2ReadMask) <==> Bit(w, 30) == 1 && Bit(w, 27) == 1
  {
    Pow2Table();
    assert Type2WriteMask == 5 * Pow2(28) && Type2ReadMask == 9 * Pow2(27);
    MatchesBits(w, Type2WriteMask, 31);
    MatchesBits(w, Type2ReadMask, 31);
    forall j | 0 <= j < 31
      ensures Bit(Type2WriteMask, j) == (if j == 30 || j == 28 then 1 else 0)
      ensures Bit(Type2ReadMask, j) == (if j == 30 || j == 27 then 1 else 0)
    {
      BitOfMultiple(5, 28, j);
      BitOfMultiple(9, 27, j);
      if j >= 27 {
        assert Pow2(1) == 2 && Pow2(2) == 4 && Pow2(3) == 8;
      }
    }
  }

  /** The bits of `q << k`: zero below bit `k`, those of `q` from there. */
  lemma BitOfMultiple(q: nat, k: nat, j: nat)
    ensures Bit(q * Pow2(k), j) == if j < k then 0 else Bit(q, j - k)
  {
    if j < k {
      BitBelowMultiple(q, k, j);
    } else {
      assert Pow2(j) == Pow2(k) * Pow2(j - k) by {
        Pow2Add(k, j - k);
      }
      DivDiv(q * Pow2(k), Pow2(k), Pow2(j - k));
      MulDivCancel(q, Pow2(k));
    }
  }

  lemma BitBelowMultiple(q: nat, k: nat, j: nat)
    requires j < k
    ensures Bit(q * Pow2(k), j) == 0
  {
    var p, e := Pow2(k - j - 1), Pow2(j);
    var c := q * (2 * p);
    assert Pow2(k) == (2 * p) * e by {
      Pow2Add(k - j, j);
    }
    assert q * Pow2(k) == c * e by {
      MulAssociative(q, 2 * p, e);
    }
    MulDivCancel(c, e);
    assert c == 2 * (q * p);
  }
}
