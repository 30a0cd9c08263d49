/** `load_frads`: building the five-level list from the lines of a frame
    address file. Each line holds one address as eight hexadecimal digits
    from column 4. */
module Loading {
  import opened Wrappers
  import opened Series
  import opened Codec
  import opened Cursor
  import opened Nested

  const AddressStart := 4
  const AddressSize := 8
  /** The address of a pad frame: it is listed but gets no frame. */
  const DummyFrame := 0xFF00_0000

  // ---------------------------------------------------------------------
  // Reading the address out of a line

  /** `line[start:end]`, whose bounds Python clamps to the length. */
  function Slice(line: string, start: nat, end: nat): (s: string)
    requires start <= end
    ensures end <= |line| ==> s == line[start..end]
    ensures |line| <= start ==> s == []
  {
    var lo := if start < |line| then start else |line|;
    var hi := if end < |line| then end else |line|;
    line[lo..hi]
  }

  function HexDigit(ch: char): (d: Option<nat>)
    ensures d.Some? ==> d.value < 16
  {
    if '0' <= ch <= '9' then Some(ch as nat - '0' as nat)
    else if 'a' <= ch <= 'f' then Some(ch as nat - 'a' as nat + 10)
    else if 'A' <= ch <= 'F' then Some(ch as nat - 'A' as nat + 10)
    else None
  }

  function HexSpan(n: nat): (r: nat)
    ensures r > 0
  {
    if n == 0 then 1 else 16 * HexSpan(n - 1)
  }

  /** A string of hexadecimal digits, most significant first, as a number;
      `None` for the empty string or any other character. */
  function HexValue(s: string): (r: Option<nat>)
    ensures r.Some? <==> |s| > 0 && forall i :: 0 <= i < |s| ==> HexDigit(s[i]).Some?
    ensures r.Some? ==> r.value < HexSpan(|s|)
  {
    if |s| == 0 then None
    else
      var d := HexDigit(s[|s| - 1]);
      if d.None? then None
      else if |s| == 1 then d
      else
        var p := HexValue(s[..|s| - 1]);
        assert forall i :: 0 <= i < |s| - 1 ==> s[..|s| - 1][i] == s[i];
        if p.None? then None else Some(16 * p.value + d.value)
  }

  /** The characters C's `isspace` accepts: `int` skips them around the
      number. */
  predicate IsSpace(ch: char)
  {
    ch == ' ' || ch == '\t' || ch == '\n' || ch == '\r' || ch == '\U{0B}' || ch == '\U{0C}'
  }

  predicate AllSpace(s: string)
  {
    forall i :: 0 <= i < |s| ==> IsSpace(s[i])
  }

  /** `s` without its leading white space. */
  function SkipSpace(s: string): (r: string)
    ensures |r| <= |s|
    ensures |r| > 0 ==> !IsSpace(r[0])
  {
    if |s| > 0 && IsSpace(s[0]) then SkipSpace(s[1..]) else s
  }

  /** `s` without its trailing white space. */
  function TrimEnd(s: string): (r: string)
    ensures |r| <= |s|
    ensures |r| > 0 ==> !IsSpace(r[|r| - 1])
  {
    if |s| > 0 && IsSpace(s[|s| - 1]) then TrimEnd(s[..|s| - 1]) else s
  }

  /** `0x` or `0X` followed by a digit, which `int(s, 16)` passes over. */
  predicate HexPrefixed(s: string)
  {
    |s| > 2 && s[0] == '0' && (s[1] == 'x' || s[1] == 'X') && HexDigit(s[2]).Some?
  }

  /** `int(s, 16)` as Python 2 reads a string: white space around the
      number, an optional sign followed by optional white space, an
      optional `0x`/`0X` before the first digit, then hexadecimal digits;
      anything else raises `ValueError` (`None`). The value has no more
      hexadecimal digits than the string has characters. */
  function ParseHex(s: string): (r: Option<int>)
    ensures r.Some? ==> -(HexSpan(|s|) as int) < r.value < HexSpan(|s|)
  {
    var t := SkipSpace(TrimEnd(s));
    var r := ParseSigned(t);
    if r.Some? then HexSpanGrows(|t|, |s|); r else r
  }

  /** The number without the white space around it: a sign, white space,
      then the digits. */
  function ParseSigned(t: string): (r: Option<int>)
    ensures r.Some? ==> -(HexSpan(|t|) as int) < r.value < HexSpan(|t|)
  {
    if |t| > 0 && (t[0] == '+' || t[0] == '-') then
      var u := SkipSpace(t[1..]);
      match ParseUnsigned(u)
      case None => None
      case Some(v) =>
        HexSpanGrows(|u|, |t|);
        var w: int := v;
        Some(if t[0] == '-' then -w else w)
    else ParseUnsigned(t)
  }

  /** The digits, after an optional `0x` or `0X`. */
  function ParseUnsigned(u: string): (r: Option<nat>)
    ensures r.Some? ==> r.value < HexSpan(|u|)
  {
    var digits := if HexPrefixed(u) then u[2..] else u;
    var r := HexValue(digits);
    if r.Some? then HexSpanGrows(|digits|, |u|); r else r
  }

  lemma {:induction false} HexSpanGrows(m: nat, n: nat)
    requires m <= n
    ensures HexSpan(m) <= HexSpan(n)
    decreases n
  {
    if m < n {
      HexSpanGrows(m, n - 1);
    }
  }

  /** The digit a writer of the address file uses for `d`. */
  function DigitChar(d: nat): (ch: char)
    requires d < 16
    ensures HexDigit(ch) == Some(d)
  {
    if d < 10 then ('0' as nat + d) as char else ('a' as nat + d - 10) as char
  }

  /** `v` as `n` hexadecimal digits, most significant first. */
  function FormatHex(v: nat, n: nat): (s: string)
    ensures |s| == n
  {
    if n == 0 then [] else FormatHex(v / 16, n - 1) + [DigitChar(v % 16)]
  }

  /** Reading back written digits gives the number. */
  lemma {:induction false} ValueFormat(v: nat, n: nat)
    requires n > 0 && v < HexSpan(n)
    ensures HexValue(FormatHex(v, n)) == Some(v)
    decreases n
  {
    var s := FormatHex(v, n);
    assert s[..n - 1] == FormatHex(v / 16, n - 1);
    if n > 1 {
      ValueFormat(v / 16, n - 1);
    }
  }

  /** Reading back a written address gives the address. */
  lemma ParseFormat(v: nat, n: nat)
    requires n > 0 && v < HexSpan(n)
    ensures ParseHex(FormatHex(v, n)) == Some(v)
  {
    var d := FormatHex(v, n);
    assert [] + [] + [] + [] + d + [] == d;
    ParseWritten([], [], [], [], v, n, []);
  }

  /** `int(s, 16)` reads a written number through white space before and
      after it, a `+` or `-` sign with white space after it, and a `0x` or
      `0X` prefix. */
  lemma ParseWritten(before: string, sign: string, gap: string, prefix: string, v: nat, n: nat, after: string)
    requires n > 0 && v < HexSpan(n)
    requires AllSpace(before) && AllSpace(gap) && AllSpace(after)
    requires sign == [] || sign == ['+'] || sign == ['-']
    requires prefix == [] || prefix == ['0', 'x'] || prefix == ['0', 'X']
    ensures ParseHex(before + sign + gap + prefix + FormatHex(v, n) + after) ==
      Some(if sign == ['-'] then -(v as int) else v)
  {
    ValueFormat(v, n);
    ParseDigits(before, sign, gap, prefix, FormatHex(v, n), v, after);
  }

  /** The same for any digits, read as `HexValue` reads them. */
  lemma ParseDigits(before: string, sign: string, gap: string, prefix: string, d: string, v: nat, after: string)
    requires HexValue(d) == Some(v)
    requires AllSpace(before) && AllSpace(gap) && AllSpace(after)
    requires sign == [] || sign == ['+'] || sign == ['-']
    requires prefix == [] || prefix == ['0', 'x'] || prefix == ['0', 'X']
    ensures ParseHex(before + sign + gap + prefix + d + after) == Some(if sign == ['-'] then -(v as int) else v)
  {
    UnsignedWritten(prefix, d, v);
    Regroup(before, sign, gap, prefix, d, after);
    if sign == [] {
      ParsePlain(before + gap, prefix + d, after, v);
    } else {
      ParseSignAround(before, sign, gap, prefix + d, after, v);
    }
  }

  lemma Regroup(before: string, sign: string, gap: string, prefix: string, d: string, after: string)
    ensures sign == [] ==> before + sign + gap + prefix + d + after == (before + gap) + (prefix + d) + after
    ensures before + sign + gap + prefix + d + after == before + (sign + gap + (prefix + d)) + after
  {
  }

  /** Digits without a sign, with white space around them. */
  lemma ParsePlain(lead: string, core: string, after: string, v: nat)
    requires AllSpace(lead) && AllSpace(after) && ParseUnsigned(core) == Some(v)
    requires |core| > 0 && !IsSpace(core[0]) && !IsSpace(core[|core| - 1]) && core[0] != '+' && core[0] != '-'
    ensures ParseHex(lead + core + after) == Some(v)
  {
    TrimSpaces(lead + core, after);
    SkipSpaces(lead, core);
    ParseTrimmed(lead + core + after, lead + core, core);
    UnsignedFirst(core);
  }

  /** Digits after a sign, with white space around them. */
  lemma ParseSignAround(before: string, sign: string, gap: string, core: string, after: string, v: nat)
    requires sign == ['+'] || sign == ['-']
    requires AllSpace(before) && AllSpace(gap) && AllSpace(after) && ParseUnsigned(core) == Some(v)
    requires |core| > 0 && !IsSpace(core[0]) && !IsSpace(core[|core| - 1])
    ensures ParseHex(before + (sign + gap + core) + after) == Some(if sign == ['-'] then -(v as int) else v)
  {
    var t := sign + gap + core;
    assert t[|t| - 1] == core[|core| - 1];
    TrimSpaces(before + t, after);
    SkipSpaces(before, t);
    SignedWritten(sign, gap, core, v);
    ParseTrimmed(before + t + after, before + t, t);
  }

  /** Without a sign, the digits are read as they are. */
  lemma UnsignedFirst(t: string)
    requires |t| > 0 && t[0] != '+' && t[0] != '-'
    ensures ParseSigned(t) == match ParseUnsigned(t) case None => None case Some(v) => Some(v as int)
  {
  }

  /** `ParseHex` reads what is left between the white space. */
  lemma ParseTrimmed(s: string, front: string, t: string)
    requires TrimEnd(s) == front && SkipSpace(front) == t
    ensures ParseHex(s) == ParseSigned(t)
  {
  }

  /** After the sign, white space is skipped. */
  lemma SignedWritten(sign: string, gap: string, core: string, v: nat)
    requires sign == ['+'] || sign == ['-']
    requires AllSpace(gap) && |core| > 0 && !IsSpace(core[0]) && ParseUnsigned(core) == Some(v)
    ensures ParseSigned(sign + gap + core) == Some(if sign == ['-'] then -(v as int) else v)
  {
    var t := sign + gap + core;
    assert t[1..] == gap + core;
    SkipSpaces(gap, core);
  }

  /** The digits, with or without a prefix; nothing around them is white
      space or a sign. */
  lemma UnsignedWritten(prefix: string, d: string, v: nat)
    requires HexValue(d) == Some(v)
    requires prefix == [] || prefix == ['0', 'x'] || prefix == ['0', 'X']
    ensures var core := prefix + d;
      ParseUnsigned(core) == Some(v) && !IsSpace(core[0]) && !IsSpace(core[|core| - 1]) &&
      core[0] != '+' && core[0] != '-'
  {
    var core := prefix + d;
    assert HexDigit(d[0]).Some? && HexDigit(d[|d| - 1]).Some?;
    assert core[|core| - 1] == d[|d| - 1];
    if prefix == [] {
      assert core == d;
      if |d| > 2 {
        assert HexDigit(d[1]).Some?;
      }
    } else {
      assert core[2..] == d && core[2] == d[0];
    }
  }

  /** Leading white space before a string that starts otherwise is skipped
      exactly. */
  lemma {:induction false} SkipSpaces(a: string, s: string)
    requires AllSpace(a) && |s| > 0 && !IsSpace(s[0])
    ensures SkipSpace(a + s) == s
    decreases |a|
  {
    if |a| > 0 {
      assert (a + s)[1..] == a[1..] + s;
      SkipSpaces(a[1..], s);
    }
  }

  /** Trailing white space after a string that ends otherwise is trimmed
      exactly. */
  lemma {:induction false} TrimSpaces(s: string, a: string)
    requires AllSpace(a) && |s| > 0 && !IsSpace(s[|s| - 1])
    ensures TrimEnd(s + a) == s
    decreases |a|
  {
    if |a| > 0 {
      assert (s + a)[..|s + a| - 1] == s + a[..|a| - 1];
      TrimSpaces(s, a[..|a| - 1]);
    } else {
      assert s + a == s;
    }
  }

  /** `s` written as `int(s, 16)` accepts a number: white space, an
      optional sign, white space, an optional `0x` or `0X`, the digits
      `d`, white space. */
  predicate WrittenAs(s: string, before: string, sign: string, gap: string, prefix: string, d: string, after: string)
  {
    AllSpace(before) && AllSpace(gap) && AllSpace(after) &&
    (sign == [] || sign == ['+'] || sign == ['-']) &&
    (prefix == [] || prefix == ['0', 'x'] || prefix == ['0', 'X']) &&
    HexValue(d).Some? &&
    s == before + sign + gap + prefix + d + after
  }

  /** Conversely to `ParseDigits`, every string `int(s, 16)` accepts is
      written in that form, and is read as its digits with the sign. */
  lemma ParseAccepted(s: string)
    requires ParseHex(s).Some?
    ensures exists before, sign, gap, prefix, d, after ::
      WrittenAs(s, before, sign, gap, prefix, d, after) &&
      ParseHex(s).value == (if sign == ['-'] then -(HexValue(d).value as int) else HexValue(d).value)
  {
    var before, t, after := SplitSpaces(s);
    var sign, gap, prefix, d := SplitSigned(t);
    Associative(before, sign, gap);
    Associative(before, sign + gap, prefix);
    Associative(before, sign + gap + prefix, d);
    assert WrittenAs(s, before, sign, gap, prefix, d, after);
  }

  /** The white space `ParseHex` strips, and what it leaves. */
  lemma SplitSpaces(s: string) returns (before: string, t: string, after: string)
    ensures s == before + t + after && AllSpace(before) && AllSpace(after)
    ensures t == SkipSpace(TrimEnd(s)) && ParseHex(s) == ParseSigned(t)
  {
    var front := TrimEnd(s);
    TrimEndSplit(s);
    after := s[|front|..];
    t := SkipSpace(front);
    SkipSpaceSplit(front);
    before := front[..|front| - |t|];
    assert front == before + t;
    assert s == front + after;
  }

  /** The sign, the white space after it, the prefix and the digits of a
      number `ParseSigned` accepts. */
  lemma SplitSigned(t: string) returns (sign: string, gap: string, prefix: string, d: string)
    requires ParseSigned(t).Some?
    ensures t == sign + gap + prefix + d && AllSpace(gap)
    ensures sign == [] || sign == ['+'] || sign == ['-']
    ensures prefix == [] || prefix == ['0', 'x'] || prefix == ['0', 'X']
    ensures HexValue(d).Some? &&
      ParseSigned(t).value == (if sign == ['-'] then -(HexValue(d).value as int) else HexValue(d).value)
  {
    if |t| > 0 && (t[0] == '+' || t[0] == '-') {
      var u;
      sign, gap, u := SplitSign(t);
      prefix, d := SplitUnsigned(u);
      Associative(sign + gap, prefix, d);
    } else {
      sign, gap := [], [];
      prefix, d := SplitUnsigned(t);
      assert sign + gap + prefix == prefix;
    }
  }

  lemma Associative(a: string, b: string, c: string)
    ensures a + (b + c) == a + b + c
  {
  }

  /** The sign and the white space after it. */
  lemma SplitSign(t: string) returns (sign: string, gap: string, u: string)
    requires |t| > 0 && (t[0] == '+' || t[0] == '-')
    ensures t == sign + gap + u && AllSpace(gap) && sign == [t[0]]
    ensures u == SkipSpace(t[1..])
  {
    sign := [t[0]];
    var rest := t[1..];
    u := SkipSpace(rest);
    SkipSpaceSplit(rest);
    gap := rest[..|rest| - |u|];
    assert rest == gap + u;
    assert t == sign + rest;
  }

  /** The prefix and the digits of a number `ParseUnsigned` accepts. */
  lemma SplitUnsigned(u: string) returns (prefix: string, d: string)
    requires ParseUnsigned(u).Some?
    ensures u == prefix + d && HexValue(d) == ParseUnsigned(u)
    ensures prefix == [] || prefix == ['0', 'x'] || prefix == ['0', 'X']
  {
    if HexPrefixed(u) {
      prefix, d := [u[0], u[1]], u[2..];
      assert u == prefix + d;
    } else {
      prefix, d := [], u;
      assert u == prefix + d;
    }
  }

  /** Trimming the end keeps a prefix and drops only white space. */
  lemma {:induction false} TrimEndSplit(s: string)
    ensures |TrimEnd(s)| <= |s| && TrimEnd(s) == s[..|TrimEnd(s)|]
    ensures AllSpace(s[|TrimEnd(s)|..])
    decreases |s|
  {
    if |s| > 0 && IsSpace(s[|s| - 1]) {
      var s' := s[..|s| - 1];
      TrimEndSplit(s');
      var k := |TrimEnd(s')|;
      assert s[k..] == s'[k..] + [s[|s| - 1]];
    }
  }

  /** Skipping white space keeps a suffix and drops only white space. */
  lemma {:induction false} SkipSpaceSplit(s: string)
    ensures var k := |s| - |SkipSpace(s)|;
      SkipSpace(s) == s[k..] && AllSpace(s[..k])
    decreases |s|
  {
    if |s| > 0 && IsSpace(s[0]) {
      SkipSpaceSplit(s[1..]);
      var k := |s| - |SkipSpace(s)|;
      assert s[..k] == [s[0]] + s[1..][..k - 1];
    }
  }

  /** The address field of a line. */
  function AddressOf(line: string): Option<int>
  {
    ParseHex(Slice(line, AddressStart, AddressStart + AddressSize))
  }

  /** The bits the masks see in an address: Python's `&` reads a negative
      number in two's complement, and every mask lies in the low 32 bits. */
  function AddressBits(v: int): (u: nat)
    ensures 0 <= v ==> u == v
    ensures v < 0 ==> u < 0x1_0000_0000 && (u - v) % 0x1_0000_0000 == 0
  {
    if v >= 0 then v else v % 0x1_0000_0000
  }

  // ---------------------------------------------------------------------
  // The loader's state and one line of the loop

  /** The fields `load_frads` changes. */
  datatype Loader = Loader(
    store: Store,
    fradArray: seq<int>,
    numFrads: nat,
    numLogicFrames: nat,
    numBramFrames: nat,
    numType2Frames: nat,
    numType3Frames: nat,
    numType4Frames: nat)

  /** The locals `prevType`, `prevTopBottom`, `prevRow` and `prevColumn`. */
  datatype Previous = Previous(t: int, h: int, r: int, c: int)

  const Start := Previous(-1, -1, -1, -1)

  /** The state after a line, and whether the loop goes on (`false`: the
      line raised, leaving the fields as they were at that point). */
  datatype Progress = Progress(ld: Loader, prev: Previous, ok: bool)

  /** `n` plus one if the type is `k`. */
  function CountIf(n: nat, t: nat, k: nat): nat
  {
    if t == k then n + 1 else n
  }

  /** The store and the trackers part-way through the loop body, and
      whether the level just handled added a new list (which forces one at
      the level below). */
  datatype Level = Level(store: Store, prev: Previous, added: bool)

  /** A new type index opens a new type list at the end (series 8 also
      forgets the previous half there). */
  function OpenType(hasHalf: bool, s: Store, prev: Previous, x: Coord): Level
  {
    if x.t != prev.t then Level(AddBlock(s), Previous(x.t, if hasHalf then prev.h else -1, prev.r, prev.c), true)
    else Level(s, prev, false)
  }

  /** A new half index (or a new type) appends a half to type `x.t`;
      `None` when there is no such type list. */
  function OpenHalf(l: Level, x: Coord): Option<Level>
  {
    if x.h != l.prev.h || l.added then
      if x.t < |l.store| then Some(Level(AddHalf(l.store, x.t), l.prev.(h := x.h), true)) else None
    else Some(l.(added := false))
  }

  function OpenRow(l: Level, x: Coord): Option<Level>
  {
    if x.r != l.prev.r || l.added then
      if x.t < |l.store| && x.h < |l.store[x.t]| then
        Some(Level(AddRow(l.store, x.t, x.h), l.prev.(r := x.r), true))
      else None
    else Some(l.(added := false))
  }

  function OpenColumn(l: Level, x: Coord): Option<Level>
  {
    if x.c != l.prev.c || l.added then
      if x.t < |l.store| && x.h < |l.store[x.t]| && x.r < |l.store[x.t][x.h]| then
        Some(Level(AddColumn(l.store, x.t, x.h, x.r), l.prev.(c := x.c), true))
      else None
    else Some(l.(added := false))
  }

  /** The body of the loop for a non-dummy address with indices `x`: open
      a new list at each level where the index differs from the one before
      (and at every level below a new one), then append an empty frame. An
      index with no list to append to raises `IndexError`, leaving the
      store as it was at that point. The minor is never looked at. */
  function Insert(hasHalf: bool, ld: Loader, prev: Previous, x: Coord): Progress
  {
    InsertAtHalf(ld, OpenType(hasHalf, ld.store, prev, x), x)
  }

  /** The rest of `Insert` once the type list is settled. */
  function InsertAtHalf(ld: Loader, l: Level, x: Coord): Progress
  {
    match OpenHalf(l, x)
    case None => Progress(ld.(store := l.store), l.prev, false)
    case Some(l') => InsertAtRow(ld, l', x)
  }

  function InsertAtRow(ld: Loader, l: Level, x: Coord): Progress
  {
    match OpenRow(l, x)
    case None => Progress(ld.(store := l.store), l.prev, false)
    case Some(l') => InsertAtColumn(ld, l', x)
  }

  function InsertAtColumn(ld: Loader, l: Level, x: Coord): Progress
  {
    match OpenColumn(l, x)
    case None => Progress(ld.(store := l.store), l.prev, false)
    case Some(l') => InsertFrame(ld, l', x)
  }

  /** The last step: an empty frame appended to column `x.c`, and counted. */
  function InsertFrame(ld: Loader, l: Level, x: Coord): Progress
  {
    var s := l.store;
    if !(x.t < |s| && x.h < |s[x.t]| && x.r < |s[x.t][x.h]| && x.c < |s[x.t][x.h][x.r]|) then
      Progress(ld.(store := s), l.prev, false)
    else
      Progress(Loader(AddFrame(s, x.t, x.h, x.r, x.c), ld.fradArray, ld.numFrads + 1,
                      CountIf(ld.numLogicFrames, x.t, 0), CountIf(ld.numBramFrames, x.t, 1),
                      CountIf(ld.numType2Frames, x.t, 2), CountIf(ld.numType3Frames, x.t, 3),
                      CountIf(ld.numType4Frames, x.t, 4)),
               l.prev, true)
  }

  /** One line: empty lines are skipped; an unparsable address raises
      `ValueError`; every parsed address is recorded, and all but the dummy
      address get a frame. */
  function LoadLine(cfg: SeriesConfig, ld: Loader, prev: Previous, line: string): Progress
  {
    if |line| == 0 then Progress(ld, prev, true)
    else
      match AddressOf(line)
      case None => Progress(ld, prev, false)
      case Some(v) =>
        var ld' := ld.(fradArray := ld.fradArray + [v]);
        if v == DummyFrame then Progress(ld', prev, true)
        else Insert(cfg.hasHalf, ld', prev, Decode(cfg, AddressBits(v)))
  }

  /** The loop over the lines, stopping at the first line that raises. */
  function LoadLines(cfg: SeriesConfig, ld: Loader, prev: Previous, lines: seq<string>): Progress
    decreases |lines|
  {
    if lines == [] then Progress(ld, prev, true)
    else
      var p := LoadLines(cfg, ld, prev, lines[..|lines| - 1]);
      if !p.ok then p else LoadLine(cfg, p.ld, p.prev, lines[|lines| - 1])
  }

  /** The loop one line further. */
  lemma LoadLinesStep(cfg: SeriesConfig, ld: Loader, prev: Previous, lines: seq<string>, i: nat)
    requires i < |lines|
    ensures var p := LoadLines(cfg, ld, prev, lines[..i]);
      LoadLines(cfg, ld, prev, lines[..i + 1]) == if !p.ok then p else LoadLine(cfg, p.ld, p.prev, lines[i])
  {
    assert lines[..i + 1][..i] == lines[..i];
  }

  /** Once a line has raised, the later lines change nothing. */
  lemma {:induction false} LoadStops(cfg: SeriesConfig, ld: Loader, prev: Previous, lines: seq<string>, i: nat)
    requires i <= |lines| && !LoadLines(cfg, ld, prev, lines[..i]).ok
    ensures LoadLines(cfg, ld, prev, lines) == LoadLines(cfg, ld, prev, lines[..i])
    decreases |lines|
  {
    if i < |lines| {
      var n := |lines| - 1;
      assert lines[..n][..i] == lines[..i];
      LoadStops(cfg, ld, prev, lines[..n], i);
      assert lines[..n] == lines[..n];
    } else {
      assert lines[..i] == lines;
    }
  }

  // ---------------------------------------------------------------------
  // What the loader keeps

  /** The counters agree with the frames in the store: `numFrads` counts
      them all and the per-type counters those of types 0 to 4. */
  predicate Counted(ld: Loader)
  {
    Total(ShapeOf(ld.store)) == ld.numFrads &&
    TypeFrames(ld.store, 0) == ld.numLogicFrames &&
    TypeFrames(ld.store, 1) == ld.numBramFrames &&
    TypeFrames(ld.store, 2) == ld.numType2Frames &&
    TypeFrames(ld.store, 3) == ld.numType3Frames &&
    TypeFrames(ld.store, 4) == ld.numType4Frames
  }

  /** The same number of frames in all, and of each type 0 to 4. */
  predicate SameFrames(a: Store, b: Store)
  {
    Total(ShapeOf(a)) == Total(ShapeOf(b)) &&
    forall k :: 0 <= k < 5 ==> TypeFrames(a, k) == TypeFrames(b, k)
  }

  /** Opening lists adds no frame. */
  lemma OpenTypeFrames(hasHalf: bool, s: Store, prev: Previous, x: Coord)
    ensures SameFrames(OpenType(hasHalf, s, prev, x).store, s)
  {
    AddBlockFrames(s);
  }

  lemma OpenFrames(l: Level, x: Coord)
    ensures OpenHalf(l, x).Some? ==> SameFrames(OpenHalf(l, x).value.store, l.store)
    ensures OpenRow(l, x).Some? ==> SameFrames(OpenRow(l, x).value.store, l.store)
    ensures OpenColumn(l, x).Some? ==> SameFrames(OpenColumn(l, x).value.store, l.store)
  {
    var s, t, h, r := l.store, x.t, x.h, x.r;
    if t < |s| {
      AddHalfFrames(s, t);
      if h < |s[t]| {
        AddRowFrames(s, t, h);
        if r < |s[t][h]| {
          AddColumnFrames(s, t, h, r);
        }
      }
    }
  }

  lemma InsertCounted(hasHalf: bool, ld: Loader, prev: Previous, x: Coord)
    requires Counted(ld)
    ensures Counted(Insert(hasHalf, ld, prev, x).ld)
    ensures Insert(hasHalf, ld, prev, x).ld.fradArray == ld.fradArray
  {
    OpenTypeFrames(hasHalf, ld.store, prev, x);
    AtHalfCounted(ld, OpenType(hasHalf, ld.store, prev, x), x);
  }

  lemma AtHalfCounted(ld: Loader, l: Level, x: Coord)
    requires Counted(ld) && SameFrames(l.store, ld.store)
    ensures Counted(InsertAtHalf(ld, l, x).ld) && InsertAtHalf(ld, l, x).ld.fradArray == ld.fradArray
  {
    OpenFrames(l, x);
    match OpenHalf(l, x)
    case None => SameCounted(ld, l.store, ld.(store := l.store));
    case Some(l') =>
      SameFramesTrans(l'.store, l.store, ld.store);
      AtRowCounted(ld, l', x);
  }

  lemma AtRowCounted(ld: Loader, l: Level, x: Coord)
    requires Counted(ld) && SameFrames(l.store, ld.store)
    ensures Counted(InsertAtRow(ld, l, x).ld) && InsertAtRow(ld, l, x).ld.fradArray == ld.fradArray
  {
    OpenFrames(l, x);
    match OpenRow(l, x)
    case None => SameCounted(ld, l.store, ld.(store := l.store));
    case Some(l') =>
      SameFramesTrans(l'.store, l.store, ld.store);
      AtColumnCounted(ld, l', x);
  }

  lemma AtColumnCounted(ld: Loader, l: Level, x: Coord)
    requires Counted(ld) && SameFrames(l.store, ld.store)
    ensures Counted(InsertAtColumn(ld, l, x).ld) && InsertAtColumn(ld, l, x).ld.fradArray == ld.fradArray
  {
    OpenFrames(l, x);
    match OpenColumn(l, x)
    case None => SameCounted(ld, l.store, ld.(store := l.store));
    case Some(l') =>
      SameFramesTrans(l'.store, l.store, ld.store);
      FrameStepCounted(ld, l', x);
  }

  lemma FrameStepCounted(ld: Loader, l: Level, x: Coord)
    requires Counted(ld) && SameFrames(l.store, ld.store)
    ensures Counted(InsertFrame(ld, l, x).ld) && InsertFrame(ld, l, x).ld.fradArray == ld.fradArray
  {
    var s := l.store;
    if x.t < |s| && x.h < |s[x.t]| && x.r < |s[x.t][x.h]| && x.c < |s[x.t][x.h][x.r]| {
      FrameCounted(ld, s, x);
    } else {
      SameCounted(ld, s, ld.(store := s));
    }
  }

  lemma SameFramesTrans(a: Store, b: Store, c: Store)
    requires SameFrames(a, b) && SameFrames(b, c)
    ensures SameFrames(a, c)
  {
  }

  lemma SameCounted(ld: Loader, s: Store, r: Loader)
    requires Counted(ld) && SameFrames(s, ld.store) && r == ld.(store := s)
    ensures Counted(r)
  {
    assert forall k :: 0 <= k < 5 ==> TypeFrames(s, k) == TypeFrames(ld.store, k);
  }

  lemma FrameCounted(ld: Loader, s: Store, x: Coord)
    requires Counted(ld) && SameFrames(s, ld.store)
    requires x.t < |s| && x.h < |s[x.t]| && x.r < |s[x.t][x.h]| && x.c < |s[x.t][x.h][x.r]|
    ensures Counted(Loader(AddFrame(s, x.t, x.h, x.r, x.c), ld.fradArray, ld.numFrads + 1,
                           CountIf(ld.numLogicFrames, x.t, 0), CountIf(ld.numBramFrames, x.t, 1),
                           CountIf(ld.numType2Frames, x.t, 2), CountIf(ld.numType3Frames, x.t, 3),
                           CountIf(ld.numType4Frames, x.t, 4)))
  {
    AddFrameFrames(s, x.t, x.h, x.r, x.c);
    assert forall k :: 0 <= k < 5 ==> TypeFrames(s, k) == TypeFrames(ld.store, k);
  }

  /** Each non-dummy address adds one frame, counted once in `numFrads` and
      once in the counter of its type; a line that raises leaves the counts
      as they were. */
  lemma LoadLineCounted(cfg: SeriesConfig, ld: Loader, prev: Previous, line: string)
    requires Counted(ld)
    ensures Counted(LoadLine(cfg, ld, prev, line).ld)
  {
    if |line| > 0 && AddressOf(line).Some? {
      var v := AddressOf(line).value;
      if v != DummyFrame {
        InsertCounted(cfg.hasHalf, ld.(fradArray := ld.fradArray + [v]), prev, Decode(cfg, AddressBits(v)));
      }
    }
  }

  lemma {:induction false} LoadLinesCounted(cfg: SeriesConfig, ld: Loader, prev: Previous, lines: seq<string>)
    requires Counted(ld)
    ensures Counted(LoadLines(cfg, ld, prev, lines).ld)
    decreases |lines|
  {
    if lines != [] {
      var p := LoadLines(cfg, ld, prev, lines[..|lines| - 1]);
      LoadLinesCounted(cfg, ld, prev, lines[..|lines| - 1]);
      if p.ok {
        LoadLineCounted(cfg, p.ld, p.prev, lines[|lines| - 1]);
      }
    }
  }

  /** The addresses of the non-empty lines, in order. */
  function Addresses(lines: seq<string>): seq<int>
    decreases |lines|
  {
    if lines == [] then []
    else
      var last := lines[|lines| - 1];
      var rest := Addresses(lines[..|lines| - 1]);
      if |last| == 0 || AddressOf(last).None? then rest else rest + [AddressOf(last).value]
  }

  /** A load that gets through every line records the address of every
      non-empty line, the dummy address included, after those recorded
      before. */
  lemma {:induction false} LoadRecordsAddresses(cfg: SeriesConfig, ld: Loader, prev: Previous, lines: seq<string>)
    requires LoadLines(cfg, ld, prev, lines).ok
    ensures LoadLines(cfg, ld, prev, lines).ld.fradArray == ld.fradArray + Addresses(lines)
    ensures forall i :: 0 <= i < |lines| && |lines[i]| > 0 ==> AddressOf(lines[i]).Some?
    decreases |lines|
  {
    if lines != [] {
      var n := |lines| - 1;
      var p := LoadLines(cfg, ld, prev, lines[..n]);
      LoadRecordsAddresses(cfg, ld, prev, lines[..n]);
      LoadLineRecords(cfg, p.ld, p.prev, lines[n]);
      LoadLinesParsed(cfg, ld, prev, lines);
    }
  }

  /** A load that gets through every line found an address on every
      non-empty line. */
  lemma {:induction false} LoadLinesParsed(cfg: SeriesConfig, ld: Loader, prev: Previous, lines: seq<string>)
    requires LoadLines(cfg, ld, prev, lines).ok
    ensures forall i :: 0 <= i < |lines| && |lines[i]| > 0 ==> AddressOf(lines[i]).Some?
    decreases |lines|
  {
    if lines != [] {
      var n := |lines| - 1;
      var p := LoadLines(cfg, ld, prev, lines[..n]);
      assert p.ok && LoadLine(cfg, p.ld, p.prev, lines[n]).ok;
      LoadLinesParsed(cfg, ld, prev, lines[..n]);
      LoadLineRecords(cfg, p.ld, p.prev, lines[n]);
      AllParsed(lines[..n], lines);
    }
  }

  lemma AllParsed(front: seq<string>, lines: seq<string>)
    requires |lines| > 0 && front == lines[..|lines| - 1]
    requires forall i :: 0 <= i < |front| && |front[i]| > 0 ==> AddressOf(front[i]).Some?
    requires |lines[|lines| - 1]| > 0 ==> AddressOf(lines[|lines| - 1]).Some?
    ensures forall i :: 0 <= i < |lines| && |lines[i]| > 0 ==> AddressOf(lines[i]).Some?
  {
    forall i | 0 <= i < |lines| && |lines[i]| > 0
      ensures AddressOf(lines[i]).Some?
    {
      if i < |front| {
        assert front[i] == lines[i];
      }
    }
  }

  /** One line that does not raise records its address, if it has one. */
  lemma LoadLineRecords(cfg: SeriesConfig, ld: Loader, prev: Previous, line: string)
    requires LoadLine(cfg, ld, prev, line).ok
    ensures |line| > 0 ==> AddressOf(line).Some?
    ensures LoadLine(cfg, ld, prev, line).ld.fradArray ==
      ld.fradArray + (if |line| == 0 then [] else [AddressOf(line).value])
  {
    if |line| > 0 {
      var v := AddressOf(line).value;
      if v != DummyFrame {
        InsertKeepsArray(cfg.hasHalf, ld.(fradArray := ld.fradArray + [v]), prev, Decode(cfg, AddressBits(v)));
      }
    }
  }

  lemma InsertKeepsArray(hasHalf: bool, ld: Loader, prev: Previous, x: Coord)
    ensures Insert(hasHalf, ld, prev, x).ld.fradArray == ld.fradArray
  {
  }

  /** The counters depend on the shape of the store only: filling frames
      with words leaves them right. */
  lemma ShapeCounted(ld: Loader, s: Store)
    requires Counted(ld) && ShapeOf(s) == ShapeOf(ld.store)
    ensures Counted(ld.(store := s))
  {
    ShapeLengths(s);
    ShapeLengths(ld.store);
    forall k | 0 <= k < |s|
      ensures TypeFrames(s, k) == TypeFrames(ld.store, k)
    {
      assert ShapeOf(s)[k] == BlockShape(s[k]);
      assert ShapeOf(ld.store)[k] == BlockShape(ld.store[k]);
    }
  }
}
