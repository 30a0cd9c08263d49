/** The address codec of the frame-address structure: splitting a frame
    address (FRAD) into (type, top/bottom half, row, column, minor) with the
    series' masks and shifts, and composing the five indices back into an
    address. */
module Codec {
  import opened Bits
  import opened Packing
  import opened Series
  import opened Layouts

  /** A position in the frame-address structure: one index per level. */
  datatype Coord = Coord(t: nat, h: nat, r: nat, c: nat, m: nat)

  /** The position (0, 0, 0, 0, 0), where every structure starts. */
  const Origin := Coord(0, 0, 0, 0, 0)

  /** The indices from the most significant field down. */
  function Indices(x: Coord): seq<nat>
  {
    [x.t, x.h, x.r, x.c, x.m]
  }

  /** The decode expressions of the source: each field masked and shifted
      down (the minor has no shift); the half is 0 for series 8. */
  function Decode(cfg: SeriesConfig, frad: nat): Coord
  {
    Coord(Extract(frad, cfg.typeField),
          if cfg.hasHalf then Extract(frad, cfg.halfField) else 0,
          Extract(frad, cfg.rowField),
          Extract(frad, cfg.columnField),
          Extract(frad, cfg.minorField))
  }

  /** `get_current_frad`: the five indices shifted into place and OR-ed
      together left to right, with the column term OR-ed in twice as the
      source writes it. */
  function Compose(cfg: SeriesConfig, x: Coord): nat
  {
    OrAll([Place(x.t, cfg.typeField), Place(x.h, cfg.halfField), Place(x.r, cfg.rowField),
           Place(x.c, cfg.columnField), Place(x.c, cfg.columnField), Place(x.m, cfg.minorField)])
  }

  /** `frad & ~(typeMask | topBottomMask | rowMask | columnMask | minorMask)`
      is non-zero: the address has a bit outside every field. */
  predicate HasExtraneousBits(cfg: SeriesConfig, frad: nat)
  {
    AndNot(frad, AllMasks(cfg)) != 0
  }

  /** Every index fits its field, so that composing loses nothing. */
  predicate Fits(cfg: SeriesConfig, x: Coord)
  {
    FitsAll(Indices(x), Fields(cfg))
  }

  // ---------------------------------------------------------------------
  // Properties of the layout

  /** The fields of every series are stacked from the type down to the
      minor without overlapping. */
  lemma FieldsStacked(series: int)
    requires IsSeries(series)
    ensures Stacked(Fields(Config(series)))
  {
  }

  /** For every series the five masks are pairwise disjoint. */
  lemma MasksDisjoint(series: int)
    requires IsSeries(series)
    ensures var cfg := Config(series);
      And(Mask(cfg.typeField), Mask(cfg.halfField)) == 0 &&
      And(Mask(cfg.typeField), Mask(cfg.rowField)) == 0 &&
      And(Mask(cfg.typeField), Mask(cfg.columnField)) == 0 &&
      And(Mask(cfg.typeField), Mask(cfg.minorField)) == 0 &&
      And(Mask(cfg.halfField), Mask(cfg.rowField)) == 0 &&
      And(Mask(cfg.halfField), Mask(cfg.columnField)) == 0 &&
      And(Mask(cfg.halfField), Mask(cfg.minorField)) == 0 &&
      And(Mask(cfg.rowField), Mask(cfg.columnField)) == 0 &&
      And(Mask(cfg.rowField), Mask(cfg.minorField)) == 0 &&
      And(Mask(cfg.columnField), Mask(cfg.minorField)) == 0
  {
    var cfg := Config(series);
    FieldsApart(cfg.typeField, cfg.rowField);
    FieldsApart(cfg.typeField, cfg.columnField);
    FieldsApart(cfg.typeField, cfg.minorField);
    FieldsApart(cfg.rowField, cfg.columnField);
    FieldsApart(cfg.rowField, cfg.minorField);
    FieldsApart(cfg.columnField, cfg.minorField);
    if cfg.hasHalf {
      FieldsApart(cfg.typeField, cfg.halfField);
      FieldsApart(cfg.halfField, cfg.rowField);
      FieldsApart(cfg.halfField, cfg.columnField);
      FieldsApart(cfg.halfField, cfg.minorField);
    } else {
      assert Mask(cfg.halfField) == 0;
      AndZero(Mask(cfg.typeField));
      AndZero(Mask(cfg.rowField));
      AndZero(Mask(cfg.columnField));
      AndZero(Mask(cfg.minorField));
    }
  }

  lemma AndZero(a: nat)
    ensures And(a, 0) == 0 && And(0, a) == 0
  {
  }

  /** A field placed wholly above another shares no bit with it, in
      either operand order. */
  lemma FieldsApart(hi: Field, lo: Field)
    requires lo.shift + lo.width <= hi.shift
    ensures And(Mask(hi), Mask(lo)) == 0 && And(Mask(lo), Mask(hi)) == 0
  {
    MaskBelow(lo);
    Pow2Monotone(lo.shift + lo.width, hi.shift);
    var k := hi.shift;
    assert Mask(hi) == ((Pow2(hi.width) - 1)) * Pow2(k);
    AndDisjoint(Pow2(hi.width) - 1, Mask(lo), k);
    AndCommutative(Mask(hi), Mask(lo));
  }

  lemma MaskBelow(f: Field)
    ensures Mask(f) < Pow2(f.shift + f.width)
  {
    Pow2Add(f.width, f.shift);
    assert Pow2(f.shift + f.width) == Pow2(f.width) * Pow2(f.shift);
  }

  lemma Pow2Monotone(a: nat, b: nat)
    requires a <= b
    ensures Pow2(a) <= Pow2(b)
  {
    if a < b {
      Pow2Monotone(a, b - 1);
    }
  }

  lemma {:induction false} AndCommutative(a: nat, b: nat)
    ensures And(a, b) == And(b, a)
    decreases a + b
  {
    if a != 0 && b != 0 {
      AndCommutative(a / 2, b / 2);
    }
  }

  /** The all-ones value of every field. */
  function FullFields(fs: seq<Field>): (vs: seq<nat>)
    ensures FitsAll(vs, fs)
  {
    seq(|fs|, i requires 0 <= i < |fs| => Pow2(fs[i].width) - 1)
  }

  /** The masks are the full values placed in their fields. */
  lemma PlacedFull(cfg: SeriesConfig)
    ensures Placed(FullFields(Fields(cfg)), Fields(cfg)) ==
      [Mask(cfg.typeField), Mask(cfg.halfField), Mask(cfg.rowField), Mask(cfg.columnField), Mask(cfg.minorField)]
  {
    var fs := Fields(cfg);
    var p := Placed(FullFields(fs), fs);
    PlacedFullAt(fs, 0);
    PlacedFullAt(fs, 1);
    PlacedFullAt(fs, 2);
    PlacedFullAt(fs, 3);
    PlacedFullAt(fs, 4);
    FiveOf(p, Mask(fs[0]), Mask(fs[1]), Mask(fs[2]), Mask(fs[3]), Mask(fs[4]));
  }

  lemma FiveOf(p: seq<nat>, a: nat, b: nat, c: nat, d: nat, e: nat)
    requires |p| == 5 && p[0] == a && p[1] == b && p[2] == c && p[3] == d && p[4] == e
    ensures p == [a, b, c, d, e]
  {
  }

  lemma PlacedFullAt(fs: seq<Field>, i: nat)
    requires i < |fs|
    ensures Placed(FullFields(fs), fs)[i] == Mask(fs[i])
  {
    var v := FullFields(fs)[i];
    assert v == Pow2(fs[i].width) - 1;
    assert Placed(FullFields(fs), fs)[i] == Place(v, fs[i]);
    MaskIsPlaced(fs[i]);
  }

  lemma MaskIsPlaced(f: Field)
    ensures Mask(f) == Place(Pow2(f.width) - 1, f)
  {
  }

  /** The union of the masks is the low `addressBits` bits: 24 bits for
      series 5 and 6, 26 bits for series 7 and 8. */
  lemma UnionOfMasks(series: int)
    requires IsSeries(series)
    ensures AllMasks(Config(series)) == Pow2(Config(series).addressBits) - 1
  {
    var cfg := Config(series);
    var ms := [Mask(cfg.typeField), Mask(cfg.halfField), Mask(cfg.rowField),
               Mask(cfg.columnField), Mask(cfg.minorField)];
    assert AllMasks(cfg) == ms[0] + ms[1] + ms[2] + ms[3] + ms[4] by {
      var fs := Fields(cfg);
      var vs := FullFields(fs);
      PlacedFull(cfg);
      FieldsStacked(series);
      OrAllStacked(vs, fs);
      Sum5(ms[0], ms[1], ms[2], ms[3], ms[4]);
    }
    MasksSum(series);
  }

  /** The five masks add up to the low `addressBits` bits. */
  lemma MasksSum(series: int)
    requires IsSeries(series)
    ensures var cfg := Config(series);
      Pow2(cfg.addressBits) - 1 == Mask(cfg.typeField) + Mask(cfg.halfField) + Mask(cfg.rowField) +
        Mask(cfg.columnField) + Mask(cfg.minorField)
  {
    MasksMatchSource();
    LayoutUnits();
    if series == 5 || series == 6 {
      assert Mask(Config(series).typeField) == 0xE00000;
    }
  }

  lemma Sum5(a: nat, b: nat, c: nat, d: nat, e: nat)
    ensures Sum([a, b, c, d, e]) == a + b + c + d + e
  {
    assert [a, b, c, d, e][..4] == [a, b, c, d];
    assert [a, b, c, d][..3] == [a, b, c];
    assert [a, b, c][..2] == [a, b];
    assert [a, b][..1] == [a];
    assert [a][..0] == [];
    assert Sum([a]) == a;
    assert Sum([a, b]) == a + b;
    assert Sum([a, b, c]) == a + b + c;
    assert Sum([a, b, c, d]) == a + b + c + d;
  }

  /** The source's extraneous-bits test holds exactly when the address
      reaches bit `addressBits` or above. */
  lemma ExtraneousBitsIff(series: int, frad: nat)
    requires IsSeries(series)
    ensures HasExtraneousBits(Config(series), frad) <==> frad >= Pow2(Config(series).addressBits)
  {
    UnionOfMasks(series);
    ExtraneousAboveWidth(Config(series), frad);
  }

  /** With the masks covering exactly the low `addressBits` bits, an
      address has extraneous bits exactly when it reaches that width. */
  lemma ExtraneousAboveWidth(cfg: SeriesConfig, frad: nat)
    requires AllMasks(cfg) == Pow2(cfg.addressBits) - 1
    ensures HasExtraneousBits(cfg, frad) <==> frad >= Pow2(cfg.addressBits)
  {
    Pow2IsPowerOfTwo(cfg.addressBits);
    AndNotBelow(frad, AllMasks(cfg), Pow2(cfg.addressBits));
  }

  /** `Fits` index by index. */
  lemma FitsEach(cfg: SeriesConfig, x: Coord)
    ensures Fits(cfg, x) <==>
      x.t < Pow2(cfg.typeField.width) && x.h < Pow2(cfg.halfField.width) &&
      x.r < Pow2(cfg.rowField.width) && x.c < Pow2(cfg.columnField.width) &&
      x.m < Pow2(cfg.minorField.width)
  {
    var vs, fs := Indices(x), Fields(cfg);
    assert vs[0] == x.t && vs[1] == x.h && vs[2] == x.r && vs[3] == x.c && vs[4] == x.m;
    assert fs[0] == cfg.typeField && fs[1] == cfg.halfField && fs[2] == cfg.rowField;
    assert fs[3] == cfg.columnField && fs[4] == cfg.minorField;
  }

  // ---------------------------------------------------------------------
  // The codec round trips

  /** OR-ing the column term a second time changes nothing. */
  lemma ColumnTwiceIsOnce(cfg: SeriesConfig, x: Coord)
    ensures Compose(cfg, x) == OrAll(Placed(Indices(x), Fields(cfg)))
  {
    var p := Placed(Indices(x), Fields(cfg));
    var prefix := [p[0], p[1], p[2]];
    RepeatedTerm(prefix, p[3], p[4]);
    assert prefix + [p[3], p[3], p[4]] ==
      [Place(x.t, cfg.typeField), Place(x.h, cfg.halfField), Place(x.r, cfg.rowField),
       Place(x.c, cfg.columnField), Place(x.c, cfg.columnField), Place(x.m, cfg.minorField)];
    assert prefix + [p[3], p[4]] == p;
  }

  /** With every index inside its field the OR of the terms is their sum. */
  lemma ComposeIsSum(series: int, x: Coord)
    requires IsSeries(series) && Fits(Config(series), x)
    ensures var cfg := Config(series);
      Compose(cfg, x) == Place(x.t, cfg.typeField) + Place(x.h, cfg.halfField) +
        Place(x.r, cfg.rowField) + Place(x.c, cfg.columnField) + x.m
  {
    var cfg := Config(series);
    var p := Placed(Indices(x), Fields(cfg));
    ColumnTwiceIsOnce(cfg, x);
    FieldsStacked(series);
    OrAllStacked(Indices(x), Fields(cfg));
    assert p == [p[0], p[1], p[2], p[3], p[4]];
    Sum5(p[0], p[1], p[2], p[3], p[4]);
  }

  /** Decoding a composed address gives back the indices, provided each
      fits its field (the half of series 8 has width 0, so it must be 0). */
  lemma DecodeCompose(series: int, x: Coord)
    requires IsSeries(series) && Fits(Config(series), x)
    ensures Decode(Config(series), Compose(Config(series), x)) == x
  {
    if series == 5 || series == 6 {
      DecodeCompose56(series, x);
    } else if series == 7 {
      DecodeCompose7(x);
    } else {
      DecodeCompose8(x);
    }
  }

  lemma DecodeCompose56(series: int, x: Coord)
    requires series == 5 || series == 6
    requires Fits(Config(series), x)
    ensures Decode(Config(series), Compose(Config(series), x)) == x
  {
    assert x.t < 8 && x.h < 2 && x.r < 32 && x.c < 256 && x.m < 128 by {
      FitsEach(Config(series), x);
      LayoutUnits();
    }
    var a := x.t * 0x200000 + x.h * 0x100000 + x.r * 0x8000 + x.c * 0x80 + x.m;
    assert Compose(Config(series), x) == a by {
      assert x == Coord(x.t, x.h, x.r, x.c, x.m);
      ComposeSum56(series, x.t, x.h, x.r, x.c, x.m);
    }
    assert Decode(Config(series), a) == x by {
      assert x == Coord(x.t, x.h, x.r, x.c, x.m);
      DecodeSum56(series, a, x.t, x.h, x.r, x.c, x.m);
    }
    DecodeBack(Config(series), Compose(Config(series), x), a, x);
  }

  lemma DecodeCompose7(x: Coord)
    requires Fits(Config(7), x)
    ensures Decode(Config(7), Compose(Config(7), x)) == x
  {
    assert x.t < 8 && x.h < 2 && x.r < 32 && x.c < 1024 && x.m < 128 by {
      FitsEach(Config(7), x);
      LayoutUnits();
    }
    var a := x.t * 0x800000 + x.h * 0x400000 + x.r * 0x20000 + x.c * 0x80 + x.m;
    assert Compose(Config(7), x) == a by {
      assert x == Coord(x.t, x.h, x.r, x.c, x.m);
      ComposeSum7(x.t, x.h, x.r, x.c, x.m);
    }
    assert Decode(Config(7), a) == x by {
      assert x == Coord(x.t, x.h, x.r, x.c, x.m);
      DecodeSum7(a, x.t, x.h, x.r, x.c, x.m);
    }
    DecodeBack(Config(7), Compose(Config(7), x), a, x);
  }

  lemma DecodeCompose8(x: Coord)
    requires Fits(Config(8), x)
    ensures Decode(Config(8), Compose(Config(8), x)) == x
  {
    assert x.t < 8 && x.h == 0 && x.r < 64 && x.c < 1024 && x.m < 128 by {
      FitsEach(Config(8), x);
      LayoutUnits();
    }
    var a := x.t * 0x800000 + x.r * 0x20000 + x.c * 0x80 + x.m;
    assert Compose(Config(8), x) == a by {
      assert x == Coord(x.t, 0, x.r, x.c, x.m);
      ComposeSum8(x.t, x.r, x.c, x.m);
    }
    assert Decode(Config(8), a) == x by {
      assert x == Coord(x.t, 0, x.r, x.c, x.m);
      DecodeSum8(a, x.t, x.r, x.c, x.m);
    }
    DecodeBack(Config(8), Compose(Config(8), x), a, x);
  }

  /** Decoding an address equal to one whose decoding is known. */
  lemma DecodeBack(cfg: SeriesConfig, a: nat, b: nat, x: Coord)
    requires a == b && Decode(cfg, b) == x
    ensures Decode(cfg, a) == x
  {
  }

  /** The composed address of indices inside their fields, as a sum with
      the literal units of each layout. */
  lemma ComposeSum56(series: int, t: nat, h: nat, r: nat, c: nat, m: nat)
    requires series == 5 || series == 6
    requires t < 8 && h < 2 && r < 32 && c < 256 && m < 128
    ensures Compose(Config(series), Coord(t, h, r, c, m)) ==
      t * 0x200000 + h * 0x100000 + r * 0x8000 + c * 0x80 + m
  {
    var x := Coord(t, h, r, c, m);
    LayoutUnits();
    FitsEach(Config(series), x);
    ComposeIsSum(series, x);
  }

  lemma ComposeSum7(t: nat, h: nat, r: nat, c: nat, m: nat)
    requires t < 8 && h < 2 && r < 32 && c < 1024 && m < 128
    ensures Compose(Config(7), Coord(t, h, r, c, m)) ==
      t * 0x800000 + h * 0x400000 + r * 0x20000 + c * 0x80 + m
  {
    var x := Coord(t, h, r, c, m);
    LayoutUnits();
    FitsEach(Config(7), x);
    ComposeIsSum(7, x);
  }

  lemma ComposeSum8(t: nat, r: nat, c: nat, m: nat)
    requires t < 8 && r < 64 && c < 1024 && m < 128
    ensures Compose(Config(8), Coord(t, 0, r, c, m)) == t * 0x800000 + r * 0x20000 + c * 0x80 + m
  {
    var x := Coord(t, 0, r, c, m);
    LayoutUnits();
    FitsEach(Config(8), x);
    ComposeIsSum(8, x);
  }

  /** The indices of an address, as quotients and remainders by the
      literal units of each layout. */
  lemma DecodeParts56(series: int, frad: nat)
    requires series == 5 || series == 6
    ensures Decode(Config(series), frad) == Coord((frad / 0x200000) % 8, (frad / 0x100000) % 2,
                                                  (frad / 0x8000) % 32, (frad / 0x80) % 256, frad % 128)
  {
    var cfg := Config(series);
    assert Pow2(21) == 0x200000 && Pow2(20) == 0x100000 && Pow2(15) == 0x8000 && Pow2(7) == 0x80 by {
      LayoutUnits();
    }
    assert Pow2(3) == 8 && Pow2(1) == 2 && Pow2(5) == 32 && Pow2(8) == 256 by {
      LayoutUnits();
    }
    DecodeFields(cfg, frad);
    FieldLit(frad, cfg.typeField, 0x200000, 8);
    FieldLit(frad, cfg.halfField, 0x100000, 2);
    FieldLit(frad, cfg.rowField, 0x8000, 32);
    FieldLit(frad, cfg.columnField, 0x80, 256);
    MinorLit(frad, cfg.minorField);
  }

  lemma DecodeParts7(frad: nat)
    ensures Decode(Config(7), frad) == Coord((frad / 0x800000) % 8, (frad / 0x400000) % 2,
                                             (frad / 0x20000) % 32, (frad / 0x80) % 1024, frad % 128)
  {
    var cfg := Config(7);
    assert Pow2(23) == 0x800000 && Pow2(22) == 0x400000 && Pow2(17) == 0x20000 && Pow2(7) == 0x80 by {
      LayoutUnits();
    }
    assert Pow2(3) == 8 && Pow2(1) == 2 && Pow2(5) == 32 && Pow2(10) == 1024 by {
      LayoutUnits();
    }
    DecodeFields(cfg, frad);
    FieldLit(frad, cfg.typeField, 0x800000, 8);
    FieldLit(frad, cfg.halfField, 0x400000, 2);
    FieldLit(frad, cfg.rowField, 0x20000, 32);
    FieldLit(frad, cfg.columnField, 0x80, 1024);
    MinorLit(frad, cfg.minorField);
  }

  lemma DecodeParts8(frad: nat)
    ensures Decode(Config(8), frad) == Coord((frad / 0x800000) % 8, 0, (frad / 0x20000) % 64,
                                             (frad / 0x80) % 1024, frad % 128)
  {
    var cfg := Config(8);
    assert Pow2(23) == 0x800000 && Pow2(17) == 0x20000 && Pow2(7) == 0x80 by {
      LayoutUnits();
    }
    assert Pow2(3) == 8 && Pow2(6) == 64 && Pow2(10) == 1024 by {
      LayoutUnits();
    }
    DecodeFields(cfg, frad);
    FieldLit(frad, cfg.typeField, 0x800000, 8);
    FieldLit(frad, cfg.rowField, 0x20000, 64);
    FieldLit(frad, cfg.columnField, 0x80, 1024);
    MinorLit(frad, cfg.minorField);
  }

  /** The minor field of every layout: the low seven bits. */
  lemma MinorLit(frad: nat, f: Field)
    requires f == Field(0, 7)
    ensures FieldValue(frad, f) == frad % 128
  {
    assert Pow2(0) == 1 && Pow2(7) == 128 by {
      LayoutUnits();
    }
  }

  /** A field read with the literal values of its unit and its size. */
  lemma FieldLit(frad: nat, f: Field, unit: nat, size: nat)
    requires Pow2(f.shift) == unit && Pow2(f.width) == size
    ensures FieldValue(frad, f) == (frad / unit) % size
  {
  }

  /** The powers of two the three layouts use. */
  lemma LayoutUnits()
    ensures Pow2(0) == 1 && Pow2(1) == 2 && Pow2(3) == 8 && Pow2(5) == 32 && Pow2(6) == 64
    ensures Pow2(7) == 0x80 && Pow2(8) == 0x100 && Pow2(10) == 0x400
    ensures Pow2(15) == 0x8000 && Pow2(17) == 0x20000 && Pow2(20) == 0x100000
    ensures Pow2(21) == 0x200000 && Pow2(22) == 0x400000 && Pow2(23) == 0x800000
    ensures Pow2(24) == 0x1000000 && Pow2(26) == 0x4000000
  {
    Pow2Table();
  }

  /** `Decode` reads each field as a quotient and a remainder. */
  lemma DecodeFields(cfg: SeriesConfig, frad: nat)
    ensures Decode(cfg, frad) ==
      Coord(FieldValue(frad, cfg.typeField),
            if cfg.hasHalf then FieldValue(frad, cfg.halfField) else 0,
            FieldValue(frad, cfg.rowField), FieldValue(frad, cfg.columnField),
            FieldValue(frad, cfg.minorField))
  {
  }

  /** An address whose quotients and remainders are the given indices
      decodes to them. */
  lemma DecodeAt56(series: int, a: nat, t: nat, h: nat, r: nat, c: nat, m: nat)
    requires series == 5 || series == 6
    requires (a / 0x200000) % 8 == t && (a / 0x100000) % 2 == h && (a / 0x8000) % 32 == r
    requires (a / 0x80) % 256 == c && a % 128 == m
    ensures Decode(Config(series), a) == Coord(t, h, r, c, m)
  {
    DecodeParts56(series, a);
  }

  lemma DecodeAt7(a: nat, t: nat, h: nat, r: nat, c: nat, m: nat)
    requires (a / 0x800000) % 8 == t && (a / 0x400000) % 2 == h && (a / 0x20000) % 32 == r
    requires (a / 0x80) % 1024 == c && a % 128 == m
    ensures Decode(Config(7), a) == Coord(t, h, r, c, m)
  {
    DecodeParts7(a);
  }

  lemma DecodeAt8(a: nat, t: nat, r: nat, c: nat, m: nat)
    requires (a / 0x800000) % 8 == t && (a / 0x20000) % 64 == r
    requires (a / 0x80) % 1024 == c && a % 128 == m
    ensures Decode(Config(8), a) == Coord(t, 0, r, c, m)
  {
    DecodeParts8(a);
  }

  lemma DecodeSum56(series: int, a: nat, t: nat, h: nat, r: nat, c: nat, m: nat)
    requires series == 5 || series == 6
    requires t < 8 && h < 2 && r < 32 && c < 256 && m < 128
    requires a == t * 0x200000 + h * 0x100000 + r * 0x8000 + c * 0x80 + m
    ensures Decode(Config(series), a) == Coord(t, h, r, c, m)
  {
    Split56(t, h, r, c, m);
    assert (a / 0x200000) % 8 == t && (a / 0x100000) % 2 == h && (a / 0x8000) % 32 == r;
    assert (a / 0x80) % 256 == c && a % 128 == m;
    DecodeAt56(series, a, t, h, r, c, m);
    assert Decode(Config(series), a) == Coord(t, h, r, c, m);
  }

  lemma DecodeSum7(a: nat, t: nat, h: nat, r: nat, c: nat, m: nat)
    requires t < 8 && h < 2 && r < 32 && c < 1024 && m < 128
    requires a == t * 0x800000 + h * 0x400000 + r * 0x20000 + c * 0x80 + m
    ensures Decode(Config(7), a) == Coord(t, h, r, c, m)
  {
    Split7(t, h, r, c, m);
    assert (a / 0x800000) % 8 == t && (a / 0x400000) % 2 == h && (a / 0x20000) % 32 == r;
    assert (a / 0x80) % 1024 == c && a % 128 == m;
    DecodeAt7(a, t, h, r, c, m);
    assert Decode(Config(7), a) == Coord(t, h, r, c, m);
  }

  lemma DecodeSum8(a: nat, t: nat, r: nat, c: nat, m: nat)
    requires t < 8 && r < 64 && c < 1024 && m < 128
    requires a == t * 0x800000 + r * 0x20000 + c * 0x80 + m
    ensures Decode(Config(8), a) == Coord(t, 0, r, c, m)
  {
    Split8(t, r, c, m);
    assert (a / 0x800000) % 8 == t && (a / 0x20000) % 64 == r;
    assert (a / 0x80) % 1024 == c && a % 128 == m;
    DecodeAt8(a, t, r, c, m);
    assert Decode(Config(8), a) == Coord(t, 0, r, c, m);
  }

  /** Composing the decoded indices of an address without extraneous bits
      reproduces the address: what `set_current_frad` accepts,
      `get_current_frad` returns. */
  lemma ComposeDecode(series: int, frad: nat)
    requires IsSeries(series) && !HasExtraneousBits(Config(series), frad)
    ensures Fits(Config(series), Decode(Config(series), frad))
    ensures Compose(Config(series), Decode(Config(series), frad)) == frad
  {
    var cfg := Config(series);
    var x := Decode(cfg, frad);
    FitsEach(cfg, x);
    assert frad < Pow2(cfg.addressBits) by {
      ExtraneousBitsIff(series, frad);
    }
    LayoutUnits();
    if series == 5 || series == 6 {
      ComposeDecode56(series, frad);
    } else if series == 7 {
      ComposeDecode7(frad);
    } else {
      ComposeDecode8(frad);
    }
  }

  lemma ComposeDecode56(series: int, frad: nat)
    requires series == 5 || series == 6
    requires frad < 0x1000000
    ensures Compose(Config(series), Decode(Config(series), frad)) == frad
  {
    DecodeParts56(series, frad);
    ComposeParts56(series, frad);
    Join56(frad);
  }

  lemma ComposeDecode7(frad: nat)
    requires frad < 0x4000000
    ensures Compose(Config(7), Decode(Config(7), frad)) == frad
  {
    DecodeParts7(frad);
    ComposeParts7(frad);
    Join7(frad);
  }

  lemma ComposeDecode8(frad: nat)
    requires frad < 0x4000000
    ensures Compose(Config(8), Decode(Config(8), frad)) == frad
  {
    DecodeParts8(frad);
    ComposeParts8(frad);
    Join8(frad);
  }

  /** Composing the quotients and remainders of an address. */
  lemma ComposeParts56(series: int, frad: nat)
    requires series == 5 || series == 6
    ensures Compose(Config(series), Coord((frad / 0x200000) % 8, (frad / 0x100000) % 2, (frad / 0x8000) % 32,
                                          (frad / 0x80) % 256, frad % 128)) ==
      ((frad / 0x200000) % 8) * 0x200000 + ((frad / 0x100000) % 2) * 0x100000 +
      ((frad / 0x8000) % 32) * 0x8000 + ((frad / 0x80) % 256) * 0x80 + frad % 128
  {
    ComposeSum56(series, (frad / 0x200000) % 8, (frad / 0x100000) % 2, (frad / 0x8000) % 32,
                 (frad / 0x80) % 256, frad % 128);
  }

  lemma ComposeParts7(frad: nat)
    ensures Compose(Config(7), Coord((frad / 0x800000) % 8, (frad / 0x400000) % 2, (frad / 0x20000) % 32,
                                     (frad / 0x80) % 1024, frad % 128)) ==
      ((frad / 0x800000) % 8) * 0x800000 + ((frad / 0x400000) % 2) * 0x400000 +
      ((frad / 0x20000) % 32) * 0x20000 + ((frad / 0x80) % 1024) * 0x80 + frad % 128
  {
    ComposeSum7((frad / 0x800000) % 8, (frad / 0x400000) % 2, (frad / 0x20000) % 32,
                (frad / 0x80) % 1024, frad % 128);
  }

  lemma ComposeParts8(frad: nat)
    ensures Compose(Config(8), Coord((frad / 0x800000) % 8, 0, (frad / 0x20000) % 64,
                                     (frad / 0x80) % 1024, frad % 128)) ==
      ((frad / 0x800000) % 8) * 0x800000 + ((frad / 0x20000) % 64) * 0x20000 +
      ((frad / 0x80) % 1024) * 0x80 + frad % 128
  {
    ComposeSum8((frad / 0x800000) % 8, (frad / 0x20000) % 64, (frad / 0x80) % 1024, frad % 128);
  }

  /** Address 0 has no extraneous bits and names the first frame of the
      first row of the first half of type 0: `set_current_frad(0)` goes to
      the origin. */
  lemma DecodeZero(cfg: SeriesConfig)
    ensures Decode(cfg, 0) == Origin && !HasExtraneousBits(cfg, 0)
  {
  }
}
