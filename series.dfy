/** The per-series constants of the frame-address layout: which bits of a
    32-bit frame address (FRAD) hold the block type, the top/bottom half, the
    row, the column and the minor frame, and how many 32-bit words a frame of
    that device family holds. */
module Series {
  import opened Bits
  import opened Packing

  /** The layout selected by the constructor of a frame-address structure.
      `addressBits` is the number of low bits covered by the five masks
      together; `hasHalf` is false for the series whose addresses have no
      top/bottom bit (series 8, whose half index is always 0). */
  datatype SeriesConfig = SeriesConfig(
    series: nat,
    typeField: Field,
    halfField: Field,
    rowField: Field,
    columnField: Field,
    minorField: Field,
    wordsPerFrame: nat,
    hasHalf: bool,
    addressBits: nat)

  /** The series for which the source assigns masks and shifts. */
  predicate IsSeries(series: int)
  {
    5 <= series <= 8
  }

  /** Words per frame of a series (also defined for series 9, which has no
      address layout). */
  function WordsPerFrame(series: int): (wpf: nat)
    requires 5 <= series <= 9
    ensures wpf > 0
  {
    if series == 5 then 41
    else if series == 6 then 81
    else if series == 7 then 101
    else if series == 8 then 123
    else 93
  }

  function Config(series: int): (cfg: SeriesConfig)
    requires IsSeries(series)
    ensures cfg.series == series && cfg.wordsPerFrame == WordsPerFrame(series)
    ensures cfg.hasHalf <==> series != 8
  {
    if series == 5 || series == 6 then
      SeriesConfig(series, Field(21, 3), Field(20, 1), Field(15, 5), Field(7, 8), Field(0, 7),
                   WordsPerFrame(series), true, 24)
    else if series == 7 then
      SeriesConfig(series, Field(23, 3), Field(22, 1), Field(17, 5), Field(7, 10), Field(0, 7),
                   WordsPerFrame(series), true, 26)
    else
      SeriesConfig(series, Field(23, 3), Field(0, 0), Field(17, 6), Field(7, 10), Field(0, 7),
                   WordsPerFrame(series), false, 26)
  }

  /** The five fields, from the most significant down. */
  function Fields(cfg: SeriesConfig): seq<Field>
  {
    [cfg.typeField, cfg.halfField, cfg.rowField, cfg.columnField, cfg.minorField]
  }

  /** `typeMask | topBottomMask | rowMask | columnMask | minorMask` */
  function AllMasks(cfg: SeriesConfig): nat
  {
    OrAll([Mask(cfg.typeField), Mask(cfg.halfField), Mask(cfg.rowField),
           Mask(cfg.columnField), Mask(cfg.minorField)])
  }

  /** The fields, read back as the source's hexadecimal masks and shifts. */
  lemma MasksMatchSource()
    ensures forall s :: s == 5 || s == 6 ==>
      Mask(Config(s).typeField) == 0xE00000 && Config(s).typeField.shift == 21 &&
      Mask(Config(s).halfField) == 0x100000 && Config(s).halfField.shift == 20 &&
      Mask(Config(s).rowField) == 0xF8000 && Config(s).rowField.shift == 15 &&
      Mask(Config(s).columnField) == 0x7F80 && Config(s).columnField.shift == 7 &&
      Mask(Config(s).minorField) == 0x7F && Config(s).minorField.shift == 0
    ensures Mask(Config(7).typeField) == 0x3800000 && Config(7).typeField.shift == 23
    ensures Mask(Config(7).halfField) == 0x400000 && Config(7).halfField.shift == 22
    ensures Mask(Config(7).rowField) == 0x3E0000 && Config(7).rowField.shift == 17
    ensures Mask(Config(7).columnField) == 0x1FF80 && Config(7).columnField.shift == 7
    ensures Mask(Config(7).minorField) == 0x7F && Config(7).minorField.shift == 0
    ensures Mask(Config(8).typeField) == 0x3800000 && Config(8).typeField.shift == 23
    ensures Mask(Config(8).halfField) == 0 && Config(8).halfField.shift == 0
    ensures Mask(Config(8).rowField) == 0x7E0000 && Config(8).rowField.shift == 17
    ensures Mask(Config(8).columnField) == 0x1FF80 && Config(8).columnField.shift == 7
    ensures Mask(Config(8).minorField) == 0x7F && Config(8).minorField.shift == 0
  {
    Pow2Table();
  }
}
