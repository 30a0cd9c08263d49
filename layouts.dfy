/** The three address layouts written out with literal units: the fields can
    be read back from the sum of the shifted fields, and every address below
    the layout's width is such a sum. */
module Layouts {
  import opened Bits

  /** Reading the fields back out of a sum of the series 5/6 layout. */
  lemma {:induction false} Split56(t: nat, h: nat, r: nat, c: nat, m: nat)
    requires t < 8 && h < 2 && r < 32 && c < 256 && m < 128
    ensures var a := t * 0x200000 + h * 0x100000 + r * 0x8000 + c * 0x80 + m;
      (a / 0x200000) % 8 == t && (a / 0x100000) % 2 == h && (a / 0x8000) % 32 == r &&
      (a / 0x80) % 256 == c && a % 128 == m
  {
    var a := t * 0x200000 + h * 0x100000 + r * 0x8000 + c * 0x80 + m;
    DivUnique(a, 0x200000, t, h * 0x100000 + r * 0x8000 + c * 0x80 + m);
    DivUnique(t, 8, 0, t);
    DivUnique(a, 0x100000, t * 2 + h, r * 0x8000 + c * 0x80 + m);
    DivUnique(t * 2 + h, 2, t, h);
    DivUnique(a, 0x8000, t * 64 + h * 32 + r, c * 0x80 + m);
    DivUnique(t * 64 + h * 32 + r, 32, t * 2 + h, r);
    DivUnique(a, 0x80, t * 0x4000 + h * 0x2000 + r * 0x100 + c, m);
    DivUnique(t * 0x4000 + h * 0x2000 + r * 0x100 + c, 256, t * 64 + h * 32 + r, c);
    DivUnique(a, 128, t * 0x4000 + h * 0x2000 + r * 0x100 + c, m);
  }

  lemma {:induction false} Split7(t: nat, h: nat, r: nat, c: nat, m: nat)
    requires t < 8 && h < 2 && r < 32 && c < 1024 && m < 128
    ensures var a := t * 0x800000 + h * 0x400000 + r * 0x20000 + c * 0x80 + m;
      (a / 0x800000) % 8 == t && (a / 0x400000) % 2 == h && (a / 0x20000) % 32 == r &&
      (a / 0x80) % 1024 == c && a % 128 == m
  {
    var a := t * 0x800000 + h * 0x400000 + r * 0x20000 + c * 0x80 + m;
    DivUnique(a, 0x800000, t, h * 0x400000 + r * 0x20000 + c * 0x80 + m);
    DivUnique(t, 8, 0, t);
    DivUnique(a, 0x400000, t * 2 + h, r * 0x20000 + c * 0x80 + m);
    DivUnique(t * 2 + h, 2, t, h);
    DivUnique(a, 0x20000, t * 64 + h * 32 + r, c * 0x80 + m);
    DivUnique(t * 64 + h * 32 + r, 32, t * 2 + h, r);
    DivUnique(a, 0x80, t * 0x10000 + h * 0x8000 + r * 0x400 + c, m);
    DivUnique(t * 0x10000 + h * 0x8000 + r * 0x400 + c, 1024, t * 64 + h * 32 + r, c);
    DivUnique(a, 128, t * 0x10000 + h * 0x8000 + r * 0x400 + c, m);
  }

  lemma {:induction false} Split8(t: nat, r: nat, c: nat, m: nat)
    requires t < 8 && r < 64 && c < 1024 && m < 128
    ensures var a := t * 0x800000 + r * 0x20000 + c * 0x80 + m;
      (a / 0x800000) % 8 == t && (a / 0x20000) % 64 == r &&
      (a / 0x80) % 1024 == c && a % 128 == m
  {
    var a := t * 0x800000 + r * 0x20000 + c * 0x80 + m;
    DivUnique(a, 0x800000, t, r * 0x20000 + c * 0x80 + m);
    DivUnique(t, 8, 0, t);
    DivUnique(a, 0x20000, t * 64 + r, c * 0x80 + m);
    DivUnique(t * 64 + r, 64, t, r);
    DivUnique(a, 0x80, t * 0x10000 + r * 0x400 + c, m);
    DivUnique(t * 0x10000 + r * 0x400 + c, 1024, t * 64 + r, c);
    DivUnique(a, 128, t * 0x10000 + r * 0x400 + c, m);
  }

  /** An address below `2^24` is the sum of its series 5/6 fields. */
  lemma {:induction false} Join56(a: nat)
    requires a < 0x1000000
    ensures a == ((a / 0x200000) % 8) * 0x200000 + ((a / 0x100000) % 2) * 0x100000 +
                 ((a / 0x8000) % 32) * 0x8000 + ((a / 0x80) % 256) * 0x80 + a % 128
  {
    Recompose(a, 1, 128);
    Recompose(a, 0x80, 256);
    Recompose(a, 0x8000, 32);
    Recompose(a, 0x100000, 2);
    Recompose(a, 0x200000, 8);
    DivUnique(a, 0x1000000, 0, a);
  }

  /** An address below `2^26` is the sum of its series 7 fields. */
  lemma {:induction false} Join7(a: nat)
    requires a < 0x4000000
    ensures a == ((a / 0x800000) % 8) * 0x800000 + ((a / 0x400000) % 2) * 0x400000 +
                 ((a / 0x20000) % 32) * 0x20000 + ((a / 0x80) % 1024) * 0x80 + a % 128
  {
    Recompose(a, 1, 128);
    Recompose(a, 0x80, 1024);
    Recompose(a, 0x20000, 32);
    Recompose(a, 0x400000, 2);
    Recompose(a, 0x800000, 8);
    DivUnique(a, 0x4000000, 0, a);
  }

  /** An address below `2^26` is the sum of its series 8 fields. */
  lemma {:induction false} Join8(a: nat)
    requires a < 0x4000000
    ensures a == ((a / 0x800000) % 8) * 0x800000 + ((a / 0x20000) % 64) * 0x20000 +
                 ((a / 0x80) % 1024) * 0x80 + a % 128
  {
    Recompose(a, 1, 128);
    Recompose(a, 0x80, 1024);
    Recompose(a, 0x20000, 64);
    Recompose(a, 0x800000, 8);
    DivUnique(a, 0x4000000, 0, a);
  }
}
