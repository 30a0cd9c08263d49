/** Bit fields of an integer and the OR of values shifted into them. */
module Packing {
  import opened Bits

  /** A contiguous bit field: `width` bits starting at bit `shift`. Its mask
      is `((1 << width) - 1) << shift`. */
  datatype Field = Field(shift: nat, width: nat)

  function Mask(f: Field): nat
  {
    (Pow2(f.width) - 1) * Pow2(f.shift)
  }

  /** `value << shift` */
  function Place(value: nat, f: Field): nat
  {
    value * Pow2(f.shift)
  }

  /** The value held in a field, as a quotient and a remainder. */
  function FieldValue(x: nat, f: Field): (v: nat)
    ensures v < Pow2(f.width)
  {
    (x / Pow2(f.shift)) % Pow2(f.width)
  }

  /** `(x & mask) >> shift`, the way the source reads a field; it is the
      field's value. */
  function Extract(x: nat, f: Field): (v: nat)
    ensures v == FieldValue(x, f) && v < Pow2(f.width)
  {
    MaskedField(x, f);
    And(x, Mask(f)) / Pow2(f.shift)
  }

  /** `t0 | t1 | ... | tn`, evaluated left to right. */
  function OrAll(terms: seq<nat>): nat
  {
    if terms == [] then 0 else Or(OrAll(terms[..|terms| - 1]), terms[|terms| - 1])
  }

  function Sum(terms: seq<nat>): nat
  {
    if terms == [] then 0 else Sum(terms[..|terms| - 1]) + terms[|terms| - 1]
  }

  /** Each value shifted into its field. */
  function Placed(vs: seq<nat>, fs: seq<Field>): (r: seq<nat>)
    requires |vs| == |fs|
    ensures |r| == |vs| && forall i :: 0 <= i < |r| ==> r[i] == Place(vs[i], fs[i])
  {
    seq(|vs|, i requires 0 <= i < |vs| => Place(vs[i], fs[i]))
  }

  /** Every value fits the width of its field. */
  predicate FitsAll(vs: seq<nat>, fs: seq<Field>)
  {
    |vs| == |fs| && forall i :: 0 <= i < |vs| ==> vs[i] < Pow2(fs[i].width)
  }

  /** The non-empty fields are listed from the most significant down and do
      not overlap. */
  predicate Stacked(fs: seq<Field>)
  {
    forall i, j :: 0 <= i < j < |fs| && fs[i].width > 0 && fs[j].width > 0 ==>
      fs[j].shift + fs[j].width <= fs[i].shift
  }

  /** When the fields are stacked and every value fits, OR-ing the shifted
      values is adding them. */
  lemma {:induction false} OrAllStacked(vs: seq<nat>, fs: seq<Field>)
    requires FitsAll(vs, fs) && Stacked(fs)
    ensures OrAll(Placed(vs, fs)) == Sum(Placed(vs, fs))
    decreases |vs|
  {
    var p := Placed(vs, fs);
    var n := |vs|;
    if n > 0 {
      var vs', fs' := vs[..n - 1], fs[..n - 1];
      assert p[..n - 1] == Placed(vs', fs');
      OrAllStacked(vs', fs');
      var last := fs[n - 1];
      if last.width == 0 {
        assert vs[n - 1] == 0;
        OrZero(OrAll(p[..n - 1]));
      } else {
        var k := last.shift + last.width;
        var q := SumIsMultiple(vs', fs', k);
        Pow2Add(last.width, last.shift);
        assert p[n - 1] < Pow2(k) by {
          assert p[n - 1] == vs[n - 1] * Pow2(last.shift);
          MulLess(vs[n - 1], Pow2(last.width), Pow2(last.shift));
        }
        OrDisjoint(q, p[n - 1], k);
      }
    }
  }

  lemma MulAssociative(a: nat, b: nat, c: nat)
    ensures a * (b * c) == (a * b) * c
  {
  }

  lemma MulDistributes(a: nat, b: nat, c: nat)
    ensures (a + b) * c == a * c + b * c
  {
  }

  lemma MulLess(a: nat, b: nat, c: nat)
    requires a < b && c > 0
    ensures a * c < b * c
  {
  }

  /** Values in fields that all lie at or above bit `k` add up to a multiple
      of `2^k`. */
  lemma {:induction false} SumIsMultiple(vs: seq<nat>, fs: seq<Field>, k: nat) returns (q: nat)
    requires FitsAll(vs, fs)
    requires forall i :: 0 <= i < |fs| && fs[i].width > 0 ==> k <= fs[i].shift
    ensures Sum(Placed(vs, fs)) == q * Pow2(k)
    decreases |vs|
  {
    var p := Placed(vs, fs);
    var n := |vs|;
    if n == 0 {
      q := 0;
    } else {
      var vs', fs' := vs[..n - 1], fs[..n - 1];
      assert p[..n - 1] == Placed(vs', fs');
      var q' := SumIsMultiple(vs', fs', k);
      var f := fs[n - 1];
      if f.width == 0 {
        assert vs[n - 1] == 0;
        q := q';
      } else {
        var u, w := Pow2(k), vs[n - 1] * Pow2(f.shift - k);
        Pow2Add(f.shift - k, k);
        MulAssociative(vs[n - 1], Pow2(f.shift - k), u);
        q := q' + w;
        MulDistributes(q', w, u);
      }
    }
  }

  /** OR-ing the same term twice in a row is OR-ing it once. */
  lemma RepeatedTerm(prefix: seq<nat>, d: nat, suffix: nat)
    ensures OrAll(prefix + [d, d, suffix]) == OrAll(prefix + [d, suffix])
  {
    var s6 := prefix + [d, d, suffix];
    var s5 := prefix + [d, suffix];
    assert s6[..|s6| - 1] == prefix + [d, d];
    assert (prefix + [d, d])[..|prefix| + 1] == prefix + [d];
    assert s5[..|s5| - 1] == prefix + [d];
    assert (prefix + [d])[..|prefix|] == prefix;
    OrAssociative(OrAll(prefix), d, d);
    OrIdempotent(d);
  }

  /** `(x & mask) >> shift`, the source's way of reading a field, is the
      field's value. */
  lemma MaskedField(x: nat, f: Field)
    ensures And(x, Mask(f)) / Pow2(f.shift) == FieldValue(x, f)
  {
    var u, v := Pow2(f.shift), Pow2(f.width);
    Pow2IsPowerOfTwo(f.shift);
    Pow2IsPowerOfTwo(f.width);
    assert Mask(f) == (v - 1) * u;
    MaskedBits(x, u, v);
    assert FieldValue(x, f) == (x / u) % v;
  }

  /** The same for a mask `(v - 1) * u` given by two powers of two. */
  lemma MaskedBits(x: nat, u: nat, v: nat)
    requires PowerOfTwo(u) && PowerOfTwo(v)
    ensures And(x, (v - 1) * u) / u == (x / u) % v
  {
    var m: nat := v - 1;
    var y, r := DivMod(x, u);
    var a := And(y, m);
    AndAboveAt(x, y, r, m, u, a);
    AndLowMask(y, v);
    MulDivCancel(a, u);
  }

  lemma AndAboveAt(x: nat, q: nat, r: nat, mask: nat, u: nat, a: nat)
    requires PowerOfTwo(u) && r < u && x == q * u + r && a == And(q, mask)
    ensures And(x, mask * u) == a * u
  {
    AndAbove(q, r, mask, u);
  }

  lemma MulDivCancel(a: nat, u: nat)
    requires u > 0
    ensures (a * u) / u == a
  {
    DivUnique(a * u, u, a, 0);
  }
}
