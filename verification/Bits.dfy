/** Bitwise facts on natural numbers: `|`, shifts, bit fields and little-endian bytes. */
module Bits {
  import opened Wrappers

  function Pow2(n: nat): (p: nat)
    ensures p > 0
  {
    if n == 0 then 1 else 2 * Pow2(n - 1)
  }

  lemma {:induction false} Pow2Grows(m: nat, n: nat)
    requires m <= n
    ensures Pow2(m) <= Pow2(n)
  {
    if m < n {
      Pow2Grows(m, n - 1);
    }
  }

  /** `a | b`. */
  function Or(a: nat, b: nat): nat {
    if a == 0 && b == 0 then 0
    else 2 * Or(a / 2, b / 2) + (if a % 2 == 1 || b % 2 == 1 then 1 else 0)
  }

  lemma {:induction false} OrZero(a: nat)
    ensures Or(a, 0) == a && Or(0, a) == a
  {
    if a != 0 {
      OrZero(a / 2);
    }
  }

  lemma OrUnfolds(a: nat, b: nat)
    ensures Or(a, b) / 2 == Or(a / 2, b / 2)
    ensures Or(a, b) % 2 == if a % 2 == 1 || b % 2 == 1 then 1 else 0
  {
  }

  /** `v << s`, unbounded. */
  function ShiftLeft(v: nat, s: nat): nat {
    if s == 0 then v else 2 * ShiftLeft(v, s - 1)
  }

  /** `v >> s`. */
  function ShiftRight(v: nat, s: nat): nat {
    if s == 0 then v else ShiftRight(v / 2, s - 1)
  }

  /** `v & ((1 << w) - 1)`. */
  function Mask(v: nat, w: nat): nat {
    if w == 0 then 0 else 2 * Mask(v / 2, w - 1) + v % 2
  }

  /** The `width` bits of `word` from bit `shift` on. */
  function Field(word: nat, shift: nat, width: nat): nat {
    Mask(ShiftRight(word, shift), width)
  }

  lemma {:induction false} OrShifts(a: nat, b: nat, s: nat)
    ensures ShiftRight(Or(a, b), s) == Or(ShiftRight(a, s), ShiftRight(b, s))
  {
    if s > 0 {
      OrUnfolds(a, b);
      OrShifts(a / 2, b / 2, s - 1);
    }
  }

  lemma {:induction false} OrMasks(a: nat, b: nat, w: nat)
    ensures Mask(Or(a, b), w) == Or(Mask(a, w), Mask(b, w))
  {
    if w > 0 {
      OrUnfolds(a, b);
      OrMasks(a / 2, b / 2, w - 1);
      OrDoubles(Mask(a / 2, w - 1), a % 2, Mask(b / 2, w - 1), b % 2);
    }
  }

  lemma OrDoubles(a: nat, x: nat, b: nat, y: nat)
    requires x < 2 && y < 2
    ensures Or(2 * a + x, 2 * b + y) == 2 * Or(a, b) + (if x == 1 || y == 1 then 1 else 0)
  {
    assert (2 * a + x) / 2 == a && (2 * b + y) / 2 == b;
  }

  /** A field of a union is the union of the fields. */
  lemma OrFields(a: nat, b: nat, s: nat, w: nat)
    ensures Field(Or(a, b), s, w) == Or(Field(a, s, w), Field(b, s, w))
  {
    OrShifts(a, b, s);
    OrMasks(ShiftRight(a, s), ShiftRight(b, s), w);
  }

  lemma {:induction false} OrFits(a: nat, b: nat, n: nat)
    requires a < Pow2(n) && b < Pow2(n)
    ensures Or(a, b) < Pow2(n)
  {
    if n > 0 {
      OrUnfolds(a, b);
      OrFits(a / 2, b / 2, n - 1);
    }
  }

  lemma {:induction false} MaskKeeps(v: nat, w: nat)
    requires v < Pow2(w)
    ensures Mask(v, w) == v
  {
    if w > 0 {
      MaskKeeps(v / 2, w - 1);
    }
  }

  lemma {:induction false} ShiftLeftFits(v: nat, s: nat, w: nat)
    requires v < Pow2(w)
    ensures ShiftLeft(v, s) < Pow2(s + w)
  {
    if s > 0 {
      ShiftLeftFits(v, s - 1, w);
    }
  }

  lemma {:induction false} ShiftRightClears(v: nat, s: nat)
    requires v < Pow2(s)
    ensures ShiftRight(v, s) == 0
  {
    if s > 0 {
      ShiftRightClears(v / 2, s - 1);
    }
  }

  lemma {:induction false} ShiftsCancel(v: nat, s: nat, back: nat)
    requires back <= s
    ensures ShiftRight(ShiftLeft(v, s), back) == ShiftLeft(v, s - back)
  {
    if back > 0 {
      assert ShiftLeft(v, s) / 2 == ShiftLeft(v, s - 1);
      ShiftsCancel(v, s - 1, back - 1);
    }
  }

  lemma {:induction false} MaskBelowShift(v: nat, s: nat, w: nat)
    requires w <= s
    ensures Mask(ShiftLeft(v, s), w) == 0
  {
    if w > 0 {
      assert ShiftLeft(v, s) / 2 == ShiftLeft(v, s - 1);
      MaskBelowShift(v, s - 1, w - 1);
    }
  }

  /** A shifted value is the content of its own field and leaves a disjoint field empty. */
  lemma ShiftedField(v: nat, s: nat, w: nat, s': nat, w': nat)
    requires v < Pow2(w)
    ensures Field(ShiftLeft(v, s), s, w) == v
    ensures s + w <= s' || s' + w' <= s ==> Field(ShiftLeft(v, s), s', w') == 0
  {
    ShiftsCancel(v, s, s);
    MaskKeeps(v, w);
    if s + w <= s' {
      ShiftLeftFits(v, s, w);
      Pow2Grows(s + w, s');
      ShiftRightClears(ShiftLeft(v, s), s');
      MaskKeeps(0, w');
    } else if s' + w' <= s {
      ShiftsCancel(v, s, s');
      MaskBelowShift(v, s - s', w');
    }
  }

  /** What is or-ed into an empty field is added to the word. */
  lemma {:induction false} OrAdds(a: nat, v: nat, s: nat, w: nat)
    requires v < Pow2(w) && Field(a, s, w) == 0
    ensures Or(a, ShiftLeft(v, s)) == a + v * Pow2(s)
  {
    hide Or, Mask;
    if s == 0 {
      OrAddsLow(a, v, w);
    } else {
      OrUnfolds(a, ShiftLeft(v, s));
      assert ShiftLeft(v, s) / 2 == ShiftLeft(v, s - 1);
      OrAdds(a / 2, v, s - 1, w);
      Pow2Doubles(v, s);
    }
  }

  lemma Pow2Doubles(v: nat, s: nat)
    requires s > 0
    ensures v * Pow2(s) == 2 * (v * Pow2(s - 1))
  {
    assert Pow2(s) == 2 * Pow2(s - 1);
  }

  lemma {:induction false} OrAddsLow(a: nat, v: nat, w: nat)
    requires v < Pow2(w) && Mask(a, w) == 0
    ensures Or(a, v) == a + v
  {
    if w == 0 {
      OrZero(a);
    } else {
      OrUnfolds(a, v);
      OrAddsLow(a / 2, v / 2, w - 1);
    }
  }

  /** The field in arithmetic: divide by the place of its first bit, keep what is below its width. */
  lemma FieldIsDivision(word: nat, shift: nat, width: nat)
    ensures Field(word, shift, width) == word / Pow2(shift) % Pow2(width)
  {
    ShiftRightDivides(word, shift);
    MaskIsRemainder(ShiftRight(word, shift), width);
  }

  lemma {:induction false} ShiftRightDivides(v: nat, s: nat)
    ensures ShiftRight(v, s) == v / Pow2(s)
  {
    if s > 0 {
      ShiftRightDivides(v / 2, s - 1);
      HalfThenDivide(v, Pow2(s - 1));
    }
  }

  lemma HalfThenDivide(v: nat, d: nat)
    requires d > 0
    ensures v / 2 / d == v / (2 * d)
    ensures v % (2 * d) == 2 * (v / 2 % d) + v % 2
  {
    var half := v / 2;
    var q, r := half / d, half % d;
    assert half == d * q + r;
    assert (2 * d) * q == 2 * (d * q);
    DivIs(v, 2 * d, q);
    assert v == (2 * d) * (v / (2 * d)) + v % (2 * d);
  }

  lemma {:induction false} MaskIsRemainder(v: nat, w: nat)
    ensures Mask(v, w) == v % Pow2(w)
  {
    if w > 0 {
      MaskIsRemainder(v / 2, w - 1);
      HalfThenDivide(v, Pow2(w - 1));
    }
  }

  // ---- products and quotients ---------------------------------------------------------------

  lemma DivBounds(a: nat, d: nat)
    requires d > 0
    ensures d * (a / d) <= a < d * (a / d) + d
  {
  }

  lemma DivIs(a: nat, d: nat, q: nat)
    requires d > 0 && d * q <= a < d * q + d
    ensures a / d == q
  {
    DivBounds(a, d);
    QuotientUnique(a, d, q, a / d);
  }

  lemma QuotientUnique(a: nat, d: nat, p: nat, q: nat)
    requires d * p <= a < d * p + d && d * q <= a < d * q + d
    ensures p == q
  {
    MulGrows(d, p + 1, q);
    MulGrows(d, q + 1, p);
    assert d * (p + 1) == d * p + d && d * (q + 1) == d * q + d;
  }

  lemma DivGrows(a: nat, b: nat, d: nat)
    requires d > 0 && a <= b
    ensures a / d <= b / d
  {
    DivBounds(a, d);
    DivBounds(b, d);
    MulGrows(d, b / d + 1, a / d);
    assert d * (b / d + 1) == d * (b / d) + d;
  }

  lemma MulGrows(d: nat, p: nat, q: nat)
    ensures p <= q ==> d * p <= d * q && p * d <= q * d
  {
    if p <= q {
      assert d * q == d * p + d * (q - p);
    }
  }

  lemma MultipleOf(d: nat, q: nat)
    requires d > 0
    ensures (q * d) % d == 0
  {
    assert q * d == d * q;
    DivIs(d * q, d, q);
  }

  // ---- bytes --------------------------------------------------------------------------------

  /** The `n` low bytes of a word, least significant first (a truncating cast, then a memcpy). */
  function LittleEndian(word: nat, n: nat): (bytes: seq<Uint8>)
    ensures |bytes| == n
  {
    if n == 0 then [] else [word % 256] + LittleEndian(word / 256, n - 1)
  }

  function FromLittleEndian(bytes: seq<Uint8>): nat {
    if bytes == [] then 0 else bytes[0] + 256 * FromLittleEndian(bytes[1..])
  }

  /** Nothing is lost when the word fits. */
  lemma {:induction false} BytesRoundTrip(word: nat, n: nat)
    requires word < Pow2(8 * n)
    ensures FromLittleEndian(LittleEndian(word, n)) == word
  {
    if n > 0 {
      ByteOfPow2(8 * (n - 1));
      assert LittleEndian(word, n)[1..] == LittleEndian(word / 256, n - 1);
      BytesRoundTrip(word / 256, n - 1);
    }
  }

  lemma ByteOfPow2(n: nat)
    ensures Pow2(n + 8) == 256 * Pow2(n)
  {
    assert Pow2(n + 8) == 2 * Pow2(n + 7) == 4 * Pow2(n + 6) == 8 * Pow2(n + 5) == 16 * Pow2(n + 4);
    assert Pow2(n + 4) == 2 * Pow2(n + 3) == 4 * Pow2(n + 2) == 8 * Pow2(n + 1) == 16 * Pow2(n);
  }
}
