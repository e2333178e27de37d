/** Printing an ABI `int<M>` in `src/decoder.rs`: mask the word, compare with the sign bit, and
    complement. The bit operations are defined bit by bit, for words of any width `w`; the
    explorer's words have 256 bits. */
module SignedWord {
  import opened Decimals

  function Pow2(n: nat): (p: nat)
    ensures p >= 1
  {
    if n == 0 then 1 else 2 * Pow2(n - 1)
  }

  function And(x: nat, y: nat): nat {
    if x == 0 || y == 0 then 0 else 2 * And(x / 2, y / 2) + (if x % 2 == 1 && y % 2 == 1 then 1 else 0)
  }

  function Xor(x: nat, y: nat): nat
    decreases x + y
  {
    if x == 0 then y
    else if y == 0 then x
    else 2 * Xor(x / 2, y / 2) + (if x % 2 != y % 2 then 1 else 0)
  }

  function Quotient(x: nat, p: nat): nat
    requires p >= 1
  {
    x / p
  }

  function ShiftRight(x: nat, n: nat): nat { Quotient(x, Pow2(n)) }

  function ShiftLeft(w: nat, x: nat, n: nat): nat { (x * Pow2(n)) % Pow2(w) }

  lemma {:induction false} Pow2Adds(m: nat, n: nat)
    ensures Pow2(m + n) == Pow2(m) * Pow2(n)
  {
    if m > 0 {
      Pow2Adds(m - 1, n);
      assert (2 * Pow2(m - 1)) * Pow2(n) == 2 * (Pow2(m - 1) * Pow2(n));
    }
  }

  /** The all-ones word, shifted: the mask of the low `bits`. */
  function Mask(w: nat, bits: nat): nat
    requires bits <= w
  {
    ShiftRight(Pow2(w) - 1, w - bits)
  }

  lemma MaskIs(w: nat, bits: nat)
    requires bits <= w
    ensures Mask(w, bits) == Pow2(bits) - 1
  {
    var q, p := Pow2(bits), Pow2(w - bits);
    Pow2Adds(bits, w - bits);
    Ones(q, p);
    QuotientIs(q * p - 1, q - 1, p, p - 1);
  }

  lemma Ones(q: int, p: int)
    ensures q * p - 1 == (q - 1) * p + (p - 1)
  {
  }

  lemma {:induction false} Pow2Grows(m: nat, n: nat)
    requires m < n
    ensures Pow2(m) < Pow2(n)
  {
    if m + 1 < n { Pow2Grows(m, n - 1); }
  }

  lemma SignBitIs(w: nat, bits: nat)
    requires 1 <= bits <= w
    ensures ShiftLeft(w, 1, bits - 1) == Pow2(bits - 1)
  {
    Pow2Grows(bits - 1, w);
    QuotientIs(Pow2(bits - 1), 0, Pow2(w), Pow2(bits - 1));
  }

  /** Masking with the low `bits` ones is taking the remainder. */
  lemma {:induction false} MaskIsRemainder(x: nat, bits: nat)
    ensures And(x, Pow2(bits) - 1) == x % Pow2(bits)
  {
    if bits > 0 {
      var p := Pow2(bits - 1);
      MaskIsRemainder(x / 2, bits - 1);
      OnesHalve(p);
      RemainderDoubles(x, p);
    }
  }

  lemma OnesHalve(p: nat)
    requires p >= 1
    ensures (2 * p - 1) / 2 == p - 1 && (2 * p - 1) % 2 == 1
  {
  }

  lemma RemainderDoubles(x: nat, p: nat)
    requires p >= 1
    ensures x % (2 * p) == 2 * ((x / 2) % p) + x % 2
  {
    var q, r := (x / 2) / p, (x / 2) % p;
    Regroup(q, p);
    QuotientIs(x, q, 2 * p, 2 * r + x % 2);
  }

  lemma Regroup(q: int, p: int)
    ensures q * (2 * p) == 2 * (q * p)
  {
  }

  /** Flipping the low `bits` of a value that fits them is subtracting from the mask. */
  lemma {:induction false} FlipIsComplement(x: nat, bits: nat)
    requires x < Pow2(bits)
    ensures Xor(x, Pow2(bits) - 1) == Pow2(bits) - 1 - x
  {
    if bits > 0 && x > 0 {
      var p := Pow2(bits - 1);
      OnesHalve(p);
      FlipIsComplement(x / 2, bits - 1);
    }
  }

  /** The `Int` arm of `format_token`, on one word. */
  function FormatInt(w: nat, word: nat, bits: nat): string
    requires 1 <= bits <= w
  {
    var mask := Mask(w, bits);
    var n := And(word, mask);
    if n < ShiftLeft(w, 1, bits - 1) then Decimal(n) else "-" + Decimal(Xor(n, mask) + 1)
  }

  /** The two's-complement value of the low `bits` of a word. */
  function SignedValue(word: nat, bits: nat): int
    requires bits >= 1
  {
    var n := word % Pow2(bits);
    if n < Pow2(bits - 1) then n else n - Pow2(bits)
  }

  /** `s` is a number in decimal: canonical digits, after a minus if the number is negative. */
  predicate Spells(s: string, n: int) {
    var digits := if n < 0 && s != "" then s[1..] else s;
    (n < 0 ==> s != "" && s[0] == '-') && Canonical(digits) && Value(digits) == if n < 0 then -n else n
  }

  lemma FormatIntText(w: nat, word: nat, bits: nat)
    requires 1 <= bits <= w
    ensures FormatInt(w, word, bits) == Text(SignedValue(word, bits))
    ensures 0 - Pow2(bits - 1) <= SignedValue(word, bits) < Pow2(bits - 1)
  {
    MaskIs(w, bits);
    SignBitIs(w, bits);
    MaskIsRemainder(word, bits);
    FlipIsComplement(word % Pow2(bits), bits);
  }

  /** What is printed is the two's-complement value of the low `bits`, for every width and
      every word, the least value included. */
  lemma FormatIntIsSigned(w: nat, word: nat, bits: nat)
    requires 1 <= bits <= w
    ensures Spells(FormatInt(w, word, bits), SignedValue(word, bits))
    ensures FormatInt(w, word, bits) == Text(SignedValue(word, bits))
    ensures 0 - Pow2(bits - 1) <= SignedValue(word, bits) < Pow2(bits - 1)
  {
    FormatIntText(w, word, bits);
    TextReads(SignedValue(word, bits));
  }

  /** The addition after the complement stays within the word. */
  lemma NoOverflow(w: nat, word: nat, bits: nat)
    requires 1 <= bits <= w && word % Pow2(bits) >= Pow2(bits - 1)
    ensures Xor(And(word, Mask(w, bits)), Mask(w, bits)) + 1 < Pow2(w)
  {
    MaskIs(w, bits);
    MaskIsRemainder(word, bits);
    FlipIsComplement(word % Pow2(bits), bits);
    Pow2Grows(bits - 1, w);
  }

  /** A value sign-extended across the word prints as itself. */
  lemma SignExtensionPrints(w: nat, value: int, bits: nat)
    requires 1 <= bits <= w && 0 - Pow2(bits - 1) <= value < Pow2(bits - 1)
    ensures
      var word := if value < 0 then value + Pow2(w) else value;
      0 <= word < Pow2(w) && FormatInt(w, word, bits) == Text(value) && Spells(FormatInt(w, word, bits), value)
  {
    TextReads(value);
    if value < 0 { NegativePrints(w, value, bits); } else { PositivePrints(w, value, bits); }
  }

  lemma NegativePrints(w: nat, value: int, bits: nat)
    requires 1 <= bits <= w && 0 - Pow2(bits - 1) <= value < 0
    ensures 0 <= value + Pow2(w) < Pow2(w) && FormatInt(w, value + Pow2(w), bits) == Text(value)
  {
    NegativeWord(w, value, bits);
    FormatIntText(w, value + Pow2(w), bits);
  }

  lemma PositivePrints(w: nat, value: nat, bits: nat)
    requires 1 <= bits <= w && value < Pow2(bits - 1)
    ensures value < Pow2(w) && FormatInt(w, value, bits) == Text(value)
  {
    Pow2Grows(bits - 1, w);
    QuotientIs(value, 0, Pow2(bits), value);
    FormatIntText(w, value, bits);
  }

  lemma NegativeWord(w: nat, value: int, bits: nat)
    requires 1 <= bits <= w && 0 - Pow2(bits - 1) <= value < 0
    ensures 0 <= value + Pow2(w) && (value + Pow2(w)) % Pow2(bits) == value + Pow2(bits)
  {
    var (k, p) := (Pow2(w - bits), Pow2(bits));
    Pow2Adds(w - bits, bits);
    Extended(k, p, value);
    QuotientIs(value + k * p, k - 1, p, value + p);
  }

  lemma Extended(k: int, p: int, v: int)
    ensures v + k * p == (k - 1) * p + (v + p)
  {
  }
}
