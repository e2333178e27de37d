/** Decimal text: how balances are written, why comparing them by length and then as text is
    comparing numbers (`src/db.rs`), and how amounts are shown (`src/tokens.rs`). */
module Decimals {

  function Pow10(n: nat): (p: nat)
    ensures p >= 1
  {
    if n == 0 then 1 else 10 * Pow10(n - 1)
  }

  predicate IsDigit(c: char) { '0' <= c <= '9' }

  function DigitOf(c: char): (d: nat)
    requires IsDigit(c)
    ensures d < 10
  {
    c as int - '0' as int
  }

  function CharOf(d: nat): (c: char)
    requires d < 10
    ensures IsDigit(c) && DigitOf(c) == d
  {
    ('0' as int + d) as char
  }

  predicate AllDigits(s: string) { forall i :: 0 <= i < |s| ==> IsDigit(s[i]) }

  /** The number a run of digits spells; the empty run spells zero. */
  function Value(s: string): nat
    requires AllDigits(s)
  {
    if s == "" then 0 else 10 * Value(s[..|s| - 1]) + DigitOf(s[|s| - 1])
  }

  /** Never zero-padded. */
  predicate Canonical(s: string) { s != "" && AllDigits(s) && (s[0] == '0' ==> |s| == 1) }

  function Decimal(n: nat): (s: string)
    ensures Canonical(s) && Value(s) == n
  {
    if n < 10 then [CharOf(n)]
    else
      var s := Decimal(n / 10);
      assert (s + [CharOf(n % 10)])[..|s|] == s;
      assert s[0] != '0' by { if s[0] == '0' { assert s[..0] == ""; } }
      s + [CharOf(n % 10)]
  }

  /** `BigInt::to_string`. */
  function Text(n: int): string { if n < 0 then "-" + Decimal(-n) else Decimal(n) }

  // ---------------------------------------------------------- value lemmas

  lemma {:induction false} ValueJoin(s: string, t: string)
    requires AllDigits(s) && AllDigits(t)
    ensures AllDigits(s + t) && Value(s + t) == Value(s) * Pow10(|t|) + Value(t)
  {
    if t == "" {
      assert s + t == s;
    } else {
      var last := |t| - 1;
      ValueJoin(s, t[..last]);
      assert (s + t)[..|s + t| - 1] == s + t[..last];
      calc {
        Value(s + t);
        10 * (Value(s) * Pow10(last) + Value(t[..last])) + DigitOf(t[last]);
        { Distribute(Value(s), Pow10(last)); }
        Value(s) * Pow10(|t|) + Value(t);
      }
    }
  }

  lemma Distribute(x: int, p: int)
    ensures 10 * (x * p) == x * (10 * p)
  {
  }

  lemma {:induction false} ValueBounds(s: string)
    requires AllDigits(s)
    ensures Value(s) < Pow10(|s|)
    ensures Canonical(s) && s[0] != '0' ==> Pow10(|s| - 1) <= Value(s)
  {
    if |s| > 1 {
      assert s[..|s| - 1][0] == s[0];
      ValueBounds(s[..|s| - 1]);
    } else if |s| == 1 {
      assert s[..0] == "";
      assert Pow10(1) == 10;
    }
  }

  lemma {:induction false} Pow10Monotone(m: nat, n: nat)
    requires m <= n
    ensures Pow10(m) <= Pow10(n)
  {
    if m < n { Pow10Monotone(m, n - 1); }
  }

  lemma {:induction false} Pow10Adds(m: nat, n: nat)
    ensures Pow10(m + n) == Pow10(m) * Pow10(n)
  {
    if m > 0 {
      Pow10Adds(m - 1, n);
      assert Pow10(m + n) == 10 * (Pow10(m - 1) * Pow10(n));
      assert (10 * Pow10(m - 1)) * Pow10(n) == 10 * (Pow10(m - 1) * Pow10(n));
    }
  }

  // ------------------------------------------------------------ text order

  /** Text comparison, byte by byte. */
  predicate TextLess(s: string, t: string) {
    if t == "" then false
    else if s == "" then true
    else if s[0] != t[0] then s[0] < t[0]
    else TextLess(s[1..], t[1..])
  }

  /** The order of a holders listing, ascending: by length, then as text. */
  predicate ListedBelow(s: string, t: string) { |s| < |t| || (|s| == |t| && TextLess(s, t)) }

  lemma OneDigit(c: char)
    requires IsDigit(c)
    ensures Value([c]) == DigitOf(c)
  {
    assert [c][..0] == "";
  }

  lemma LeadingDigit(s: string)
    requires AllDigits(s) && s != ""
    ensures Value(s) == DigitOf(s[0]) * Pow10(|s| - 1) + Value(s[1..]) && Value(s[1..]) < Pow10(|s| - 1)
  {
    OneDigit(s[0]);
    ValueJoin([s[0]], s[1..]);
    ValueBounds(s[1..]);
    assert s == [s[0]] + s[1..];
  }

  lemma {:induction false} SameLengthOrder(s: string, t: string)
    requires AllDigits(s) && AllDigits(t) && |s| == |t|
    ensures TextLess(s, t) <==> Value(s) < Value(t)
  {
    if s != "" {
      LeadingDigit(s);
      LeadingDigit(t);
      var a, b, p := DigitOf(s[0]), DigitOf(t[0]), Pow10(|s| - 1);
      if a < b {
        LeadingDigitDecides(a, b, p, Value(s[1..]), Value(t[1..]));
      } else if b < a {
        LeadingDigitDecides(b, a, p, Value(t[1..]), Value(s[1..]));
      } else {
        SameLengthOrder(s[1..], t[1..]);
      }
    }
  }

  lemma LeadingDigitDecides(a: nat, b: nat, p: nat, x: nat, y: nat)
    requires a < b && x < p
    ensures a * p + x < b * p + y
  {
    assert (a + 1) * p <= b * p;
  }

  /** Among canonical decimal numbers, listing order is numeric order. */
  lemma ListedBelowIsLess(s: string, t: string)
    requires Canonical(s) && Canonical(t)
    ensures ListedBelow(s, t) <==> Value(s) < Value(t)
  {
    if |s| == |t| {
      SameLengthOrder(s, t);
    } else if |s| < |t| {
      ShorterIsLess(s, t);
    } else {
      ShorterIsLess(t, s);
    }
  }

  lemma {:induction false} ShorterIsLess(s: string, t: string)
    requires Canonical(s) && Canonical(t) && |s| < |t|
    ensures Value(s) < Value(t)
  {
    ValueBounds(s);
    ValueBounds(t);
    Pow10Monotone(|s|, |t| - 1);
  }

  /** A number's text is the canonical digits of its magnitude, after a minus if it is negative. */
  lemma TextReads(n: int)
    ensures
      var digits := if n < 0 then Text(n)[1..] else Text(n);
      && (n < 0 ==> Text(n) == ['-'] + digits)
      && Canonical(digits) && Value(digits) == Abs(n)
  {
  }

  /** A text starts with a minus exactly when its number is negative, which is how the holders
      queries tell a holding. */
  lemma MinusIsNegative(n: int)
    ensures Text(n) != "" && (Text(n)[0] == '-' <==> n < 0)
  {
  }

  // ------------------------------------------------------ amounts for display

  function Abs(n: int): nat { if n < 0 then -n else n }

  /** A sign, a whole part and a fraction, put together as shown. */
  function Shown(negative: bool, whole: nat, fraction: string): string {
    (if negative then "-" else "") + (Decimal(whole) + if fraction == "" then "" else "." + fraction)
  }

  /** Where the first dot is, or the end. */
  function DotAt(s: string): (k: nat)
    ensures k <= |s| && (k < |s| ==> s[k] == '.') && forall i :: 0 <= i < k ==> s[i] != '.'
  {
    if s == "" || s[0] == '.' then 0 else 1 + DotAt(s[1..])
  }

  /** Read a shown amount back: sign, whole part, fraction digits. */
  function Read(s: string): (bool, string, string) {
    var negative := s != "" && s[0] == '-';
    var body := if negative then s[1..] else s;
    var k := DotAt(body);
    (negative, body[..k], if k < |body| then body[k + 1..] else "")
  }

  lemma {:induction false} DotAfterDigits(digits: string, tail: string)
    requires AllDigits(digits) && (tail == "" || tail[0] == '.')
    ensures DotAt(digits + tail) == |digits|
  {
    if digits == "" {
      assert digits + tail == tail;
    } else {
      assert (digits + tail)[1..] == digits[1..] + tail;
      DotAfterDigits(digits[1..], tail);
    }
  }

  /** What is shown can be read back. */
  lemma ShownReads(negative: bool, whole: nat, fraction: string)
    requires AllDigits(fraction)
    ensures Read(Shown(negative, whole, fraction)) == (negative, Decimal(whole), fraction)
  {
    var tail := if fraction == "" then "" else "." + fraction;
    BodyReads(Decimal(whole), tail, fraction);
    SignReads(negative, Decimal(whole) + tail);
  }

  lemma SignReads(negative: bool, body: string)
    requires body != "" && body[0] != '-'
    ensures
      var k := DotAt(body);
      Read((if negative then "-" else "") + body) == (negative, body[..k], if k < |body| then body[k + 1..] else "")
  {
    if negative { assert ("-" + body)[1..] == body; } else { assert "" + body == body; }
  }

  lemma BodyReads(digits: string, tail: string, fraction: string)
    requires AllDigits(digits) && tail == if fraction == "" then "" else "." + fraction
    ensures
      var (body, k) := (digits + tail, DotAt(digits + tail));
      body[..k] == digits && (if k < |body| then body[k + 1..] else "") == fraction
  {
    DotAfterDigits(digits, tail);
    if fraction != "" { assert (digits + tail)[|digits| + 1..] == fraction; }
  }

  /** Whole part and fraction as one number, in units of the fraction's last digit. */
  function Units(whole: nat, fraction: string): nat
    requires AllDigits(fraction)
  {
    whole * Pow10(|fraction|) + Value(fraction)
  }

  /** What a shown fraction must be: at most six digits, the amount cut off toward zero after
      them, nothing cut off unless all six are shown, and no zero at its end unless something was
      cut off after it. */
  ghost predicate Truncates(amount: int, decimals: nat, whole: nat, fraction: string) {
    && AllDigits(fraction) && |fraction| <= 6 && |fraction| <= decimals
    && (var unit := Pow10(decimals - |fraction|);
        && Units(whole, fraction) * unit <= Abs(amount) < Units(whole, fraction) * unit + unit
        && (|fraction| < 6 ==> Units(whole, fraction) * unit == Abs(amount))
        && (fraction != "" && fraction[|fraction| - 1] == '0' ==> Units(whole, fraction) * unit < Abs(amount)))
  }

  /** Read back, the text has the amount's sign and is the amount over 10^decimals, cut. */
  ghost predicate Displays(amount: int, decimals: nat, s: string) {
    var (negative, whole, fraction) := Read(s);
    negative == (amount < 0) && Canonical(whole) && Truncates(amount, decimals, Value(whole), fraction)
  }

  /** What is shown is the amount itself exactly when the amount has at most six decimals. */
  lemma ShownExactlyIff(amount: int, decimals: nat, whole: nat, fraction: string)
    requires Truncates(amount, decimals, whole, fraction)
    ensures Units(whole, fraction) * Pow10(decimals - |fraction|) == Abs(amount) <==>
            Abs(amount) % Pow10(if decimals > 6 then decimals - 6 else 0) == 0
  {
    var n := |fraction|;
    var u, coarse := Units(whole, fraction), Pow10(decimals - n);
    var fine := Pow10(if decimals > 6 then decimals - 6 else 0);
    if n == 6 {
      ExactIffDivides(Abs(amount), u, coarse);
    } else {
      var more := if decimals > 6 then 6 - n else decimals - n;
      Pow10Adds(more, decimals - n - more);
      DividesMultiple(u, Pow10(more), fine);
    }
  }

  lemma ExactIffDivides(a: nat, u: nat, p: nat)
    requires p > 0 && u * p <= a < u * p + p
    ensures a == u * p <==> a % p == 0
  {
    QuotientIs(a, u, p, a - u * p);
  }

  lemma QuotientIs(a: nat, q: nat, p: nat, r: nat)
    requires p > 0 && a == q * p + r && r < p
    ensures a / p == q && a % p == r
  {
    var k := a / p;
    if k < q { MulMonotone(k + 1, q, p); }
    if k > q { MulMonotone(q + 1, k, p); }
  }

  lemma MulMonotone(x: int, y: int, p: nat)
    requires x <= y
    ensures x * p <= y * p
  {
  }

  lemma DividesMultiple(u: nat, k: nat, p: nat)
    requires p > 0
    ensures (u * (k * p)) % p == 0
  {
    assert u * (k * p) == (u * k) * p;
    QuotientIs((u * k) * p, u * k, p, 0);
  }

  /** The fraction is padded to the token's decimals, stripped of trailing zeros and then cut. Token
      decimals below 0 count as 0, above 30 as 30. */
  method FormatTokenAmount(amount: int, decimals: int) returns (s: string)
    ensures amount == 0 ==> s == "0"
    ensures amount != 0 && 0 <= decimals <= 30 ==> Displays(amount, decimals, s)
    ensures amount != 0 && decimals < 0 ==> Displays(amount, 0, s)
    ensures amount != 0 && decimals > 30 ==> Displays(amount, 30, s)
  {
    if amount == 0 {
      return "0";
    }
    s := FormatNonZero(amount, if decimals < 0 then 0 else if decimals > 30 then 30 else decimals);
  }

  method FormatNonZero(amount: int, d: nat) returns (s: string)
    requires amount != 0
    ensures Displays(amount, d, s)
  {
    var divisor := Pow10(d);
    var whole, rest := Divided(Abs(amount), divisor);
    var full := Padded(Decimal(rest), d);
    var frac := Stripped(full);
    ghost var kept := |frac|;
    if |frac| > 6 {
      frac := frac[..6];
    }
    CutIsTruncation(Abs(amount), whole, d, full, kept, frac);
    TruncationDisplays(amount, d, whole, frac);
    s := Shown(amount < 0, whole, frac);
  }

  lemma TruncationDisplays(amount: int, d: nat, whole: nat, frac: string)
    requires Truncates(Abs(amount), d, whole, frac)
    ensures Displays(amount, d, Shown(amount < 0, whole, frac))
  {
    ShownReads(amount < 0, whole, frac);
  }

  method Divided(n: nat, divisor: nat) returns (q: nat, r: nat)
    requires divisor > 0
    ensures n == q * divisor + r && r < divisor
  {
    q, r := n / divisor, n % divisor;
  }

  /** Trailing zeros off. */
  method Stripped(full: string) returns (frac: string)
    ensures |frac| <= |full| && frac == full[..|frac|]
    ensures forall i :: |frac| <= i < |full| ==> full[i] == '0'
    ensures frac != "" ==> frac[|frac| - 1] != '0'
  {
    frac := full;
    while frac != "" && frac[|frac| - 1] == '0'
      invariant |frac| <= |full| && frac == full[..|frac|]
      invariant forall i :: |frac| <= i < |full| ==> full[i] == '0'
      decreases |frac|
    {
      frac := frac[..|frac| - 1];
    }
  }

  /** Zeros in front up to `d` digits. */
  method Padded(digits: string, d: nat) returns (frac: string)
    requires AllDigits(digits) && digits != "" && Value(digits) < Pow10(d) && Canonical(digits)
    ensures AllDigits(frac) && Value(frac) == Value(digits)
    ensures |frac| == if d == 0 then 1 else d
  {
    frac := digits;
    PaddingFits(digits, d);
    while |frac| < d
      invariant AllDigits(frac) && Value(frac) == Value(digits)
      invariant |frac| <= if d == 0 then 1 else d
    {
      ValueJoin("0", frac);
      assert Value("0") == 0 by { assert "0"[..0] == ""; }
      frac := "0" + frac;
    }
  }

  lemma {:induction false} PaddingFits(digits: string, d: nat)
    requires Canonical(digits) && Value(digits) < Pow10(d)
    ensures |digits| <= if d == 0 then 1 else d
  {
    ValueBounds(digits);
    if digits[0] != '0' { Pow10Reflects(|digits| - 1, d); }
  }

  lemma {:induction false} Pow10Reflects(m: nat, n: nat)
    requires Pow10(m) < Pow10(n)
    ensures m < n
  {
    if n <= m { Pow10Monotone(n, m); }
  }

  lemma {:induction false} ZerosAreNothing(s: string)
    requires forall i :: 0 <= i < |s| ==> s[i] == '0'
    ensures AllDigits(s) && Value(s) == 0
  {
    if s != "" { ZerosAreNothing(s[..|s| - 1]); }
  }

  lemma {:induction false} NotAllZeros(s: string, i: nat)
    requires AllDigits(s) && i < |s| && s[i] != '0'
    ensures Value(s) > 0
  {
    if i < |s| - 1 { NotAllZeros(s[..|s| - 1], i); }
  }

  /** Cutting the padded fraction after `frac`, when only zeros follow `kept` digits of it. */
  lemma CutIsTruncation(magnitude: nat, whole: nat, d: nat, full: string, kept: nat, frac: string)
    requires AllDigits(full) && |full| == (if d == 0 then 1 else d)
    requires magnitude == whole * Pow10(d) + Value(full)
    requires kept <= |full| && (forall i :: kept <= i < |full| ==> full[i] == '0')
    requires kept > 0 ==> full[kept - 1] != '0'
    requires d == 0 ==> kept == 0 && Value(full) == 0
    requires frac == full[..if kept > 6 then 6 else kept]
    ensures Truncates(magnitude, d, whole, frac)
  {
    if kept > 6 { NotAllZeros(full[6..], kept - 7); }
    if d == 0 {
      assert full[..0] == "";
      assert frac == "" && Pow10(0) == 1;
      assert Units(whole, "") * 1 == whole;
    } else {
      CutEquation(magnitude, whole, d, full, frac);
      if kept <= 6 { ZerosAreNothing(full[|frac|..]); }
    }
  }

  lemma CutEquation(magnitude: nat, whole: nat, d: nat, full: string, frac: string)
    requires AllDigits(full) && |full| == d && |frac| <= d && frac == full[..|frac|]
    requires magnitude == whole * Pow10(d) + Value(full)
    ensures magnitude == Units(whole, frac) * Pow10(d - |frac|) + Value(full[|frac|..])
    ensures Value(full[|frac|..]) < Pow10(d - |frac|)
  {
    var tail := full[|frac|..];
    assert full == frac + tail;
    ValueJoin(frac, tail);
    ValueBounds(tail);
    Rescale(whole, d, |frac|, Value(frac));
  }

  lemma Rescale(whole: nat, d: nat, n: nat, head: nat)
    requires n <= d
    ensures whole * Pow10(d) + head * Pow10(d - n) == (whole * Pow10(n) + head) * Pow10(d - n)
  {
    Pow10Adds(n, d - n);
    Regroup(whole, Pow10(n), Pow10(d - n), head);
  }

  lemma Regroup(q: int, p: int, u: int, h: int)
    ensures q * (p * u) + h * u == (q * p + h) * u
  {
  }
}
