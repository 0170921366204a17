/** The consumption-tax tooltip of the number-entry screen: the four ways
    `calculateTax` derives a tax from an amount, the discrepancy note, the exact
    and partial match marks, and the reverse calculations that suggest an amount
    for a typed tax. The rates are the exact fractions 1/10 and 2/25; the
    scripts' binary floating point is not modelled. */
module Tax {
  import opened Wrappers
  import opened JsString

  // ---------------------------------------------------------------- rates and rounding

  /** The standard rate of 10 % and the reduced rate of 8 %, as numerator over denominator. */
  datatype Rate = Standard | Reduced {
    function Num(): nat { if this == Standard then 1 else 2 }
    function Den(): nat { if this == Standard then 10 else 25 }
    function Value(): (r: real)
      ensures 0.0 < r < 0.5
      ensures r == Num() as real / Den() as real
    {
      Num() as real / Den() as real
    }
  }

  /** `Math.floor` of a quotient with a positive divisor is integer division. */
  lemma {:induction false} FloorQuotient(p: int, q: int)
    requires q > 0
    ensures (p as real / q as real).Floor == p / q
  {
    var d, m := p / q, p % q;
    assert p == d * q + m;
    assert p as real / q as real == d as real + m as real / q as real;
    assert 0.0 <= m as real / q as real < 1.0;
  }

  /** `Math.ceil`. */
  function Ceil(x: real): (c: int)
    ensures c as real - 1.0 < x <= c as real
  {
    -((-x).Floor)
  }

  /** `Math.ceil` of a quotient with a positive divisor. */
  lemma {:induction false} CeilQuotient(p: int, q: int)
    requires q > 0
    ensures Ceil(p as real / q as real) == -((-p) / q)
  {
    FloorQuotient(-p, q);
    assert -(p as real / q as real) == (-p) as real / q as real;
  }

  // ---------------------------------------------------------------- calculateTax

  /** The four calculations the tooltip shows: tax included (the National Tax
      Agency way, and directly), tax excluded, and tax excluded rounded up for
      slip adjustment. */
  datatype TaxKind = InclusiveNta | InclusiveDirect | Exclusive | ExclusiveAdjusted

  /** `calculateTax(amount, rate, type, useDirect)`: the amount is first truncated
      with `Math.floor`. Each result is the matching whole-yen formula of the
      truncated amount. */
  function CalculateTax(amount: real, rate: Rate, kind: TaxKind): (t: int)
    ensures kind == InclusiveNta ==> t == NtaOf(amount.Floor, rate)
    ensures kind == InclusiveDirect ==> t == DirectOf(amount.Floor, rate)
    ensures kind == Exclusive ==> t == ExclusiveOf(amount.Floor, rate)
    ensures kind == ExclusiveAdjusted ==> t == AdjustedOf(amount.Floor, rate)
  {
    var a := amount.Floor;
    match kind
    case InclusiveNta => NtaTax(a, rate)
    case InclusiveDirect => DirectTax(a, rate)
    case ExclusiveAdjusted => AdjustedTax(a, rate)
    case Exclusive => ExclusiveTax(a, rate)
  }

  /** `amount - Math.floor(amount / (1 + rate))` on a whole amount. */
  function NtaTax(a: int, rate: Rate): (t: int)
    ensures t == NtaOf(a, rate)
  {
    NtaQuotient(a, rate);
    a - (a as real / (1.0 + rate.Value())).Floor
  }

  /** `Math.floor(amount * (rate / (1 + rate)))` on a whole amount. */
  function DirectTax(a: int, rate: Rate): (t: int)
    ensures t == DirectOf(a, rate)
  {
    DirectQuotient(a, rate);
    (a as real * (rate.Value() / (1.0 + rate.Value()))).Floor
  }

  /** `Math.floor(amount * rate)` on a whole amount. */
  function ExclusiveTax(a: int, rate: Rate): (t: int)
    ensures t == ExclusiveOf(a, rate)
  {
    ExclusiveIsFloor(a, rate);
    (a as real * rate.Value()).Floor
  }

  /** `Math.ceil(amount * rate)` on a whole amount. */
  function AdjustedTax(a: int, rate: Rate): (t: int)
    ensures t == AdjustedOf(a, rate)
  {
    ExclusiveIsFloor(a, rate);
    Ceil(a as real * rate.Value())
  }

  /** With rate n/d the tax-excluded part of an inclusive amount a, a/(1 + rate)
      rounded down, is a·d div (d + n). */
  lemma {:induction false} NtaQuotient(a: int, rate: Rate)
    ensures (a as real / (1.0 + rate.Value())).Floor == (a * rate.Den()) / (rate.Den() + rate.Num())
  {
    var x := a as real;
    if rate == Standard {
      assert x / (1.0 + rate.Value()) == (a * 10) as real / 11.0;
      FloorQuotient(a * 10, 11);
    } else {
      assert x / (1.0 + rate.Value()) == (a * 25) as real / 27.0;
      FloorQuotient(a * 25, 27);
    }
  }

  /** The direct inclusive tax a·rate/(1 + rate) rounded down is a·n div (d + n). */
  lemma {:induction false} DirectQuotient(a: int, rate: Rate)
    ensures (a as real * (rate.Value() / (1.0 + rate.Value()))).Floor == (a * rate.Num()) / (rate.Den() + rate.Num())
  {
    var x := a as real;
    var r := rate.Value();
    if rate == Standard {
      assert r / (1.0 + r) == 1.0 / 11.0;
      assert x * (r / (1.0 + r)) == a as real / 11.0;
      FloorQuotient(a, 11);
    } else {
      assert r / (1.0 + r) == 2.0 / 27.0;
      assert x * (r / (1.0 + r)) == (a * 2) as real / 27.0;
      FloorQuotient(a * 2, 27);
    }
  }

  /** Tax excluded, truncated. */
  function ExclusiveOf(a: int, rate: Rate): int { (a * rate.Num()) / rate.Den() }

  /** Tax excluded, rounded up. */
  function AdjustedOf(a: int, rate: Rate): int { -((-(a * rate.Num())) / rate.Den()) }

  /** Tax included, the National Tax Agency way. */
  function NtaOf(a: int, rate: Rate): int { a - (a * rate.Den()) / (rate.Den() + rate.Num()) }

  /** Tax included, computed directly. */
  function DirectOf(a: int, rate: Rate): int { (a * rate.Num()) / (rate.Den() + rate.Num()) }

  /** Rounding up gives the truncated tax or one yen more, and the same tax exactly
      when the amount times the rate is whole: for 10 % when the amount is a multiple
      of 10, for 8 % when it is a multiple of 25. */
  lemma {:induction false} ExclusiveBounds(amount: real, rate: Rate)
    ensures var ex := CalculateTax(amount, rate, Exclusive);
      var adj := CalculateTax(amount, rate, ExclusiveAdjusted);
      ex <= adj <= ex + 1 && (adj == ex <==> amount.Floor % rate.Den() == 0)
  {
    var a := amount.Floor;
    var p, d := a * rate.Num(), rate.Den();
    FloorAndCeiling(p, d);
    assert p % d == 0 <==> a % d == 0 by {
      if rate == Reduced { DoubleMultiple(a); }
    }
  }

  /** Integer division rounded down and rounded up differ by at most one, and agree
      exactly on multiples. */
  lemma {:induction false} FloorAndCeiling(p: int, d: int)
    requires d > 0
    ensures p / d <= -((-p) / d) <= p / d + 1
    ensures -((-p) / d) == p / d <==> p % d == 0
  {
    var q, m := p / d, p % d;
    assert p == q * d + m;
    if m == 0 {
      assert -p == (-q) * d;
      DivBetween(-p, d, -q);
    } else {
      assert -p == (-q - 1) * d + (d - m);
      DivBetween(-p, d, -q - 1);
    }
  }

  /** 2·a is a multiple of 25 exactly when a is. */
  lemma {:induction false} DoubleMultiple(a: int)
    ensures (a * 2) % 25 == 0 <==> a % 25 == 0
  {
    var q, m := a / 25, a % 25;
    assert a * 2 == (q * 2) * 25 + m * 2;
    if m * 2 < 25 {
      ModOf(a * 2, 25, q * 2, m * 2);
    } else {
      ModOf(a * 2, 25, q * 2 + 1, m * 2 - 25);
    }
  }

  /** x = q·s + r with 0 ≤ r < s means x % s = r. */
  lemma {:induction false} ModOf(x: int, s: int, q: int, r: int)
    requires s > 0 && 0 <= r < s && x == q * s + r
    ensures x % s == r
  {
    DivBetween(x, s, q);
  }

  /** The note under the exclusive taxes: shown, with the gap in yen, exactly when
      the two differ. */
  function DiscrepancyNote(amount: real, rate: Rate): (n: Option<int>)
    ensures n.Some? <==> CalculateTax(amount, rate, Exclusive) != CalculateTax(amount, rate, ExclusiveAdjusted)
  {
    var ex := CalculateTax(amount, rate, Exclusive);
    var adj := CalculateTax(amount, rate, ExclusiveAdjusted);
    if ex != adj then Some(if ex > adj then ex - adj else adj - ex) else None
  }

  /** The note, when shown, always reports a gap of one yen, and it is shown exactly
      for amounts that are not a multiple of 10 (10 %) or of 25 (8 %). */
  lemma {:induction false} DiscrepancyIsOneYen(amount: real, rate: Rate)
    ensures DiscrepancyNote(amount, rate).Some? <==> amount.Floor % rate.Den() != 0
    ensures DiscrepancyNote(amount, rate).Some? ==> DiscrepancyNote(amount, rate).value == 1
  {
    ExclusiveBounds(amount, rate);
  }

  /** The two inclusive methods give the same tax or the Agency way one yen more,
      the same exactly when the amount divides evenly by 1 + rate: by 11 at 10 %,
      by 27 at 8 %. */
  lemma {:induction false} InclusiveMethods(a: int, rate: Rate)
    ensures DirectOf(a, rate) <= NtaOf(a, rate) <= DirectOf(a, rate) + 1
    ensures NtaOf(a, rate) == DirectOf(a, rate) <==> (a * rate.Den()) % (rate.Den() + rate.Num()) == 0
  {
    var n, d := rate.Num(), rate.Den();
    var s := d + n;
    var q, m := (a * d) / s, (a * d) % s;
    assert a * d == q * s + m;
    assert a * n == a * s - a * d;
    assert a * n == (a - q) * s - m;
    if m == 0 {
      assert (a * n) / s == a - q;
    } else {
      assert (a * n) == (a - q - 1) * s + (s - m);
      assert (a * n) / s == a - q - 1;
    }
  }

  /** One yen more of amount raises the Agency tax by nothing or by one yen: the
      tax never falls as the amount grows. */
  lemma {:induction false} NtaStep(a: int, rate: Rate)
    ensures NtaOf(a, rate) <= NtaOf(a + 1, rate) <= NtaOf(a, rate) + 1
  {
    var d, s := rate.Den(), rate.Den() + rate.Num();
    var q, m := (a * d) / s, (a * d) % s;
    assert (a + 1) * d == q * s + (m + d);
    if m + d < s {
      assert ((a + 1) * d) / s == q;
    } else {
      assert (a + 1) * d == (q + 1) * s + (m + d - s);
      assert ((a + 1) * d) / s == q + 1;
    }
  }

  lemma {:induction false} NtaMonotone(a: int, b: int, rate: Rate)
    requires a <= b
    ensures NtaOf(a, rate) <= NtaOf(b, rate)
    decreases b - a
  {
    if a < b {
      NtaStep(a, rate);
      NtaMonotone(a + 1, b, rate);
    }
  }

  // ---------------------------------------------------------------- checkMatching

  /** The mark on a tooltip line. */
  datatype Mark = Unmarked | PartialMatch | ExactMatch

  /** `checkMatching(element, value, input)`: no input clears the marks. */
  function CheckMatching(value: string, input: string): (m: Mark)
    ensures m == ExactMatch <==> input != "" && value == input
    ensures m == PartialMatch <==> input != "" && value != input && (Contains(value, input) || Contains(input, value))
  {
    if input == "" then Unmarked
    else if value == input then ExactMatch
    else if Contains(value, input) || Contains(input, value) then PartialMatch
    else Unmarked
  }

  /** While the tax is being typed, a line whose value starts with the digits typed
      so far is marked as a partial match. */
  lemma {:induction false} TypingPrefixMarksPartial(value: string, input: string)
    requires input != "" && |input| < |value| && StartsWith(value, input)
    ensures CheckMatching(value, input) == PartialMatch
  {
    assert value[0..] == value;
    ContainsAt(value, input, 0);
  }

  // ---------------------------------------------------------------- reverse calculations

  /** `Math.round`: halves go up. */
  function Round(x: real): (n: int)
    ensures x - 0.5 < n as real <= x + 0.5
  {
    (x + 0.5).Floor
  }

  /** The amount suggested for the plain exclusive line: `Math.ceil(tax / rate)`. */
  function SuggestExclusive(tax: int, rate: Rate): (a: int)
    ensures ExclusiveOf(a, rate) == tax
    ensures forall k :: k < a ==> ExclusiveOf(k, rate) < tax
  {
    var c := Ceil(tax as real / rate.Value());
    CeilingSuggestion(tax, rate, c);
    c
  }

  /** ⌈tax/rate⌉ is the least amount whose truncated exclusive tax is `tax`. */
  lemma {:induction false} CeilingSuggestion(tax: int, rate: Rate, c: int)
    requires c == Ceil(tax as real / rate.Value())
    ensures ExclusiveOf(c, rate) == tax
    ensures forall k :: k < c ==> ExclusiveOf(k, rate) < tax
  {
    var r := rate.Value();
    var q := tax as real / r;
    assert q * r == tax as real;
    ScaleBetween(c as real, q, q + 1.0, r);
    assert (q + 1.0) * r == q * r + r;
    FloorBetween(c as real * r, tax);
    ExclusiveIsFloor(c, rate);
    forall k | k < c
      ensures ExclusiveOf(k, rate) < tax
    {
      BelowQuotient(k, tax, rate);
    }
  }

  /** Multiplying by a positive number keeps a number between its bounds. */
  lemma {:induction false} ScaleBetween(x: real, lo: real, hi: real, r: real)
    requires r > 0.0 && lo <= x < hi
    ensures lo * r <= x * r < hi * r
  {
    assert x * r - lo * r == (x - lo) * r;
    assert hi * r - x * r == (hi - x) * r;
  }

  /** A real number within [t, t + 1) has floor t. */
  lemma {:induction false} FloorBetween(x: real, t: int)
    requires t as real <= x < t as real + 1.0
    ensures x.Floor == t
  {
  }

  /** The exclusive taxes in integer arithmetic are the real product rounded down and up. */
  lemma {:induction false} ExclusiveIsFloor(a: int, rate: Rate)
    ensures ExclusiveOf(a, rate) == (a as real * rate.Value()).Floor
    ensures AdjustedOf(a, rate) == Ceil(a as real * rate.Value())
  {
    if rate == Standard {
      assert a as real * rate.Value() == a as real / 10.0;
      FloorQuotient(a, 10);
      CeilQuotient(a, 10);
    } else {
      assert a as real * rate.Value() == (a * 2) as real / 25.0;
      FloorQuotient(a * 2, 25);
      CeilQuotient(a * 2, 25);
    }
  }

  /** `calculateReverseAmount(tax, rate, true)`: the direct inclusive method inverted
      and rounded. */
  function ReverseDirect(tax: int, rate: Rate): (a: int)
    ensures tax <= 0 ==> a == 0
    ensures tax > 0 ==> DirectOf(a, rate) == tax
  {
    if tax <= 0 then 0
    else
      var r := rate.Value();
      var a := Round(tax as real / (r / (1.0 + r)));
      RoundedDirectSuggestion(tax, rate, a);
      a
  }

  /** The rounded inverse of the direct method gives back the typed tax under the
      direct method. */
  lemma {:induction false} RoundedDirectSuggestion(tax: int, rate: Rate, a: int)
    requires tax > 0
    requires a == Round(tax as real / (rate.Value() / (1.0 + rate.Value())))
    ensures DirectOf(a, rate) == tax
  {
    var n, d := rate.Num(), rate.Den();
    var s := n + d;
    var r := rate.Value();
    assert r / (1.0 + r) == n as real / s as real;
    assert tax as real / (r / (1.0 + r)) == (tax * s) as real / n as real;
    assert a == Round((tax * s) as real / n as real);
    // With n = 1 the quotient is whole; with n = 2 it is whole or a half, and a half rounds up.
    assert a * n >= tax * s by {
      if n == 1 {
        assert (tax * s) as real / n as real == (tax * s) as real;
      } else {
        HalfRoundsUp(tax * s, a);
      }
    }
    assert a * n < tax * s + n by {
      assert (a as real) <= (tax * s) as real / n as real + 0.5;
    }
    assert a * n <= tax * s + s - 1;
    DivBetween(a * n, s, tax);
  }

  /** Rounding p/2 gives at least p/2. */
  lemma {:induction false} HalfRoundsUp(p: int, a: int)
    requires a == Round(p as real / 2.0)
    ensures a * 2 >= p
  {
    assert p as real - 1.0 < (a * 2) as real;
  }

  /** q·s ≤ x < (q + 1)·s means x / s = q. */
  lemma {:induction false} DivBetween(x: int, s: int, q: int)
    requires s > 0 && q * s <= x < q * s + s
    ensures x / s == q
  {
    var k := x / s - q;
    assert k * s == (x / s) * s - q * s;
    assert -s < k * s < s;
  }

  /** How a candidate amount's exclusive tax is rounded in the search. */
  datatype Rounding = Down | Up

  function Rounded(a: int, rate: Rate, how: Rounding): int {
    if how == Down then ExclusiveOf(a, rate) else AdjustedOf(a, rate)
  }

  /** The loop of `calculateReverseExclusiveAdjusted`: the first amount from `b` up
      to `hi` whose tax, rounded as `how` says, is `tax`. */
  function Scan(tax: int, rate: Rate, how: Rounding, b: int, hi: int): (res: Option<int>)
    ensures res.Some? ==> b <= res.value <= hi && Rounded(res.value, rate, how) == tax
    ensures res.Some? ==> forall k :: b <= k < res.value ==> Rounded(k, rate, how) != tax
    ensures res.None? ==> forall k :: b <= k <= hi ==> Rounded(k, rate, how) != tax
    decreases hi - b + 1
  {
    if b > hi then None
    else if Rounded(b, rate, how) == tax then Some(b)
    else Scan(tax, rate, how, b + 1, hi)
  }

  /** `calculateReverseExclusiveAdjusted(tax, rate)` as written: it scans from
      ⌊tax/rate⌋ − 1 to ⌈tax/rate⌉ + 1 for an amount whose TRUNCATED exclusive tax is
      the typed tax, and falls back to ⌊tax/rate⌋. */
  function ReverseAdjustedAsWritten(tax: int, rate: Rate): (a: int)
    ensures tax <= 0 ==> a == 0
    ensures tax > 0 ==> a == SuggestExclusive(tax, rate) && ExclusiveOf(a, rate) == tax
  {
    if tax <= 0 then 0
    else
      var q := tax as real / rate.Value();
      DownSearchStopsAtCeiling(tax, rate);
      match Scan(tax, rate, Down, q.Floor - 1, Ceil(q) + 1)
      case Some(b) => b
      case None => q.Floor
  }

  /** The same search testing the ROUNDED-UP tax, the one the line it serves shows. */
  function ReverseAdjusted(tax: int, rate: Rate): (a: int)
    ensures tax <= 0 ==> a == 0
    ensures tax > 0 ==> AdjustedOf(a, rate) == tax
  {
    if tax <= 0 then 0
    else
      var q := tax as real / rate.Value();
      UpSearchSucceeds(tax, rate);
      match Scan(tax, rate, Up, q.Floor - 1, Ceil(q) + 1)
      case Some(b) => b
      case None => q.Floor
  }

  /** As written the search always succeeds and stops at the plain exclusive
      suggestion ⌈tax/rate⌉, whose truncated tax is the typed one; the fallback is
      never reached. */
  lemma {:induction false} DownSearchStopsAtCeiling(tax: int, rate: Rate)
    requires tax > 0
    ensures var q := tax as real / rate.Value();
      Scan(tax, rate, Down, q.Floor - 1, Ceil(q) + 1) == Some(SuggestExclusive(tax, rate))
  {
    var r := rate.Value();
    var q := tax as real / r;
    var c := Ceil(q);
    CeilingSuggestion(tax, rate, c);
    assert Rounded(c, rate, Down) == tax;
    forall k | q.Floor - 1 <= k < c
      ensures Rounded(k, rate, Down) != tax
    {
      BelowQuotient(k, tax, rate);
    }
    ScanFinds(tax, rate, Down, q.Floor - 1, c + 1, c);
  }

  /** An amount below tax/rate has a truncated tax below `tax`. */
  lemma {:induction false} BelowQuotient(k: int, tax: int, rate: Rate)
    requires k as real < tax as real / rate.Value()
    ensures ExclusiveOf(k, rate) < tax
  {
    var r := rate.Value();
    ExclusiveIsFloor(k, rate);
    assert (tax as real / r) * r == tax as real;
    assert k as real * r < (tax as real / r) * r;
  }

  /** The scan stops at the first hit of its range. */
  lemma {:induction false} ScanFinds(tax: int, rate: Rate, how: Rounding, b: int, hi: int, c: int)
    requires b <= c <= hi && Rounded(c, rate, how) == tax
    requires forall k :: b <= k < c ==> Rounded(k, rate, how) != tax
    ensures Scan(tax, rate, how, b, hi) == Some(c)
  {
  }

  /** At 8 % a typed tax of 1 yen gets the suggestion 13, whose rounded-up tax is 2 yen. */
  lemma {:induction false} ReverseAdjustedAsWrittenMisses()
    ensures ReverseAdjustedAsWritten(1, Reduced) == 13
    ensures AdjustedOf(13, Reduced) == 2
  {
    assert 1.0 / Reduced.Value() == 12.5;
    assert Ceil(12.5) == 13;
  }

  /** The search bounds ⌊tax/rate⌋ and ⌈tax/rate⌉ in integer arithmetic. */
  lemma {:induction false} QuotientInIntegers(tax: int, rate: Rate)
    ensures (tax as real / rate.Value()).Floor == (tax * rate.Den()) / rate.Num()
  {
    if rate == Standard {
      assert tax as real / rate.Value() == (tax * 10) as real / 1.0;
      FloorQuotient(tax * 10, 1);
    } else {
      assert tax as real / rate.Value() == (tax * 25) as real / 2.0;
      FloorQuotient(tax * 25, 2);
    }
  }

  /** (t − 1)·d < x ≤ t·d means x / d rounded up is t. */
  lemma {:induction false} CeilDivBetween(x: int, d: int, t: int)
    requires d > 0 && (t - 1) * d < x <= t * d
    ensures -((-x) / d) == t
  {
    assert (-t) * d == -(t * d);
    DivBetween(-x, d, -t);
  }

  /** The corrected search also always succeeds: ⌊tax/rate⌋ − 1, where it starts,
      already has the typed tax rounded up. */
  lemma {:induction false} UpSearchSucceeds(tax: int, rate: Rate)
    requires tax > 0
    ensures var q := tax as real / rate.Value();
      Scan(tax, rate, Up, q.Floor - 1, Ceil(q) + 1) == Some(q.Floor - 1)
  {
    var n, d := rate.Num(), rate.Den();
    var q := tax as real / rate.Value();
    QuotientInIntegers(tax, rate);
    var qf := (tax * d) / n;
    var lo := qf - 1;
    // lo·n lies in (tax·d − 2n, tax·d − n], inside ((tax − 1)·d, tax·d] since 2n <= d.
    assert tax * d == qf * n + (tax * d) % n;
    assert lo * n == qf * n - n;
    assert 2 * n <= d;
    assert (tax - 1) * d == tax * d - d;
    CeilDivBetween(lo * n, d, tax);
    assert Rounded(lo, rate, Up) == tax;
    assert lo <= Ceil(q) + 1;
  }

  /** The Agency reverse calculation: either an amount whose Agency tax is the
      target, or, after the twenty steps, the last midpoint together with the
      bracket it lies in. */
  datatype Guess = Exact(amount: int) | Closest(amount: int, lo: int, hi: int) {
    /** The number `calculateReverseAmount` returns. */
    function Amount(): int { amount }
  }

  /** The bisection with `steps` steps left, the bracket [lo, hi] and the guess
      `amount`, the midpoint rounded down. */
  function Bisect(tax: int, rate: Rate, lo: int, hi: int, amount: int, steps: nat): (g: Guess)
    requires lo <= amount <= hi && amount == (lo + hi) / 2
    requires NtaOf(lo, rate) < tax < NtaOf(hi, rate)
    ensures g.Exact? ==> NtaOf(g.amount, rate) == tax && lo <= g.amount <= hi
    ensures g.Closest? ==> lo <= g.lo <= g.amount <= g.hi <= hi && g.lo < g.hi
    ensures g.Closest? ==> NtaOf(g.lo, rate) < tax < NtaOf(g.hi, rate) && g.amount == (g.lo + g.hi) / 2
    decreases steps
  {
    if steps == 0 then Closest(amount, lo, hi)
    else
      var t := NtaOf(amount, rate);
      if t == tax then Exact(amount)
      else if t < tax then Bisect(tax, rate, amount, hi, (amount + hi) / 2, steps - 1)
      else Bisect(tax, rate, lo, amount, (lo + amount) / 2, steps - 1)
  }

  /** The search's opening bracket: no tax at 0, more than the target at 20 times
      the target. */
  lemma {:induction false} OpeningBracket(tax: int, rate: Rate)
    requires tax > 0
    ensures NtaOf(0, rate) == 0
    ensures NtaOf(tax * 20, rate) > tax
  {
    var d, s := rate.Den(), rate.Den() + rate.Num();
    assert (tax * 20 * d) / s <= (tax * 20 * d) / 11 * 1;
    assert tax * 20 * d < 19 * tax * s;
    DivBelow(tax * 20 * d, s, 19 * tax);
  }

  /** x < b·s means x / s < b. */
  lemma {:induction false} DivBelow(x: int, s: int, b: int)
    requires s > 0 && x >= 0 && x < b * s
    ensures x / s < b
  {
  }

  /** `calculateReverseAmount(tax, rate, false)`: bisection over [0, 20·tax] from
      10·tax for at most twenty steps. */
  function ReverseNta(tax: int, rate: Rate): (g: Guess)
    ensures tax <= 0 ==> g == Exact(0)
    ensures tax > 0 && g.Exact? ==> NtaOf(g.amount, rate) == tax && 0 <= g.amount <= tax * 20
    ensures tax > 0 && g.Closest? ==> 0 <= g.lo <= g.amount <= g.hi <= tax * 20
    ensures tax > 0 && g.Closest? ==> g.amount == (g.lo + g.hi) / 2
    ensures tax > 0 && g.Closest? ==> NtaOf(g.lo, rate) < tax < NtaOf(g.hi, rate)
    ensures tax > 0 && g.Closest? ==> exists a :: g.lo < a < g.hi && NtaOf(a, rate) == tax
  {
    if tax <= 0 then Exact(0)
    else
      OpeningBracket(tax, rate);
      var g := Bisect(tax, rate, 0, tax * 20, tax * 10, 20);
      if g.Closest? then
        StraddleHasTarget(g.lo, g.hi, tax, rate);
        g
      else g
  }

  /** Between two amounts whose Agency taxes straddle the target lies an amount
      with exactly the target tax. */
  lemma {:induction false} StraddleHasTarget(lo: int, hi: int, tax: int, rate: Rate)
    requires lo < hi && NtaOf(lo, rate) < tax < NtaOf(hi, rate)
    ensures exists a :: lo < a < hi && NtaOf(a, rate) == tax
  {
    var a := FirstReaching(lo, hi, tax, rate);
  }

  /** Between two amounts whose Agency taxes straddle the target there is one with
      exactly the target tax, since the tax rises by at most one yen at a time. */
  lemma {:induction false} FirstReaching(lo: int, hi: int, tax: int, rate: Rate) returns (a: int)
    requires lo < hi && NtaOf(lo, rate) < tax < NtaOf(hi, rate)
    ensures lo < a < hi && NtaOf(a, rate) == tax
    decreases hi - lo
  {
    NtaStep(lo, rate);
    if NtaOf(lo + 1, rate) == tax {
      a := lo + 1;
    } else {
      a := FirstReaching(lo + 1, hi, tax, rate);
    }
  }
}
