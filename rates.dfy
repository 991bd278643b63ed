/** The arithmetic of `get_course_info`: `round_digits`, the choice rate
    (applicants over seat limit, rounded to two decimals) and the admission
    rate derived from it. Numbers are exact reals; the rounding is the
    half-away-from-zero rounding of `f32::round`. A zero limit gives the IEEE
    results of dividing by zero (infinity or NaN), which the rate rule then
    meets in its `> 0.0` test. */
module Rates {

  /** A 32-bit float quotient as this program can produce it. */
  datatype Ratio = Num(value: real) | PlusInfinity | MinusInfinity | NotANumber

  /** `f32::round`: the nearest integer, halves rounded away from zero. */
  function RoundHalfAway(x: real): (n: int)
    ensures x >= 0.0 ==> x - 0.5 < n as real <= x + 0.5
    ensures x < 0.0 ==> x - 0.5 <= n as real < x + 0.5
  {
    if x >= 0.0 then (x + 0.5).Floor else -((0.5 - x).Floor)
  }

  /** `round_digits(num, 2)`: the number scaled by 100, rounded, scaled back. */
  function RoundDigits2(x: real): (r: real)
    ensures (r * 100.0).Floor as real == r * 100.0
    ensures x - 0.005 <= r <= x + 0.005
  {
    RoundHalfAway(x * 100.0) as real / 100.0
  }

  lemma RoundBetween(x: real, lo: int, hi: int)
    requires lo as real <= x <= hi as real
    ensures lo <= RoundHalfAway(x) <= hi
  {
  }

  /** `round_digits` on a float: a finite number is rounded to two decimals,
      infinities and NaN come back unchanged. */
  function RoundRatio(q: Ratio): (r: Ratio)
    ensures r.Num? <==> q.Num?
    ensures !q.Num? ==> r == q
    ensures q.Num? ==> (r.value * 100.0).Floor as real == r.value * 100.0
    ensures q.Num? ==> q.value - 0.005 <= r.value <= q.value + 0.005
  {
    if q.Num? then Num(RoundDigits2(q.value)) else q
  }

  /** `student_count as f32 / limit`, with IEEE division by zero. */
  function Quotient(count: int, limit: real): (q: Ratio)
    ensures q.Num? <==> limit != 0.0
    ensures q.Num? ==> q.value * limit == count as real
  {
    if limit != 0.0 then Num(count as real / limit)
    else if count > 0 then PlusInfinity
    else if count < 0 then MinusInfinity
    else NotANumber
  }

  /** The test `choice_rate > 0.0`; false for NaN. */
  predicate IsPositive(c: Ratio)
  {
    (c.Num? && c.value > 0.0) || c.PlusInfinity?
  }

  /** `100.0 / choice_rate` for a positive rate; 100 over infinity is zero. */
  function HundredOver(c: Ratio): (r: real)
    requires IsPositive(c)
    ensures r >= 0.0
    ensures c.Num? ==> r * c.value == 100.0
    ensures c.PlusInfinity? ==> r == 0.0
  {
    if c.Num? then 100.0 / c.value else 0.0
  }

  function Min(a: real, b: real): real
  {
    if a <= b then a else b
  }

  /** `choice_rate`: applicants over the parsed seat limit, to two decimals.
      A zero limit gives infinity for applicants, minus infinity for a
      negative count and NaN for none. */
  function ChoiceRate(count: int, limit: real): (c: Ratio)
    ensures c.Num? <==> limit != 0.0
    ensures limit != 0.0 ==> (c.value * 100.0).Floor as real == c.value * 100.0
    ensures limit != 0.0 ==> count as real / limit - 0.005 <= c.value <= count as real / limit + 0.005
    ensures limit == 0.0 ==> (c.PlusInfinity? <==> count > 0) && (c.NotANumber? <==> count == 0)
  {
    RoundRatio(Quotient(count, limit))
  }

  /** `sucess_rate` as a function of `choice_rate`: 100 unless the choice rate
      is positive, and then 100 over the choice rate capped at 100, to two
      decimals. It is always a percentage. */
  function AdmissionRate(c: Ratio): (r: real)
    ensures 0.0 <= r <= 100.0
    ensures !IsPositive(c) ==> r == 100.0
  {
    if IsPositive(c) then
      var capped := Min(100.0, HundredOver(c));
      RoundBetween(capped * 100.0, 0, 10000);
      RoundDigits2(capped)
    else 100.0
  }

  lemma ProductNonNegative(a: real, b: real)
    requires a >= 0.0 && b >= 0.0
    ensures a * b >= 0.0
  {
  }

  /** A positive two-decimal choice rate of at most 1 leaves the admission
      rate at exactly 100. */
  lemma CertainWhenAtMostOne(n: int)
    requires 1 <= n <= 100
    ensures AdmissionRate(Num(n as real / 100.0)) == 100.0
  {
    var c := Num(n as real / 100.0);
    var h := HundredOver(c);
    assert h * (n as real / 100.0) == 100.0;
    var v := n as real / 100.0;
    assert v <= 1.0;
    ProductNonNegative(h, 1.0 - v);
    assert h >= 100.0;
    assert Min(100.0, h) == 100.0;
    assert RoundHalfAway(100.0 * 100.0) == 10000;
  }

  /** A two-decimal choice rate above 1 is at least 1.01, so 100 over it is
      below 99.995 and rounds to at most 99.99. */
  lemma UncertainWhenAboveOne(n: int)
    requires n >= 101
    ensures AdmissionRate(Num(n as real / 100.0)) <= 99.99
  {
    var v := n as real / 100.0;
    var h := HundredOver(Num(v));
    assert h * v == 100.0;
    assert v >= 1.01;
    ProductNonNegative(h, v - 1.01);
    assert h * 1.01 <= 100.0;
    assert h <= 99.01;
    assert Min(100.0, h) == h;
    var m := RoundHalfAway(h * 100.0);
    assert m <= 9999;
  }

  /** Rounding a quotient to two decimals gives the integer number of
      hundredths `n`, and `n` tells how the quotient compares with 1.005. */
  lemma HundredthsOf(q: real)
    ensures RoundDigits2(q) == RoundHalfAway(q * 100.0) as real / 100.0
    ensures RoundHalfAway(q * 100.0) <= 100 <==> q < 1.005
  {
  }

  /** The bucket rule read back on the inputs: with a nonzero seat limit a
      course is certain (admission rate 100) exactly when applicants exceed the
      limit by less than half a percent, because only then does the choice
      rate round to at most 1.00; with a zero limit, exactly when there are no
      applicants (0/0 is NaN and a negative count gives minus infinity, both
      failing the `> 0.0` test, while a positive count over zero gives
      infinity and an admission rate of 0). */
  lemma {:induction false} CertainIffBelowThreshold(count: int, limit: real)
    ensures AdmissionRate(ChoiceRate(count, limit)) == 100.0 <==>
      (if limit == 0.0 then count <= 0 else count as real / limit < 1.005)
  {
    if limit != 0.0 {
      var q := count as real / limit;
      HundredthsOf(q);
      var n := RoundHalfAway(q * 100.0);
      assert ChoiceRate(count, limit) == Num(n as real / 100.0);
      if n <= 0 {
        assert !IsPositive(Num(n as real / 100.0));
      } else if n <= 100 {
        CertainWhenAtMostOne(n);
      } else {
        UncertainWhenAboveOne(n);
      }
    } else if count > 0 {
      assert ChoiceRate(count, limit) == PlusInfinity;
      assert AdmissionRate(PlusInfinity) == RoundDigits2(0.0);
    }
  }

  /** Two worked cases: 30 applicants for 40 seats give a choice rate of 0.75
      and a certain seat (100/0.75 is capped at 100); 80 for 40 give 2.0 and an
      admission rate of 50. */
  lemma WorkedExamples()
    ensures ChoiceRate(30, 40.0) == Num(0.75) && AdmissionRate(Num(0.75)) == 100.0
    ensures ChoiceRate(80, 40.0) == Num(2.0) && AdmissionRate(Num(2.0)) == 50.0
  {
    assert RoundHalfAway(75.0) == 75;
    assert RoundHalfAway(200.0) == 200;
    assert HundredOver(Num(0.75)) > 100.0;
    assert HundredOver(Num(2.0)) == 50.0;
    assert RoundHalfAway(10000.0) == 10000;
    assert RoundHalfAway(5000.0) == 5000;
  }
}
