/**
 * The reconciliation engine: the usufruct share of the market price, the
 * split into usufruct and bare-property values, and the desagio (the bare
 * value as a percentage of a reference price), whose reference switches
 * from the market price to the comparable range when the two disagree by
 * more than 10%.
 */
module Desagio {
  import opened Wrappers
  import opened ComparableMarket
  import opened Mortality
  import opened Actuarial

  /** The annual discount rate the engine uses (12%). */
  const DiscountRate: real := 0.12

  /** The result of a valuation; `desagioMax` is absent when no upper bound is computed. */
  datatype Valuation = Valuation(usufructValue: real, bareValue: real, desagioMin: real, desagioMax: Option<real>)

  function Abs(x: real): real {
    if x < 0.0 then -x else x
  }

  /**
   * The usufruct share: the actuarial factor over the perpetuity factor
   * 1/rate, capped at 1.
   */
  function UsufructPercentage(factor: real, rate: real): (p: real)
    requires rate != 0.0
    ensures p <= 1.0
    ensures factor * rate <= 1.0 ==> p == factor * rate
    ensures factor * rate > 1.0 ==> p == 1.0
    ensures factor >= 0.0 && rate > 0.0 ==> p >= 0.0
  {
    var perpetuityFactor := 1.0 / rate;
    assert factor / perpetuityFactor == factor * rate;
    var ratio := factor / perpetuityFactor;
    if 1.0 < ratio then 1.0 else ratio
  }

  /**
   * `part` as a percentage of `whole`, or 0 when `whole` is 0 (the source's
   * guard against dividing by zero).
   */
  function Percent(part: real, whole: real): (p: real)
    ensures whole == 0.0 ==> p == 0.0
    ensures whole != 0.0 ==> p * whole == part * 100.0
  {
    if whole != 0.0 then part / whole * 100.0 else 0.0
  }

  /**
   * The relative gap, in percent, between the market price and the
   * comparable average, or 0 when the average is 0.
   */
  function Variance(nivuPrice: real, itbiAvg: real): (v: real)
    ensures itbiAvg == 0.0 ==> v == 0.0
    ensures itbiAvg > 0.0 ==> v >= 0.0 && v * itbiAvg == Abs(nivuPrice - itbiAvg) * 100.0
    ensures v > 10.0 <==> itbiAvg > 0.0 && 10.0 * Abs(nivuPrice - itbiAvg) > itbiAvg
  {
    if itbiAvg != 0.0 then
      var v := Abs(nivuPrice - itbiAvg) / itbiAvg * 100.0;
      VarianceAbove10(nivuPrice, itbiAvg, v);
      v
    else 0.0
  }

  lemma VarianceAbove10(nivuPrice: real, itbiAvg: real, v: real)
    requires itbiAvg != 0.0 && v == Abs(nivuPrice - itbiAvg) / itbiAvg * 100.0
    ensures itbiAvg > 0.0 ==> v >= 0.0 && v * itbiAvg == Abs(nivuPrice - itbiAvg) * 100.0
    ensures v > 10.0 <==> itbiAvg > 0.0 && 10.0 * Abs(nivuPrice - itbiAvg) > itbiAvg
  {
    var gap := Abs(nivuPrice - itbiAvg);
    var q := gap / itbiAvg;
    assert q * itbiAvg == gap;
    assert v == q * 100.0;
    if itbiAvg < 0.0 {
      assert q <= 0.0;
    } else {
      ScaleCompare(q, 0.1, itbiAvg);
      assert v > 10.0 <==> q > 0.1;
      assert q > 0.1 <==> gap > 0.1 * itbiAvg;
      assert gap > 0.1 * itbiAvg <==> 10.0 * gap > itbiAvg;
      assert v * itbiAvg == (q * itbiAvg) * 100.0;
    }
  }

  /** Multiplying both sides by a positive number keeps a strict comparison. */
  lemma ScaleCompare(x: real, y: real, a: real)
    requires a > 0.0
    ensures x > y <==> x * a > y * a
  {
    assert x * a - y * a == (x - y) * a;
  }

  /**
   * The valuation once the usufruct share is known: the split of the market
   * price and the desagio, against the market price when it is within 10%
   * of the comparable average, against the comparable minimum and maximum
   * otherwise.
   */
  function Reconcile(nivuPrice: real, itbi: Stats, usuPct: real): (v: Valuation)
    ensures v.usufructValue + v.bareValue == nivuPrice
    ensures v.usufructValue == nivuPrice * usuPct
    ensures v.bareValue == nivuPrice * (1.0 - usuPct)
    ensures v.desagioMax.None? <==> Variance(nivuPrice, itbi.avg) <= 10.0
    ensures Variance(nivuPrice, itbi.avg) <= 10.0 ==>
      v.desagioMin == (if nivuPrice == 0.0 then 0.0 else (1.0 - usuPct) * 100.0)
    ensures Variance(nivuPrice, itbi.avg) > 10.0 ==>
      && (itbi.min == 0.0 ==> v.desagioMin == 0.0)
      && (itbi.min != 0.0 ==> v.desagioMin * itbi.min == v.bareValue * 100.0)
      && (itbi.max == 0.0 ==> v.desagioMax == Some(0.0))
      && (itbi.max != 0.0 ==> v.desagioMax.Some? && v.desagioMax.value * itbi.max == v.bareValue * 100.0)
  {
    var variance := Variance(nivuPrice, itbi.avg);
    var usuValue := nivuPrice * usuPct;
    var bareValue := nivuPrice - usuValue;
    var desagioMin := Percent(bareValue, nivuPrice);
    assert nivuPrice != 0.0 ==> desagioMin == (1.0 - usuPct) * 100.0 by {
      if nivuPrice != 0.0 {
        BareShareDesagio(nivuPrice, usuPct, bareValue, desagioMin);
      }
    }
    if variance > 10.0 then
      Valuation(usuValue, bareValue, Percent(bareValue, itbi.min), Some(Percent(bareValue, itbi.max)))
    else
      Valuation(usuValue, bareValue, desagioMin, None)
  }

  /** The desagio of a bare value priced against its own full value is the bare share, in percent. */
  lemma BareShareDesagio(nivuPrice: real, usuPct: real, bareValue: real, desagio: real)
    requires nivuPrice != 0.0
    requires bareValue == nivuPrice - nivuPrice * usuPct
    requires desagio * nivuPrice == bareValue * 100.0
    ensures desagio == (1.0 - usuPct) * 100.0
  {
    var share := 1.0 - usuPct;
    assert bareValue == share * nivuPrice;
    assert bareValue * 100.0 == (share * 100.0) * nivuPrice;
    CancelFactor(desagio, share * 100.0, nivuPrice);
  }

  lemma CancelFactor(x: real, y: real, n: real)
    requires n != 0.0 && x * n == y * n
    ensures x == y
  {
    assert (x - y) * n == 0.0;
  }

  /**
   * With a share in [0, 1] and a non-negative price, both values lie
   * between 0 and the price, and the low-variance desagio between 0 and 100.
   */
  lemma ReconcileBounds(nivuPrice: real, itbi: Stats, usuPct: real)
    requires 0.0 <= usuPct <= 1.0 && nivuPrice >= 0.0
    ensures var v := Reconcile(nivuPrice, itbi, usuPct);
      && 0.0 <= v.usufructValue <= nivuPrice
      && 0.0 <= v.bareValue <= nivuPrice
      && (v.desagioMax.None? ==> 0.0 <= v.desagioMin <= 100.0)
  {
    var v := Reconcile(nivuPrice, itbi, usuPct);
    assert nivuPrice * usuPct <= nivuPrice * 1.0;
    assert nivuPrice * (1.0 - usuPct) >= 0.0;
  }

  /**
   * In the high-variance branch, with positive comparable bounds and a
   * non-negative bare value, the ratio against the minimum is the larger one.
   */
  lemma HighVarianceOrder(nivuPrice: real, itbi: Stats, usuPct: real)
    requires Variance(nivuPrice, itbi.avg) > 10.0
    requires 0.0 < itbi.min <= itbi.max
    requires Reconcile(nivuPrice, itbi, usuPct).bareValue >= 0.0
    ensures var v := Reconcile(nivuPrice, itbi, usuPct);
      v.desagioMax.Some? && v.desagioMax.value <= v.desagioMin
  {
    var v := Reconcile(nivuPrice, itbi, usuPct);
    var b := v.bareValue * 100.0;
    assert v.desagioMin == b / itbi.min;
    assert v.desagioMax.value == b / itbi.max;
    assert b / itbi.max <= b / itbi.min by {
      assert b / itbi.max * itbi.max == b;
      assert b / itbi.min * itbi.min == b;
      assert b / itbi.max * itbi.min <= b;
    }
  }

  /**
   * A full valuation: the actuarial factor for the person, the usufruct
   * share at the engine's 12% rate, and the reconciliation against the
   * comparable statistics. Fails when the life table has no row for `age`.
   */
  method CalculateDesagio(nivuPrice: real, itbi: Stats, gender: string, age: int, tables: MortalityTables)
    returns (r: Result<Valuation, LookupError>)
    requires StartRowsPositive(LifeTableFor(gender, tables), age)
    ensures r.Failure? <==> !HasAge(LifeTableFor(gender, tables), age)
    ensures r.Failure? ==> r.error == MissingStartAge(age)
    ensures r.Success? ==>
      var factor := Factor(SortByAge(LifeTableFor(gender, tables)), age, DiscountRate);
      factor.Success? && r.value == Reconcile(nivuPrice, itbi, UsufructPercentage(factor.value, DiscountRate))
    ensures r.Success? ==> r.value.usufructValue + r.value.bareValue == nivuPrice
    ensures r.Success? && NonNegativeAlive(LifeTableFor(gender, tables)) && nivuPrice >= 0.0 ==>
      && 0.0 <= r.value.usufructValue <= nivuPrice
      && 0.0 <= r.value.bareValue <= nivuPrice
  {
    var actuarialFactor := ActuarialFactor(gender, age, DiscountRate, tables);
    if actuarialFactor.Failure? {
      return Failure(actuarialFactor.error);
    }
    var usuPct := UsufructPercentage(actuarialFactor.value, DiscountRate);
    var valuation := Reconcile(nivuPrice, itbi, usuPct);
    if NonNegativeAlive(LifeTableFor(gender, tables)) && nivuPrice >= 0.0 {
      ReconcileBounds(nivuPrice, itbi, usuPct);
    }
    r := Success(valuation);
  }

  /** A market price 5.3% above the comparable average leaves no upper bound. */
  lemma LowVarianceScenario(usuPct: real)
    ensures Reconcile(1000000.0, Stats(950000.0, 900000.0, 1000000.0), usuPct).desagioMax.None?
  {
  }

  /** A price exactly 10% above the average still takes the low-variance branch. */
  lemma BoundaryScenario(usuPct: real)
    ensures Reconcile(1100000.0, Stats(1000000.0, 900000.0, 1200000.0), usuPct).desagioMax.None?
  {
  }

  /** A market price 11.1% above the average is reconciled against the comparable range. */
  lemma HighVarianceScenario(usuPct: real)
    ensures var v := Reconcile(1000000.0, Stats(900000.0, 800000.0, 1100000.0), usuPct);
      && v.desagioMax.Some?
      && v.desagioMax.value * 1100000.0 == v.bareValue * 100.0
      && v.desagioMin * 800000.0 == v.bareValue * 100.0
  {
  }

  /** Without comparables the variance is 0, so the market price is the reference. */
  lemma NoComparablesScenario(nivuPrice: real, usuPct: real)
    requires nivuPrice != 0.0
    ensures var v := Reconcile(nivuPrice, NoComparables, usuPct);
      v.desagioMax.None? && v.desagioMin == (1.0 - usuPct) * 100.0
  {
  }
}
