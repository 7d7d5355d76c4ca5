/**
 * The actuarial factor of a usufruct: the survival-weighted, discounted sum
 * over every life-table row at or after the starting age.
 */
module Actuarial {
  import opened Wrappers
  import opened Mortality

  /** The starting age has no row in the life table. */
  datatype LookupError = MissingStartAge(age: int)

  /** `base` raised to the natural power `n`. */
  function Pow(base: real, n: nat): (p: real)
    ensures base > 0.0 ==> p > 0.0
    ensures base >= 1.0 ==> p >= 1.0
  {
    if n == 0 then 1.0
    else
      var q := Pow(base, n - 1);
      assert base >= 1.0 ==> base * q >= q;
      base * q
  }

  /**
   * The contribution of one row: its survival probability relative to the
   * starting age times the discount factor for the elapsed years; rows
   * below the starting age contribute nothing.
   */
  function Term(row: LifeRow, startAge: int, lxStart: real, rate: real): (c: real)
    requires lxStart != 0.0 && rate > -1.0
    ensures row.exactAge < startAge ==> c == 0.0
    ensures row.exactAge == startAge ==> c == row.numberAlive / lxStart
    ensures row.exactAge >= startAge && row.numberAlive >= 0.0 && lxStart > 0.0 ==> c >= 0.0
  {
    if row.exactAge < startAge then 0.0
    else
      var t := row.exactAge - startAge;
      var survivalProb := row.numberAlive / lxStart;
      var discountFactor := 1.0 / Pow(1.0 + rate, t);
      survivalProb * discountFactor
  }

  /**
   * The factor accumulated over the rows of `rows`, in order. With a
   * positive l(x) and no negative survivor count it is never negative.
   */
  function FactorSum(rows: LifeTable, startAge: int, lxStart: real, rate: real): (s: real)
    requires lxStart != 0.0 && rate > -1.0
    ensures lxStart > 0.0 && NonNegativeAlive(rows) ==> s >= 0.0
  {
    if rows == [] then 0.0
    else
      var n := |rows| - 1;
      assert forall row :: row in rows[..n] ==> row in rows;
      assert rows[n] in rows;
      FactorSum(rows[..n], startAge, lxStart, rate) + Term(rows[n], startAge, lxStart, rate)
  }

  /**
   * The actuarial factor read from a table taken in the given order: l(x) is
   * read at the first row of the starting age, then every row is summed.
   */
  function Factor(table: LifeTable, startAge: int, rate: real): (r: Result<real, LookupError>)
    requires rate > -1.0
    requires StartRowsPositive(table, startAge)
    ensures r.Failure? <==> !HasAge(table, startAge)
    ensures r.Failure? ==> r.error == MissingStartAge(startAge)
  {
    match LxAt(table, startAge)
    case None => Failure(MissingStartAge(startAge))
    case Some(lxStart) =>
      assert LifeRow(startAge, lxStart) in table;
      Success(FactorSum(table, startAge, lxStart, rate))
  }

  /**
   * The actuarial factor of `gender` at `startAge`: the gender's table is
   * sorted by age, l(x) is read at the starting age, and every row from the
   * starting age on adds its survival probability times its discount factor.
   */
  method ActuarialFactor(gender: string, startAge: int, rate: real, tables: MortalityTables)
    returns (r: Result<real, LookupError>)
    requires rate > -1.0
    requires StartRowsPositive(LifeTableFor(gender, tables), startAge)
    ensures r.Failure? <==> !HasAge(LifeTableFor(gender, tables), startAge)
    ensures r == Factor(SortByAge(LifeTableFor(gender, tables)), startAge, rate)
    ensures r.Success? && NonNegativeAlive(LifeTableFor(gender, tables)) ==> r.value >= 1.0
  {
    var lifetable := LifeTableFor(gender, tables);
    var table := SortByAge(lifetable);
    SameRows(lifetable, table);
    var lx := LxAt(table, startAge);
    if lx.None? {
      return Failure(MissingStartAge(startAge));
    }
    var lxStart := lx.value;
    assert LifeRow(startAge, lxStart) in table;
    var factor := AccumulateFactor(table, startAge, lxStart, rate);
    r := Success(factor);
  }

  /**
   * The accumulation loop: walks the sorted table, skips the rows below the
   * starting age and adds survival probability times discount factor for
   * the others.
   */
  method AccumulateFactor(table: LifeTable, startAge: int, lxStart: real, rate: real) returns (factor: real)
    requires lxStart > 0.0 && rate > -1.0
    ensures factor == FactorSum(table, startAge, lxStart, rate)
    ensures NonNegativeAlive(table) ==> factor >= 0.0
    ensures NonNegativeAlive(table) && LifeRow(startAge, lxStart) in table ==> factor >= 1.0
  {
    factor := 0.0;
    for i := 0 to |table|
      invariant factor == FactorSum(table[..i], startAge, lxStart, rate)
    {
      var row := table[i];
      if row.exactAge < startAge {
        assert factor == FactorSum(table[..i + 1], startAge, lxStart, rate) by {
          FactorSumStep(table, i, startAge, lxStart, rate);
        }
        continue;
      }
      var t := row.exactAge - startAge;
      var survivalProb := row.numberAlive / lxStart;
      var discountFactor := 1.0 / Pow(1.0 + rate, t);
      assert factor + survivalProb * discountFactor == FactorSum(table[..i + 1], startAge, lxStart, rate) by {
        FactorSumStep(table, i, startAge, lxStart, rate);
        TermAtOrAfter(row, startAge, lxStart, rate, survivalProb, discountFactor);
      }
      factor := factor + survivalProb * discountFactor;
    }
    assert table[..|table|] == table;
    if NonNegativeAlive(table) {
      FactorAtLeastOne(table, startAge, lxStart, rate);
    }
  }

  /** A row at or after the starting age contributes survival times discount. */
  lemma TermAtOrAfter(row: LifeRow, startAge: int, lxStart: real, rate: real, survivalProb: real, discountFactor: real)
    requires lxStart != 0.0 && rate > -1.0
    requires row.exactAge >= startAge
    requires survivalProb == row.numberAlive / lxStart
    requires discountFactor == 1.0 / Pow(1.0 + rate, row.exactAge - startAge)
    ensures Term(row, startAge, lxStart, rate) == survivalProb * discountFactor
  {
  }

  lemma FactorSumStep(rows: LifeTable, i: nat, startAge: int, lxStart: real, rate: real)
    requires lxStart != 0.0 && rate > -1.0
    requires i < |rows|
    ensures FactorSum(rows[..i + 1], startAge, lxStart, rate) == FactorSum(rows[..i], startAge, lxStart, rate) + Term(rows[i], startAge, lxStart, rate)
  {
    assert rows[..i + 1][..i] == rows[..i];
  }

  /** Summing two parts of a table separately gives the sum of the whole. */
  lemma {:induction false} FactorSumAppend(a: LifeTable, b: LifeTable, startAge: int, lxStart: real, rate: real)
    requires lxStart != 0.0 && rate > -1.0
    ensures FactorSum(a + b, startAge, lxStart, rate) == FactorSum(a, startAge, lxStart, rate) + FactorSum(b, startAge, lxStart, rate)
  {
    if b == [] {
      assert a + b == a;
    } else {
      var n := |b| - 1;
      assert (a + b)[..|a + b| - 1] == a + b[..n];
      FactorSumAppend(a, b[..n], startAge, lxStart, rate);
    }
  }

  /** The factor does not depend on the order in which the rows are summed. */
  lemma {:induction false} FactorSumPermutation(a: LifeTable, b: LifeTable, startAge: int, lxStart: real, rate: real)
    requires lxStart != 0.0 && rate > -1.0
    requires multiset(a) == multiset(b)
    ensures FactorSum(a, startAge, lxStart, rate) == FactorSum(b, startAge, lxStart, rate)
    decreases |a|
  {
    if a != [] {
      var n := |a| - 1;
      var last := a[n];
      assert a == a[..n] + [last];
      assert last in multiset(b);
      var j :| 0 <= j < |b| && b[j] == last;
      var rest := b[..j] + b[j + 1..];
      assert b == b[..j] + [last] + b[j + 1..];
      assert multiset(a) == multiset(a[..n]) + multiset{last};
      assert multiset(b) == multiset(b[..j]) + multiset{last} + multiset(b[j + 1..]);
      assert multiset(rest) == multiset(b[..j]) + multiset(b[j + 1..]);
      assert multiset(a[..n]) == multiset(a) - multiset{last};
      assert multiset(rest) == multiset(b) - multiset{last};
      FactorSumPermutation(a[..n], rest, startAge, lxStart, rate);
      FactorSumAppend(b[..j] + [last], b[j + 1..], startAge, lxStart, rate);
      FactorSumAppend(b[..j], [last], startAge, lxStart, rate);
      FactorSumAppend(b[..j], b[j + 1..], startAge, lxStart, rate);
      assert [last][..0] == [];
    }
  }

  /** The rows at or after `startAge`, in order. */
  function AtOrAfter(rows: LifeTable, startAge: int): (r: LifeTable)
    ensures forall row :: row in r <==> row in rows && row.exactAge >= startAge
  {
    if rows == [] then []
    else
      var n := |rows| - 1;
      assert rows == rows[..n] + [rows[n]];
      var init := AtOrAfter(rows[..n], startAge);
      if rows[n].exactAge >= startAge then init + [rows[n]] else init
  }

  /** Exactly the rows at or after the starting age make up the factor. */
  lemma {:induction false} OnlyLaterRowsCount(rows: LifeTable, startAge: int, lxStart: real, rate: real)
    requires lxStart != 0.0 && rate > -1.0
    ensures FactorSum(rows, startAge, lxStart, rate) == FactorSum(AtOrAfter(rows, startAge), startAge, lxStart, rate)
  {
    if rows != [] {
      var n := |rows| - 1;
      var init := AtOrAfter(rows[..n], startAge);
      OnlyLaterRowsCount(rows[..n], startAge, lxStart, rate);
      if rows[n].exactAge >= startAge {
        assert (init + [rows[n]])[..|init|] == init;
      }
    }
  }

  /**
   * With non-negative survivor counts every row adds a non-negative amount,
   * and the starting-age row adds exactly 1, so the factor is at least 1.
   */
  lemma {:induction false} FactorAtLeastOne(rows: LifeTable, startAge: int, lxStart: real, rate: real)
    requires lxStart > 0.0 && rate > -1.0
    requires NonNegativeAlive(rows)
    ensures FactorSum(rows, startAge, lxStart, rate) >= 0.0
    ensures LifeRow(startAge, lxStart) in rows ==> FactorSum(rows, startAge, lxStart, rate) >= 1.0
  {
    if rows != [] {
      var n := |rows| - 1;
      assert rows == rows[..n] + [rows[n]];
      assert forall row :: row in rows[..n] ==> row in rows;
      FactorAtLeastOne(rows[..n], startAge, lxStart, rate);
      assert rows[n] in rows;
      if rows[n] == LifeRow(startAge, lxStart) {
        DivSelf(lxStart);
      }
    }
  }

  lemma DivSelf(x: real)
    requires x != 0.0
    ensures x / x == 1.0
  {
  }

  /**
   * Sorting the table by age does not change the factor when ages are
   * unique: the same l(x) is read and the same terms are summed.
   */
  lemma SortingKeepsFactor(table: LifeTable, startAge: int, rate: real)
    requires rate > -1.0
    requires UniqueAges(table)
    requires StartRowsPositive(table, startAge)
    ensures StartRowsPositive(SortByAge(table), startAge)
    ensures Factor(SortByAge(table), startAge, rate) == Factor(table, startAge, rate)
  {
    var sorted := SortByAge(table);
    SameRows(table, sorted);
    LxAtPermutation(table, sorted, startAge);
    var lx := LxAt(table, startAge);
    if lx.Some? {
      assert LifeRow(startAge, lx.value) in table;
      FactorSumPermutation(sorted, table, startAge, lx.value, rate);
    }
  }

  /**
   * The factor need not fall as the starting age rises: at any non-negative
   * rate, after a steep drop in survivors between ages 0 and 1 the factor at
   * age 1 exceeds the factor at age 0.
   */
  lemma FactorCanRiseWithAge(rate: real)
    requires rate >= 0.0
    ensures var t := [LifeRow(0, 100.0), LifeRow(1, 1.0), LifeRow(2, 1.0)];
      && Factor(t, 0, rate).Success? && Factor(t, 1, rate).Success?
      && Factor(t, 0, rate).value < Factor(t, 1, rate).value
  {
    var t := [LifeRow(0, 100.0), LifeRow(1, 1.0), LifeRow(2, 1.0)];
    assert LxAt(t, 0) == Some(100.0);
    assert LxAt(t, 1) == Some(1.0) by {
      assert t[1..] == [LifeRow(1, 1.0), LifeRow(2, 1.0)];
    }
    var d1 := 1.0 / Pow(1.0 + rate, 1);
    var d2 := 1.0 / Pow(1.0 + rate, 2);
    DiscountsFall(rate, d1, d2);
    ThreeRowSum(t, 0, 100.0, rate);
    ThreeRowSum(t, 1, 1.0, rate);
    assert Term(t[0], 0, 100.0, rate) == 1.0;
    TermAtOrAfter(t[1], 0, 100.0, rate, 1.0 / 100.0, d1);
    TermAtOrAfter(t[2], 0, 100.0, rate, 1.0 / 100.0, d2);
    assert Term(t[0], 1, 1.0, rate) == 0.0;
    assert Term(t[1], 1, 1.0, rate) == 1.0;
    TermAtOrAfter(t[2], 1, 1.0, rate, 1.0, d1);
  }

  /** At a non-negative rate the discount factor of year 2 is at most that of year 1. */
  lemma DiscountsFall(rate: real, d1: real, d2: real)
    requires rate >= 0.0
    requires d1 == 1.0 / Pow(1.0 + rate, 1) && d2 == 1.0 / Pow(1.0 + rate, 2)
    ensures 0.0 < d2 <= d1
  {
    var b := 1.0 + rate;
    assert Pow(b, 1) == b;
    assert Pow(b, 2) == b * b;
    assert b * b >= b;
  }

  /** A three-row sum unrolled into its three terms. */
  lemma ThreeRowSum(t: LifeTable, startAge: int, lxStart: real, rate: real)
    requires |t| == 3 && lxStart != 0.0 && rate > -1.0
    ensures FactorSum(t, startAge, lxStart, rate) ==
      Term(t[0], startAge, lxStart, rate) + Term(t[1], startAge, lxStart, rate) + Term(t[2], startAge, lxStart, rate)
  {
    assert t[..0] == [];
    FactorSumStep(t, 0, startAge, lxStart, rate);
    FactorSumStep(t, 1, startAge, lxStart, rate);
    FactorSumStep(t, 2, startAge, lxStart, rate);
    assert t[..3] == t;
  }
}
