/**
 * Life tables: one per gender variant, rows of (exact age, number alive).
 * Covers the choice of table from the gender string, the sort by age and the
 * exact-age lookup of the survivor count l(x).
 */
module Mortality {
  import opened Wrappers

  /** One row of a life table: survivors `numberAlive` at `exactAge`. */
  datatype LifeRow = LifeRow(exactAge: int, numberAlive: real)

  type LifeTable = seq<LifeRow>

  /** The three life tables loaded at start-up. */
  datatype MortalityTables = MortalityTables(male: LifeTable, female: LifeTable, other: LifeTable)

  /**
   * The table used for `gender`. The initial choice of the "other" table is
   * overwritten by both arms of the following if/else, so only the male and
   * the female tables are ever used.
   */
  function LifeTableFor(gender: string, tables: MortalityTables): (t: LifeTable)
    ensures t == tables.male || t == tables.female
  {
    if gender == "male" then tables.male else tables.female
  }

  /** 'male' selects the male table; every other string selects the female one. */
  lemma GenderSelection(gender: string, tables: MortalityTables, other': LifeTable)
    ensures gender == "male" ==> LifeTableFor(gender, tables) == tables.male
    ensures gender != "male" ==> LifeTableFor(gender, tables) == tables.female
    ensures LifeTableFor(gender, tables) == LifeTableFor(gender, tables.(other := other'))
  {
  }

  predicate HasAge(t: LifeTable, age: int) {
    exists row :: row in t && row.exactAge == age
  }

  predicate UniqueAges(t: LifeTable) {
    forall i, j :: 0 <= i < j < |t| ==> t[i].exactAge != t[j].exactAge
  }

  predicate SortedByAge(t: LifeTable) {
    forall i, j :: 0 <= i < j < |t| ==> t[i].exactAge <= t[j].exactAge
  }

  /** Every row at `age` has a positive survivor count. */
  predicate StartRowsPositive(t: LifeTable, age: int) {
    forall row :: row in t && row.exactAge == age ==> row.numberAlive > 0.0
  }

  predicate NonNegativeAlive(t: LifeTable) {
    forall row :: row in t ==> row.numberAlive >= 0.0
  }

  /** Inserts `row` into a table sorted by age, before the rows of equal age. */
  function InsertByAge(row: LifeRow, t: LifeTable): (r: LifeTable)
    requires SortedByAge(t)
    ensures SortedByAge(r)
    ensures multiset(r) == multiset(t) + multiset{row}
    ensures r[0] == row || (t != [] && r[0] == t[0])
  {
    if t == [] || row.exactAge <= t[0].exactAge then
      SortedCons(row, t);
      [row] + t
    else
      var rest := InsertByAge(row, t[1..]);
      assert t == [t[0]] + t[1..];
      SortedCons(t[0], rest);
      [t[0]] + rest
  }

  /** A row no older than the head of a sorted table can go in front of it. */
  lemma SortedCons(row: LifeRow, t: LifeTable)
    requires SortedByAge(t)
    requires t == [] || row.exactAge <= t[0].exactAge
    ensures SortedByAge([row] + t)
  {
    var r := [row] + t;
    forall i, j | 0 <= i < j < |r| ensures r[i].exactAge <= r[j].exactAge {
      if i > 0 {
        assert r[i] == t[i - 1] && r[j] == t[j - 1];
      } else {
        assert r[j] == t[j - 1];
      }
    }
  }

  /** The table ordered by age, as a permutation of its rows. */
  function SortByAge(t: LifeTable): (r: LifeTable)
    ensures SortedByAge(r)
    ensures multiset(r) == multiset(t)
    ensures forall row :: row in r <==> row in t
  {
    if t == [] then []
    else
      assert t == [t[0]] + t[1..];
      var r := InsertByAge(t[0], SortByAge(t[1..]));
      SameRows(r, t);
      r
  }

  /** Rows of equal age keep their input order: the earlier row comes first. */
  lemma SortKeepsTiesInOrder()
    ensures SortByAge([LifeRow(5, 1.0), LifeRow(5, 2.0)]) == [LifeRow(5, 1.0), LifeRow(5, 2.0)]
  {
  }

  /** A permutation of a table has the same rows. */
  lemma SameRows(a: LifeTable, b: LifeTable)
    requires multiset(a) == multiset(b)
    ensures forall row :: row in a <==> row in b
  {
    forall row ensures row in a <==> row in b {
      assert row in a <==> row in multiset(a);
      assert row in b <==> row in multiset(b);
    }
  }

  /**
   * l(x) at `age`: the survivor count of the first row whose age is exactly
   * `age`, or None when there is no such row.
   */
  function LxAt(t: LifeTable, age: int): (lx: Option<real>)
    ensures lx.None? <==> !HasAge(t, age)
    ensures lx.Some? ==> exists i :: 0 <= i < |t| && t[i] == LifeRow(age, lx.value) &&
                                      forall j :: 0 <= j < i ==> t[j].exactAge != age
  {
    if t == [] then None
    else if t[0].exactAge == age then
      Some(t[0].numberAlive)
    else
      var rest := LxAt(t[1..], age);
      assert t == [t[0]] + t[1..];
      assert rest.Some? ==> exists i :: 0 <= i < |t[1..]| && t[1..][i] == LifeRow(age, rest.value) &&
                                        forall j :: 0 <= j < i ==> t[1..][j].exactAge != age;
      rest
  }

  /** With unique ages, l(x) does not depend on the order of the rows. */
  lemma LxAtPermutation(a: LifeTable, b: LifeTable, age: int)
    requires UniqueAges(a)
    requires multiset(a) == multiset(b)
    ensures LxAt(a, age) == LxAt(b, age)
  {
    SameRows(a, b);
    var la, lb := LxAt(a, age), LxAt(b, age);
    if la.Some? && lb.Some? {
      var i :| 0 <= i < |a| && a[i] == LifeRow(age, la.value);
      var k :| 0 <= k < |b| && b[k] == LifeRow(age, lb.value);
      assert b[k] in a;
      var j :| 0 <= j < |a| && a[j] == b[k];
      assert i == j;
    }
  }
}
