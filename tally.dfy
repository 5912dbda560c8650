/** The statistics both versions report on their store: the number of
    classifications, a per-category count built by
    `counts[c] = counts.get(c, 0) + 1` over the stored classifications in
    storage order, and the stored names. */
module CategoryCounts {
  import opened Wrappers
  import opened PyDict
  import opened Schemas

  /** `counts[c] = counts.get(c, 0) + 1` */
  function Increment(counts: Dict<nat>, c: string): (r: Dict<nat>)
    requires counts.Valid()
    ensures r.Valid()
  {
    counts.Set(c, counts.Get(c).GetOr(0) + 1)
  }

  /** The counts after reading `categories` from left to right. */
  function Tally(categories: seq<string>): (d: Dict<nat>)
    ensures d.Valid()
    decreases |categories|
  {
    if categories == [] then Empty()
    else Increment(Tally(categories[..|categories| - 1]), categories[|categories| - 1])
  }

  /** Reading one more category increments its count, from 0 when new. */
  lemma TallySnoc(categories: seq<string>, c: string)
    ensures Tally(categories + [c]) == Increment(Tally(categories), c)
  {
    var all := categories + [c];
    assert all[..|all| - 1] == categories;
    assert all[|all| - 1] == c;
  }

  /** One counting step keeps each count equal to the number of
      occurrences read so far. */
  lemma CountStep(before: Dict<nat>, init: seq<string>, last: string, c: string)
    requires before.Valid()
    requires before.Get(c) == if c in init then Some(multiset(init)[c]) else None
    ensures Increment(before, last).Get(c)
         == if c in init + [last] then Some(multiset(init + [last])[c]) else None
  {
    assert multiset(init + [last]) == multiset(init) + multiset{last};
  }

  /** Each category is counted as often as it occurs, and only categories
      that occur get an entry. */
  lemma {:induction false} TallyCount(categories: seq<string>, c: string)
    ensures Tally(categories).Get(c)
         == if c in categories then Some(multiset(categories)[c]) else None
    decreases |categories|
  {
    if categories != [] {
      var init := categories[..|categories| - 1];
      var last := categories[|categories| - 1];
      assert categories == init + [last];
      TallyCount(init, c);
      TallySnoc(init, last);
      CountStep(Tally(init), init, last, c);
    }
  }

  /** Every entry of the counts is the number of occurrences of its key. */
  lemma TallyCounts(categories: seq<string>)
    ensures forall c :: c in Tally(categories).entries ==>
      Tally(categories).entries[c] == multiset(categories)[c]
  {
    forall c | c in Tally(categories).entries
      ensures Tally(categories).entries[c] == multiset(categories)[c]
    {
      TallyCount(categories, c);
    }
  }

  /** The counts are listed in the order in which each category first
      occurs: the keys are the categories without repeats. */
  lemma {:induction false} TallyKeys(categories: seq<string>)
    ensures forall c :: c in Tally(categories).keys <==> c in categories
    decreases |categories|
  {
    if categories != [] {
      var init := categories[..|categories| - 1];
      assert categories == init + [categories[|categories| - 1]];
      TallyKeys(init);
    }
  }

  /** The sum of the values stored under `keys`, in that order. */
  function SumOver(keys: seq<string>, m: map<string, nat>): nat
    requires forall k :: k in keys ==> k in m
    decreases |keys|
  {
    if keys == [] then 0
    else SumOver(keys[..|keys| - 1], m) + m[keys[|keys| - 1]]
  }

  /** `sum(d.values())` */
  function Total(d: Dict<nat>): nat
    requires d.Valid()
  {
    SumOver(d.keys, d.entries)
  }

  /** Changing the value of a key that is not summed leaves the sum alone. */
  lemma {:induction false} SumOverFresh(keys: seq<string>, m: map<string, nat>, k: string, v: nat)
    requires forall j :: j in keys ==> j in m
    requires k !in keys
    ensures SumOver(keys, m[k := v]) == SumOver(keys, m)
    decreases |keys|
  {
    if keys != [] {
      SumOverFresh(keys[..|keys| - 1], m, k, v);
    }
  }

  /** Changing the value of a key listed once moves the sum by the change. */
  lemma {:induction false} SumOverUpdate(keys: seq<string>, m: map<string, nat>, k: string, v: nat)
    requires forall j :: j in keys ==> j in m
    requires Distinct(keys) && k in keys
    ensures SumOver(keys, m[k := v]) + m[k] == SumOver(keys, m) + v
    decreases |keys|
  {
    var init := keys[..|keys| - 1];
    var last := keys[|keys| - 1];
    if last == k {
      assert k !in init by {
        forall i | 0 <= i < |init| ensures init[i] != k {
          assert keys[i] == init[i];
        }
      }
      SumOverFresh(init, m, k, v);
    } else {
      assert k in init by {
        var i :| 0 <= i < |keys| && keys[i] == k;
        assert init[i] == k;
      }
      SumOverUpdate(init, m, k, v);
    }
  }

  /** Counting one more occurrence of a counted category adds one to the total. */
  lemma TotalAfterRecount(d: Dict<nat>, c: string)
    requires d.Valid() && c in d.entries
    ensures Total(d.Set(c, d.entries[c] + 1)) == Total(d) + 1
  {
    SumOverUpdate(d.keys, d.entries, c, d.entries[c] + 1);
  }

  /** Counting a new category once adds one to the total. */
  lemma TotalAfterFirstCount(d: Dict<nat>, c: string)
    requires d.Valid() && c !in d.entries
    ensures Total(d.Set(c, 1)) == Total(d) + 1
  {
    var e := d.Set(c, 1);
    SumOverFresh(d.keys, d.entries, c, 1);
    assert e.keys[..|e.keys| - 1] == d.keys;
  }

  /** The counts add up to the number of categories read: every
      classification is counted exactly once. */
  lemma {:induction false} TallyTotal(categories: seq<string>)
    ensures Total(Tally(categories)) == |categories|
    decreases |categories|
  {
    if categories != [] {
      var init := categories[..|categories| - 1];
      var c := categories[|categories| - 1];
      TallyTotal(init);
      if c in Tally(init).entries {
        TotalAfterRecount(Tally(init), c);
      } else {
        TotalAfterFirstCount(Tally(init), c);
      }
    }
  }

  datatype Statistics = Statistics(
    totalLicenses: nat, categoryDistribution: Dict<nat>, licenses: seq<string>)

  /** The category of each classification, in order. */
  function CategoriesOf(values: seq<LicenseClassification>): (r: seq<string>)
    ensures |r| == |values|
    ensures forall i :: 0 <= i < |values| ==> r[i] == values[i].category
  {
    seq(|values|, i requires 0 <= i < |values| => values[i].category)
  }

  /** The counting loop of `get_statistics`, over the stored
      classifications in storage order. */
  method CountCategories(values: seq<LicenseClassification>) returns (counts: Dict<nat>)
    ensures counts == Tally(CategoriesOf(values))
  {
    counts := Empty();
    for i := 0 to |values|
      invariant counts == Tally(CategoriesOf(values[..i]))
    {
      var category := values[i].category;
      assert CategoriesOf(values[..i + 1]) == CategoriesOf(values[..i]) + [category];
      TallySnoc(CategoriesOf(values[..i]), category);
      counts := Increment(counts, category);
    }
    assert values[..|values|] == values;
  }

  /** What `get_statistics` reports on a store: the number of entries, a
      count per category that occurs (the number of stored classifications
      with that category), adding up to that number, and the stored names
      in insertion order; an empty store reports 0, `{}` and `[]`. */
  function StatisticsOf(d: Dict<LicenseClassification>): (s: Statistics)
    requires d.Valid()
    ensures s.totalLicenses == |d.entries|
    ensures s.licenses == d.keys
    ensures s.categoryDistribution.Valid()
    ensures Total(s.categoryDistribution) == s.totalLicenses
    ensures forall c :: c in s.categoryDistribution.entries ==>
      s.categoryDistribution.entries[c] == multiset(CategoriesOf(d.Values()))[c]
    ensures d.entries == map[] ==> s == Statistics(0, Empty(), [])
  {
    var categories := CategoriesOf(d.Values());
    LenIsKeyCount(d);
    TallyTotal(categories);
    TallyCounts(categories);
    Statistics(|d.keys|, Tally(categories), d.keys)
  }
}
