/**
 * The two fuel-issued rankings of the equipment log: the five fleets issued the
 * most fuel, and the activity breakdown, which shows the five largest activities
 * and folds every other activity into one "Other Works" slice.
 */
module Ranking {
  import opened Wrappers
  import opened Tables
  import opened Sorting
  import opened Aggregate
  import opened Groups
  import opened Prepare

  const TopCount := 5
  const OtherWorks := "Other Works"

  function NegTotal<K>(g: Group<K>): real {
    -g.total
  }

  predicate NonIncreasing<K>(gs: seq<Group<K>>) {
    forall i, j :: 0 <= i < j < |gs| ==> gs[i].total >= gs[j].total
  }

  function Totals<K>(gs: seq<Group<K>>): (r: seq<real>)
    ensures |r| == |gs| && forall i :: 0 <= i < |gs| ==> r[i] == gs[i].total
  {
    seq(|gs|, i requires 0 <= i < |gs| => gs[i].total)
  }

  lemma {:induction false} SumTotals<K>(gs: seq<Group<K>>)
    ensures Sum(Totals(gs)) == Total(gs)
    decreases |gs|
  {
    if gs != [] {
      assert Totals(gs)[..|gs| - 1] == Totals(gs[..|gs| - 1]);
      SumTotals(gs[..|gs| - 1]);
    }
  }

  /** `groupby(key)[value].sum().sort_values(ascending=False)`. */
  function Ranked<K(==)>(keys: seq<K>, vals: seq<Option<real>>): (gs: seq<Group<K>>)
    requires |keys| == |vals|
    ensures NonIncreasing(gs) && DistinctKeys(gs)
    ensures multiset(gs) == multiset(GroupSum(keys, vals))
    ensures Total(gs) == SumPresent(vals)
    ensures forall i :: 0 <= i < |gs| ==> gs[i].total == SumOver(keys, vals, gs[i].key)
  {
    var gs := SortBy(GroupSum(keys, vals), NegTotal);
    assert NonIncreasing(gs) by {
      forall i, j | 0 <= i < j < |gs| ensures gs[i].total >= gs[j].total {
        assert NegTotal(gs[i]) <= NegTotal(gs[j]);
      }
    }
    PermutedDistinct(gs, GroupSum(keys, vals));
    GroupSumTotal(keys, vals);
    TotalPermutation(gs, GroupSum(keys, vals));
    GroupSumTotals(keys, vals);
    forall i | 0 <= i < |gs|
      ensures gs[i].total == SumOver(keys, vals, gs[i].key)
    {
      assert gs[i] in multiset(GroupSum(keys, vals));
    }
    gs
  }

  /** The leading `n` groups of a ranking are the largest: none left out is bigger. */
  lemma PrefixIsLargest<K>(gs: seq<Group<K>>, n: nat)
    requires NonIncreasing(gs) && n <= |gs|
    ensures forall i, j :: 0 <= i < n <= j < |gs| ==> gs[j].total <= gs[i].total
  {
  }

  /** The fleet number of each equipment row. */
  function FleetKeys(t: Table): (r: seq<string>)
    requires WellFormed(t) && EquipmentReady(t)
    ensures |r| == |t.rows|
  {
    var col := Lookup(t, FleetColumn).value;
    seq(|t.rows|, i requires 0 <= i < |t.rows| => col[i].s)
  }

  /** The activity comment of each equipment row. */
  function CommentKeys(t: Table): (r: seq<string>)
    requires WellFormed(t) && EquipmentReady(t)
    ensures |r| == |t.rows|
  {
    var col := Lookup(t, CommentColumn).value;
    seq(|t.rows|, i requires 0 <= i < |t.rows| => col[i].s)
  }

  /** The fuel issued on each equipment row, missing where it was not a number. */
  function FuelValues(t: Table): (r: seq<Option<real>>)
    requires WellFormed(t) && EquipmentReady(t)
    ensures |r| == |t.rows|
  {
    Values(Lookup(t, FuelIssuedColumn).value)
  }

  /** The fleet totals, largest first: `groupby('__fleet__')...sort_values(ascending=False)`. */
  function Fleets(t: Table): (gs: seq<Group<string>>)
    requires WellFormed(t) && EquipmentReady(t)
    ensures NonIncreasing(gs)
    ensures forall i :: 0 <= i < |gs| ==> gs[i].total == SumOver(FleetKeys(t), FuelValues(t), gs[i].key)
  {
    Ranked(FleetKeys(t), FuelValues(t))
  }

  /**
   * The top consumers (713): at most five fleets, largest first, each issued at
   * least as much as any fleet left out, each total the fuel of its own rows.
   */
  function TopConsumers(t: Table): (r: seq<Group<string>>)
    requires WellFormed(t) && EquipmentReady(t)
    ensures |r| == Shown(Fleets(t)) && r == Fleets(t)[..|r|]
    ensures NonIncreasing(r)
    ensures forall i, j :: 0 <= i < |r| <= j < |Fleets(t)| ==> Fleets(t)[j].total <= r[i].total
    ensures forall i :: 0 <= i < |r| ==> r[i].total == SumOver(FleetKeys(t), FuelValues(t), r[i].key)
  {
    var ranked := Fleets(t);
    PrefixIsLargest(ranked, Shown(ranked));
    ranked[..Shown(ranked)]
  }

  /** How many groups of a ranking are shown on their own: at most five. */
  function Shown<K>(ranked: seq<Group<K>>): (k: nat)
    ensures k <= TopCount && k <= |ranked| && (k == TopCount || k == |ranked|)
  {
    if |ranked| < TopCount then |ranked| else TopCount
  }

  /** The total of the groups that are not shown on their own (0 when there are none). */
  function Rest<K>(ranked: seq<Group<K>>): real {
    Total(ranked[Shown(ranked)..])
  }

  /**
   * The top slices of a ranking: its first five groups, then one `other` slice with
   * the total of the rest, added only when that total is positive.
   */
  method TopPlusOther<K>(ranked: seq<Group<K>>, other: K) returns (labels: seq<K>, values: seq<real>)
    requires NonIncreasing(ranked)
    ensures |labels| == |values|
    ensures |labels| == Shown(ranked) + (if Rest(ranked) > 0.0 then 1 else 0)
    ensures labels[..Shown(ranked)] == Keys(ranked[..Shown(ranked)])
    ensures values[..Shown(ranked)] == Totals(ranked[..Shown(ranked)])
    ensures Rest(ranked) > 0.0 ==> labels[Shown(ranked)] == other && values[Shown(ranked)] == Rest(ranked)
    ensures forall i, j :: 0 <= i < j < Shown(ranked) ==> values[i] >= values[j]
    ensures forall i, j :: 0 <= i < Shown(ranked) <= j < |ranked| ==> ranked[j].total <= values[i]
    ensures Rest(ranked) >= 0.0 ==> Sum(values) == Total(ranked)
  {
    var k := Shown(ranked);
    var top := ranked[..k];
    var others := if |ranked| > TopCount then Total(ranked[TopCount..]) else 0.0;
    assert others == Rest(ranked) by {
      if |ranked| <= TopCount {
        assert ranked[k..] == [];
      }
    }
    assert ranked == top + ranked[k..];
    TotalAppend(top, ranked[k..]);
    SumTotals(top);
    labels := Keys(top);
    values := Totals(top);
    assert |values| == k;
    assert labels[..k] == labels && values[..k] == values;
    if others > 0.0 {
      SumAppend(values, [others]);
      assert [others][..0] == [];
      labels := labels + [other];
      values := values + [others];
      assert labels[..k] == Keys(top);
      assert values[..k] == Totals(top);
    }
  }

  /** The activity totals, largest first: `groupby('__comment__')...sort_values(ascending=False)`. */
  function Activity(t: Table): (gs: seq<Group<string>>)
    requires WellFormed(t) && EquipmentReady(t)
    ensures NonIncreasing(gs) && Total(gs) == SumPresent(FuelValues(t))
  {
    Ranked(CommentKeys(t), FuelValues(t))
  }

  /**
   * The activity donut (724-734): the five largest activity totals in descending
   * order, then "Other Works" carrying the rest only when the rest is positive;
   * whenever the rest is not negative the slices add up to all the fuel issued.
   */
  method ActivityBreakdown(t: Table) returns (labels: seq<string>, values: seq<real>)
    requires WellFormed(t) && EquipmentReady(t)
    ensures |labels| == |values|
    ensures |labels| == Shown(Activity(t)) + (if Rest(Activity(t)) > 0.0 then 1 else 0)
    ensures labels[..Shown(Activity(t))] == Keys(Activity(t)[..Shown(Activity(t))])
    ensures values[..Shown(Activity(t))] == Totals(Activity(t)[..Shown(Activity(t))])
    ensures Rest(Activity(t)) > 0.0 ==>
              labels[Shown(Activity(t))] == OtherWorks && values[Shown(Activity(t))] == Rest(Activity(t))
    ensures forall i, j :: 0 <= i < Shown(Activity(t)) <= j < |Activity(t)| ==>
              Activity(t)[j].total <= values[i]
    ensures Rest(Activity(t)) >= 0.0 ==> Sum(values) == SumPresent(FuelValues(t))
  {
    labels, values := TopPlusOther(Activity(t), OtherWorks);
  }
}
