/**
 * `groupby(key)[value].sum()`: one group per distinct key, whose total is the sum of
 * the values present in that key's rows (0 when none is present).
 */
module Groups {
  import opened Wrappers
  import opened Strings
  import opened Aggregate

  datatype Group<K> = Group(key: K, total: real)

  function Keys<K>(gs: seq<Group<K>>): (r: seq<K>)
    ensures |r| == |gs| && forall i :: 0 <= i < |gs| ==> r[i] == gs[i].key
  {
    seq(|gs|, i requires 0 <= i < |gs| => gs[i].key)
  }

  predicate DistinctKeys<K(==)>(gs: seq<Group<K>>) {
    forall i, j :: 0 <= i < j < |gs| ==> gs[i].key != gs[j].key
  }

  /** The totals of `gs`, summed. */
  function Total<K>(gs: seq<Group<K>>): real
    decreases |gs|
  {
    if gs == [] then 0.0 else Total(gs[..|gs| - 1]) + gs[|gs| - 1].total
  }

  lemma {:induction false} TotalAppend<K>(a: seq<Group<K>>, b: seq<Group<K>>)
    ensures Total(a + b) == Total(a) + Total(b)
    decreases |b|
  {
    if b == [] {
      assert a + b == a;
    } else {
      assert (a + b)[..|a + b| - 1] == a + b[..|b| - 1];
      assert (a + b)[|a + b| - 1] == b[|b| - 1];
      TotalAppend(a, b[..|b| - 1]);
    }
  }

  lemma TotalSingle<K>(g: Group<K>)
    ensures Total([g]) == g.total
  {
    assert [g][..0] == [];
  }

  /** Replacing one group changes the total by the difference of the two. */
  lemma TotalUpdate<K>(gs: seq<Group<K>>, i: nat, g: Group<K>)
    requires i < |gs|
    ensures Total(gs[i := g]) == Total(gs) - gs[i].total + g.total
  {
    assert gs == gs[..i] + [gs[i]] + gs[i + 1..];
    assert gs[i := g] == gs[..i] + [g] + gs[i + 1..];
    TotalAppend(gs[..i] + [gs[i]], gs[i + 1..]);
    TotalAppend(gs[..i], [gs[i]]);
    TotalAppend(gs[..i] + [g], gs[i + 1..]);
    TotalAppend(gs[..i], [g]);
    TotalSingle(gs[i]);
    TotalSingle(g);
  }

  /** Reordering the groups keeps their total. */
  lemma {:induction false} TotalPermutation<K>(a: seq<Group<K>>, b: seq<Group<K>>)
    requires multiset(a) == multiset(b)
    ensures Total(a) == Total(b)
    decreases |a|
  {
    if a == [] {
      assert |b| == |multiset(b)| == 0;
    } else {
      var x := a[|a| - 1];
      var init := a[..|a| - 1];
      assert a == init + [x];
      assert x in multiset(b);
      var i :| 0 <= i < |b| && b[i] == x;
      var rest := b[..i] + b[i + 1..];
      assert b == b[..i] + [x] + b[i + 1..];
      assert multiset(b) == multiset(b[..i]) + multiset([x]) + multiset(b[i + 1..]);
      assert multiset(rest) == multiset(b[..i]) + multiset(b[i + 1..]);
      assert multiset(a) == multiset(init) + multiset([x]);
      assert multiset(init) == multiset(a) - multiset{x};
      assert multiset(rest) == multiset(b) - multiset{x};
      TotalPermutation(init, rest);
      TotalAppend(b[..i] + [x], b[i + 1..]);
      TotalAppend(b[..i], [x]);
      TotalAppend(b[..i], b[i + 1..]);
      TotalAppend(init, [x]);
      TotalSingle(x);
    }
  }

  /** The sum of the values present in the rows whose key is `k`. */
  function SumOver<K(==)>(keys: seq<K>, vals: seq<Option<real>>, k: K): real
    requires |keys| == |vals|
    decreases |keys|
  {
    if keys == [] then 0.0
    else
      var n := |keys| - 1;
      SumOver(keys[..n], vals[..n], k) + (if keys[n] == k && vals[n].Some? then vals[n].value else 0.0)
  }

  /** A key that no row carries sums to nothing. */
  lemma {:induction false} SumOverAbsent<K>(keys: seq<K>, vals: seq<Option<real>>, k: K)
    requires |keys| == |vals| && k !in keys
    ensures SumOver(keys, vals, k) == 0.0
    decreases |keys|
  {
    if keys != [] {
      SumOverAbsent(keys[..|keys| - 1], vals[..|vals| - 1], k);
    }
  }

  /** Add one row's value `d` to its key's group, or open a new group at the end. */
  function AddTo<K(==)>(gs: seq<Group<K>>, k: K, d: real): (r: seq<Group<K>>)
    requires DistinctKeys(gs)
    ensures Keys(r) == if k in Keys(gs) then Keys(gs) else Keys(gs) + [k]
    ensures forall i :: 0 <= i < |gs| ==> r[i].total == gs[i].total + (if gs[i].key == k then d else 0.0)
    ensures k !in Keys(gs) ==> r[|gs|].total == d
    ensures DistinctKeys(r) && Total(r) == Total(gs) + d
  {
    match FirstIndex(Keys(gs), x => x == k)
    case Some(i) =>
      var r := gs[i := Group(k, gs[i].total + d)];
      assert Keys(r) == Keys(gs);
      TotalUpdate(gs, i, Group(k, gs[i].total + d));
      r
    case None =>
      var r := gs + [Group(k, d)];
      assert Keys(r) == Keys(gs) + [k];
      TotalAppend(gs, [Group(k, d)]);
      TotalSingle(Group(k, d));
      r
  }

  function ValueOr0(v: Option<real>): real {
    if v.Some? then v.value else 0.0
  }

  /** The groups, in the order their keys first appear. */
  function GroupSum<K(==)>(keys: seq<K>, vals: seq<Option<real>>): (gs: seq<Group<K>>)
    requires |keys| == |vals|
    ensures DistinctKeys(gs)
    ensures forall i :: 0 <= i < |keys| ==> keys[i] in Keys(gs)
    ensures forall i :: 0 <= i < |gs| ==> gs[i].key in keys
    decreases |keys|
  {
    if keys == [] then []
    else
      var n := |keys| - 1;
      assert keys == keys[..n] + [keys[n]];
      AddTo(GroupSum(keys[..n], vals[..n]), keys[n], ValueOr0(vals[n]))
  }

  /** The present values of a column: those of all but its last cell, then the last one's. */
  lemma SumPresentLast(xs: seq<Option<real>>)
    requires xs != []
    ensures SumPresent(xs) == SumPresent(xs[..|xs| - 1]) + ValueOr0(xs[|xs| - 1])
  {
    var n := |xs| - 1;
    assert xs == xs[..n] + [xs[n]];
    SumPresentAppend(xs[..n], [xs[n]]);
    assert [xs[n]][..0] == [];
    if xs[n].Some? {
      assert [xs[n].value][..0] == [];
    }
  }

  /** Grouping neither loses nor invents fuel: the group totals add up to the column's sum. */
  lemma {:induction false} GroupSumTotal<K>(keys: seq<K>, vals: seq<Option<real>>)
    requires |keys| == |vals|
    ensures Total(GroupSum(keys, vals)) == SumPresent(vals)
    decreases |keys|
  {
    if keys != [] {
      var n := |keys| - 1;
      var prev := GroupSum(keys[..n], vals[..n]);
      assert GroupSum(keys, vals) == AddTo(prev, keys[n], ValueOr0(vals[n]));
      GroupSumTotal(keys[..n], vals[..n]);
      SumPresentLast(vals);
    }
  }

  /** Each group's total is the sum of the values present in the rows with its key. */
  lemma {:induction false} GroupSumTotals<K>(keys: seq<K>, vals: seq<Option<real>>)
    requires |keys| == |vals|
    ensures forall i :: 0 <= i < |GroupSum(keys, vals)| ==>
              GroupSum(keys, vals)[i].total == SumOver(keys, vals, GroupSum(keys, vals)[i].key)
    decreases |keys|
  {
    if keys != [] {
      var n := |keys| - 1;
      var prev := GroupSum(keys[..n], vals[..n]);
      var k, d := keys[n], ValueOr0(vals[n]);
      var gs := GroupSum(keys, vals);
      assert gs == AddTo(prev, k, d);
      GroupSumTotals(keys[..n], vals[..n]);
      forall i | 0 <= i < |gs|
        ensures gs[i].total == SumOver(keys, vals, gs[i].key)
      {
        var key := gs[i].key;
        assert SumOver(keys, vals, key) == SumOver(keys[..n], vals[..n], key) + (if k == key then d else 0.0);
        if i < |prev| {
          assert Keys(gs)[i] == Keys(prev)[i];
          assert gs[i].total == prev[i].total + (if key == k then d else 0.0);
          assert prev[i].total == SumOver(keys[..n], vals[..n], key);
        } else {
          assert k !in Keys(prev);
          assert i == |prev|;
          assert Keys(gs)[i] == k;
          assert gs[i].total == d;
          SumOverAbsent(keys[..n], vals[..n], k);
        }
      }
    }
  }

  /** With distinct keys, no group occurs twice. */
  lemma {:induction false} DistinctOnce<K>(gs: seq<Group<K>>, g: Group<K>)
    requires DistinctKeys(gs)
    ensures multiset(gs)[g] <= 1
    decreases |gs|
  {
    if gs != [] {
      var init := gs[..|gs| - 1];
      assert gs == init + [gs[|gs| - 1]];
      DistinctOnce(init, g);
      if g == gs[|gs| - 1] {
        assert g !in init;
      }
    }
  }

  /** Reordering groups keeps every key among those it was drawn from. */
  lemma PermutedKeysIn<K>(gs: seq<Group<K>>, groups: seq<Group<K>>, keys: seq<K>)
    requires multiset(gs) == multiset(groups)
    requires forall i :: 0 <= i < |groups| ==> groups[i].key in keys
    ensures forall i :: 0 <= i < |gs| ==> gs[i].key in keys
  {
    forall i | 0 <= i < |gs|
      ensures gs[i].key in keys
    {
      assert gs[i] in multiset(groups);
      var a :| 0 <= a < |groups| && groups[a] == gs[i];
    }
  }

  /** Reordering groups with distinct keys keeps the keys distinct. */
  lemma PermutedDistinct<K>(s: seq<Group<K>>, gs: seq<Group<K>>)
    requires DistinctKeys(gs) && multiset(s) == multiset(gs)
    ensures DistinctKeys(s)
  {
    forall i, j | 0 <= i < j < |s|
      ensures s[i].key != s[j].key
    {
      if s[i].key == s[j].key {
        assert s[i] in multiset(gs) && s[j] in multiset(gs);
        var a :| 0 <= a < |gs| && gs[a] == s[i];
        var b :| 0 <= b < |gs| && gs[b] == s[j];
        assert a == b;
        assert s == s[..j] + s[j..];
        assert s[i] in s[..j] && s[j] in s[j..];
        assert multiset(s)[s[i]] == multiset(s[..j])[s[i]] + multiset(s[j..])[s[i]];
        DistinctOnce(gs, s[i]);
      }
    }
  }
}
