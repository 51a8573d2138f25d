/**
 * The column resolver: each semantic field is found as the first header, in header
 * order, whose lower-cased text passes that field's substring test.
 */
module Columns {
  import opened Wrappers
  import opened Strings

  /** The fields the fuel page looks up by fuzzy header matching. */
  datatype Field =
    | FuelIssued   // equipment log: litres issued to a machine
    | Remark       // equipment log: the free-text activity comment
    | Fleet        // equipment log: the fleet number
    | DieselUsed   // dipping log: litres issued or used per day

  /** The substring test of each field, applied to the lower-cased header. */
  predicate Matches(f: Field, header: string) {
    var c := Lower(header);
    match f
    case FuelIssued => Contains(c, "fuel") && (Contains(c, "issued") || Contains(c, "(lts)") || Contains(c, "l"))
    case Remark => Contains(c, "comment") || Contains(c, "remark")
    case Fleet => Contains(c, "fleet")
    case DieselUsed => Contains(c, "diesel") && (Contains(c, "issued") || Contains(c, "used"))
  }

  /** The index of the header chosen for `f`, or None when no header passes its test. */
  function Resolve(headers: seq<string>, f: Field): (r: Option<nat>)
    ensures r.Some? ==> r.value < |headers| && Matches(f, headers[r.value])
    ensures r.Some? ==> forall j :: 0 <= j < r.value ==> !Matches(f, headers[j])
    ensures r.None? <==> forall j :: 0 <= j < |headers| ==> !Matches(f, headers[j])
  {
    FirstIndex(headers, h => Matches(f, h))
  }

  /** Appending a header that does not pass the test leaves the resolution unchanged. */
  lemma ResolveAppend(headers: seq<string>, extra: string, f: Field)
    requires !Matches(f, extra)
    ensures Resolve(headers + [extra], f) == Resolve(headers, f)
  {
    FirstIndexAppend(headers, extra, h => Matches(f, h));
  }

  lemma {:induction false} OccursAtChar(s: string, t: string, i: int, k: int)
    requires OccursAt(s, t, i) && 0 <= k < |t|
    ensures s[i + k] == t[k]
  {
    assert s[i..i + |t|][k] == t[k];
  }

  /**
   * The fuel-issued test is the same as "contains fuel": its second half always holds,
   * because "fuel" itself contains "l".
   */
  lemma FuelTestIsContainsFuel(header: string)
    ensures Matches(FuelIssued, header) <==> Contains(Lower(header), "fuel")
  {
    var c := Lower(header);
    if Contains(c, "fuel") {
      var i :| OccursAt(c, "fuel", i);
      OccursAtChar(c, "fuel", i, 3);
      assert c[i + 3..i + 4] == [c[i + 3]];
      assert OccursAt(c, "l", i + 3);
    }
  }

  /** A string that contains `t` contains each character of `t`. */
  lemma ContainsChar(s: string, t: string, k: int)
    requires Contains(s, t) && 0 <= k < |t|
    ensures t[k] in s
  {
    var i :| OccursAt(s, t, i);
    OccursAtChar(s, t, i, k);
  }

  /** Lower-casing cannot create a lower-case letter whose two spellings are both absent. */
  lemma LowerAbsent(s: string, c: char)
    requires 'a' <= c <= 'z'
    requires c !in s && (c as int - 'a' as int + 'A' as int) as char !in s
    ensures c !in Lower(s)
  {
  }
}
