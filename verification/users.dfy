/**
 The user record and the registry (`testData`): an ordered sequence of
 records, searched linearly by id (`find` / `findIndex`) and filtered by
 role (`filter`).
 */
module Users {
  import opened Fields

  datatype User = User(id: string, name: string, age: int, email: string, role: string)

  type Registry = seq<User>

  /** Every record's id differs from every other record's id. */
  predicate HasUniqueIds(reg: Registry) {
    forall j, k :: 0 <= j < k < |reg| ==> reg[j].id != reg[k].id
  }

  /**
   `testData.findIndex(user => user.id === id)`, with `None` for `-1`: the
   first position whose id is `id`.
   */
  function FindIndex(reg: Registry, id: string): (r: Option<nat>)
    ensures r.None? <==> forall k :: 0 <= k < |reg| ==> reg[k].id != id
    ensures r.Some? ==> r.value < |reg| && reg[r.value].id == id
    ensures r.Some? ==> forall k :: 0 <= k < r.value ==> reg[k].id != id
  {
    if reg == [] then None
    else if reg[0].id == id then Some(0)
    else
      match FindIndex(reg[1..], id)
      case None => None
      case Some(i) => Some(i + 1)
  }

  /** With unique ids, the record found is the only one carrying the id. */
  lemma FindIndexUnique(reg: Registry, id: string, k: nat)
    requires HasUniqueIds(reg)
    requires k < |reg| && reg[k].id == id
    ensures FindIndex(reg, id) == Some(k)
  {
  }

  /** `testData.filter(user => user.role === role)`. */
  function FilterByRole(reg: Registry, role: string): (r: seq<User>)
    ensures |r| <= |reg|
    ensures forall k :: 0 <= k < |r| ==> r[k] in reg && r[k].role == role
    ensures forall k :: 0 <= k < |reg| && reg[k].role == role ==> reg[k] in r
  {
    if reg == [] then []
    else if reg[0].role == role then [reg[0]] + FilterByRole(reg[1..], role)
    else FilterByRole(reg[1..], role)
  }

  /** Filtering a concatenation filters each part and keeps them in order. */
  lemma {:induction false} FilterByRoleAppend(a: Registry, b: Registry, role: string)
    ensures FilterByRole(a + b, role) == FilterByRole(a, role) + FilterByRole(b, role)
  {
    if a == [] {
      assert a + b == b;
    } else {
      assert (a + b)[0] == a[0];
      assert (a + b)[1..] == a[1..] + b;
      FilterByRoleAppend(a[1..], b, role);
    }
  }

  /** The positions from `from` on whose record's role is `role`, in increasing order. */
  function MatchPositions(reg: Registry, role: string, from: nat): seq<nat>
    requires from <= |reg|
    decreases |reg| - from
  {
    if from == |reg| then []
    else (if reg[from].role == role then [from] else []) + MatchPositions(reg, role, from + 1)
  }

  /** One step of the filter over the suffix starting at `from`. */
  lemma FilterByRoleStep(reg: Registry, role: string, from: nat)
    requires from < |reg|
    ensures FilterByRole(reg[from..], role) ==
      (if reg[from].role == role then [reg[from]] else []) + FilterByRole(reg[from + 1..], role)
  {
    assert reg[from..][0] == reg[from];
    assert reg[from..][1..] == reg[from + 1..];
  }

  /** The k-th record the filter keeps is the record at the k-th matching position. */
  lemma {:induction false} FilterPicksMatchPositions(reg: Registry, role: string, from: nat)
    requires from <= |reg|
    ensures var p, r := MatchPositions(reg, role, from), FilterByRole(reg[from..], role);
      && |p| == |r|
      && forall k :: 0 <= k < |p| ==> from <= p[k] < |reg| && r[k] == reg[p[k]]
    decreases |reg| - from
  {
    if from < |reg| {
      FilterPicksMatchPositions(reg, role, from + 1);
      FilterByRoleStep(reg, role, from);
      var pt, rt := MatchPositions(reg, role, from + 1), FilterByRole(reg[from + 1..], role);
      var hit := reg[from].role == role;
      var ph: seq<nat>, rh: seq<User> := if hit then [from] else [], if hit then [reg[from]] else [];
      assert MatchPositions(reg, role, from) == ph + pt;
      forall k | 0 <= k < |ph + pt|
        ensures from <= (ph + pt)[k] < |reg| && (rh + rt)[k] == reg[(ph + pt)[k]]
      {
        if k >= |ph| {
          assert (ph + pt)[k] == pt[k - |ph|] && (rh + rt)[k] == rt[k - |ph|];
        }
      }
    }
  }

  /** The matching positions strictly increase and list exactly the matching records. */
  lemma {:induction false} MatchPositionsAreTheMatches(reg: Registry, role: string, from: nat)
    requires from <= |reg|
    ensures var p := MatchPositions(reg, role, from);
      && (forall k :: 0 <= k < |p| ==> from <= p[k] < |reg|)
      && (forall k, l :: 0 <= k < l < |p| ==> p[k] < p[l])
      && (forall j :: 0 <= j < |reg| ==> (j in p <==> from <= j && reg[j].role == role))
    decreases |reg| - from
  {
    if from < |reg| {
      MatchPositionsAreTheMatches(reg, role, from + 1);
      var pt := MatchPositions(reg, role, from + 1);
      var ph: seq<nat> := if reg[from].role == role then [from] else [];
      var p := ph + pt;
      assert MatchPositions(reg, role, from) == p;
      forall k | 0 <= k < |p|
        ensures from <= p[k] < |reg| && (k >= |ph| ==> p[k] == pt[k - |ph|])
      {
        if k >= |ph| {
          assert p[k] == pt[k - |ph|];
        }
      }
      forall k, l | 0 <= k < l < |p|
        ensures p[k] < p[l]
      {
        assert p[l] == pt[l - |ph|];
        if k >= |ph| {
          assert p[k] == pt[k - |ph|];
        }
      }
      forall j | 0 <= j < |reg|
        ensures j in p <==> from <= j && reg[j].role == role
      {
        if j == from {
          assert j !in pt;
        } else {
          assert j !in ph;
        }
      }
    }
  }

  /**
   The filter keeps exactly the records whose role matches, in registry order:
   its k-th element is the record at the k-th matching position, the
   positions strictly increase, and a position is listed exactly when its
   record's role matches.
   */
  lemma FilterIsOrderedSubsequence(reg: Registry, role: string)
    ensures var p, r := MatchPositions(reg, role, 0), FilterByRole(reg, role);
      && |p| == |r|
      && (forall k :: 0 <= k < |p| ==> p[k] < |reg| && r[k] == reg[p[k]])
      && (forall k, l :: 0 <= k < l < |p| ==> p[k] < p[l])
      && (forall j :: 0 <= j < |reg| ==> (j in p <==> reg[j].role == role))
  {
    assert reg[0..] == reg;
    FilterPicksMatchPositions(reg, role, 0);
    MatchPositionsAreTheMatches(reg, role, 0);
  }
}
