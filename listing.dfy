/** The ordered listing of a store's employees that Serialize produces: every stored
    value once per key that maps to it, ordered by the ID field. */
module Listing {
  import opened Domain

  /** The listing is in non-decreasing order of the ID field. Two stored values may share
      an ID (Update can store any value under any key), so the order is not strict. */
  predicate SortedByID(s: seq<Employee>) {
    forall i, j :: 0 <= i < j < |s| ==> s[i].ID <= s[j].ID
  }

  /** Some key of a non-empty store: the one Values takes out first. */
  ghost function AnyKey(m: map<uint64, Employee>): (k: uint64)
    requires m != map[]
    ensures k in m
  {
    var k :| k in m; k
  }

  /** Removing key k from m leaves one key fewer, and the values of m are those of the
      rest together with m[k]. */
  lemma RemoveKey(m: map<uint64, Employee>, k: uint64)
    requires k in m
    ensures |m - {k}| == |m| - 1
    ensures forall v :: v in m.Values <==> v in (m - {k}).Values || v == m[k]
  {
    var rest := m - {k};
    assert rest.Keys == m.Keys - {k};
    forall v ensures v in m.Values <==> v in rest.Values || v == m[k] {
      if v in m.Values && v != m[k] {
        var key :| key in m && m[key] == v;
        assert key in rest && rest[key] == v;
      }
      if v in rest.Values {
        var key :| key in rest && rest[key] == v;
        assert key in m && m[key] == v;
      }
    }
  }

  /** The multiset of values of a store: one occurrence per key. */
  ghost function Values(m: map<uint64, Employee>): (r: multiset<Employee>)
    ensures |r| == |m|
    ensures forall v :: v in r <==> v in m.Values
    decreases |m|
  {
    if m == map[] then multiset{}
    else
      var k := AnyKey(m);
      RemoveKey(m, k);
      Values(m - {k}) + multiset{m[k]}
  }

  /** Taking any one key out of a store takes exactly its value out of Values. */
  lemma {:induction false} ValuesRemove(m: map<uint64, Employee>, k: uint64)
    requires k in m
    ensures Values(m) == Values(m - {k}) + multiset{m[k]}
    decreases |m|
  {
    var j := AnyKey(m);
    if j != k {
      var mj, mk := m - {j}, m - {k};
      assert mj - {k} == mk - {j};
      RemoveKey(m, j);
      RemoveKey(m, k);
      ValuesRemove(mj, k);
      ValuesRemove(mk, j);
    }
  }

  /** Moving the value under one key from the rest of a store to the gathered values
      keeps the two together equal to the whole store's values. */
  lemma TakeOut(gathered: seq<Employee>, rest: map<uint64, Employee>, k: uint64, all: multiset<Employee>)
    requires k in rest && multiset(gathered) + Values(rest) == all
    ensures multiset(gathered + [rest[k]]) + Values(rest - {k}) == all
    ensures |rest - {k}| == |rest| - 1
  {
    ValuesRemove(rest, k);
    RemoveKey(rest, k);
  }

  /** r lists exactly the values of m, ordered by ID. */
  ghost predicate IsListing(m: map<uint64, Employee>, r: seq<Employee>) {
    SortedByID(r) && multiset(r) == Values(m)
  }

  /** Exchanges two elements of an array. */
  method Swap(a: array<Employee>, i: nat, j: nat)
    requires i < a.Length && j < a.Length
    modifies a
    ensures a[..] == old(a[..])[i := old(a[j])][j := old(a[i])]
    ensures multiset(a[..]) == old(multiset(a[..]))
  {
    a[i], a[j] := a[j], a[i];
  }

  /** Moves a[i] down into the sorted prefix a[..i], leaving a[..i + 1] sorted and the
      rest of the array as it was. */
  method InsertDown(a: array<Employee>, i: nat)
    requires i < a.Length && SortedByID(a[..i])
    modifies a
    ensures SortedByID(a[..i + 1])
    ensures a[i + 1..] == old(a[i + 1..])
    ensures multiset(a[..]) == old(multiset(a[..]))
  {
    var j := i;
    while 0 < j && a[j].ID < a[j - 1].ID
      invariant 0 <= j <= i
      invariant forall p, q :: 0 <= p < q <= i && p != j && q != j ==> a[p].ID <= a[q].ID
      invariant forall q :: j < q <= i ==> a[j].ID < a[q].ID
      invariant a[i + 1..] == old(a[i + 1..])
      invariant multiset(a[..]) == old(multiset(a[..]))
    {
      Swap(a, j - 1, j);
      j := j - 1;
    }
  }

  /** Sorts an array in place by the ID field (the sort.Slice step of Serialize). */
  method SortByID(a: array<Employee>)
    modifies a
    ensures SortedByID(a[..])
    ensures multiset(a[..]) == old(multiset(a[..]))
  {
    var i := 0;
    while i < a.Length
      invariant 0 <= i <= a.Length
      invariant SortedByID(a[..i])
      invariant multiset(a[..]) == old(multiset(a[..]))
    {
      InsertDown(a, i);
      i := i + 1;
    }
    assert a[..i] == a[..];
  }
}
