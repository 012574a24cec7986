/** staffrepo.Repo: the in-memory employee repository. The mutex is not modelled.
    Create, Read, Update, Delete and ReadAll each hold the lock for the whole call, so
    each runs here as one step. Serialize takes no lock of its own: it relies on its
    caller ReadAll holding it, and is modelled as one atomic read of the map. The
    context is reduced to whether it is already cancelled. */
module StaffRepo {
  import opened Domain
  import opened Listing
  import opened StaffSpec

  class Repo {
    /** The employees, by id. */
    var m: map<uint64, Employee>
    /** The last id issued (Go's `seq`). */
    var sequence: uint64

    /** The guarded state as a value. */
    function State(): (s: Store)
      reads this
    {
      Store(m, sequence)
    }

    /** New: an empty repository whose first Create issues id 1. */
    constructor ()
      ensures m == map[] && sequence == 0
      ensures State() == StaffSpec.Empty
    {
      m := map[];
      sequence := 0;
    }

    /** Every value in the map, ordered by ID: the values are gathered in whatever order
        the map yields them and then sorted in place. */
    method Serialize() returns (r: seq<Employee>)
      ensures IsListing(m, r)
    {
      var store := m;
      if |store| == 0 {
        return [];
      }
      var all := new Employee[|store|];
      var rest, i := store, 0;
      while rest != map[]
        invariant 0 <= i <= all.Length
        invariant i + |rest| == all.Length
        invariant multiset(all[..i]) + Values(rest) == Values(store)
        decreases |rest|
      {
        var id :| id in rest;
        var e := rest[id];
        all[i] := e;
        assert all[..i + 1] == all[..i] + [e];
        TakeOut(all[..i], rest, id, Values(store));
        rest := rest - {id};
        i := i + 1;
      }
      assert multiset(all[..]) == Values(store) by {
        assert all[..i] == all[..];
      }
      SortByID(all);
      r := all[..];
    }

    method Create(e: Employee, cancelled: bool) returns (r: Result<uint64>)
      modifies this
      ensures Step(State(), r) == StaffSpec.Create(old(State()), e, cancelled)
    {
      if cancelled {
        return Cancelled;
      }
      sequence := Next(sequence);
      var u := e.(ID := sequence);
      m := m[sequence := u];
      return Ok(sequence);
    }

    method Delete(id: uint64, cancelled: bool) returns (r: Result<()>)
      modifies this
      ensures Step(State(), r) == StaffSpec.Delete(old(State()), id, cancelled)
    {
      if cancelled {
        return Cancelled;
      }
      if id !in m {
        return NotFound(id);
      }
      m := m - {id};
      return Ok(());
    }

    method Read(id: uint64, cancelled: bool) returns (r: Result<Employee>)
      ensures Step(State(), r) == StaffSpec.Read(State(), id, cancelled)
    {
      if cancelled {
        return Cancelled;
      }
      if id in m {
        return Ok(m[id]);
      }
      return NotFound(id);
    }

    method ReadAll(cancelled: bool) returns (r: Result<seq<Employee>>)
      ensures StaffSpec.ReadAll(State(), cancelled, Step(State(), r))
    {
      if cancelled {
        return Cancelled;
      }
      var employees := Serialize();
      return Ok(employees);
    }

    method Update(id: uint64, u: Employee, cancelled: bool) returns (r: Result<Employee>)
      modifies this
      ensures Step(State(), r) == StaffSpec.Update(old(State()), id, u, cancelled)
    {
      if cancelled {
        return Cancelled;
      }
      m := m[id := u];
      return Ok(u);
    }
  }
}
