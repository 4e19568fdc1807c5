/**
 * The in-memory employee store of src/lib/database.ts (`db`): a sequence of
 * employee records with lookup, merge-update, append and delete by id.
 * `Date.now()`, which supplies the id of a new record, is a parameter.
 */
module EmployeeStore {
  import opened Wrappers
  import opened Calendar
  import opened Positions

  /** `Partial<Employee>`: each field either replaces the stored one or is absent. */
  datatype EmployeePatch = EmployeePatch(
    id: Option<int>,
    name: Option<string>,
    position: Option<string>,
    hireDate: Option<Date>,
    vacationDaysPerYear: Option<real>,
    usedVacationDays: Option<real>,
    usedAdditionalDays: Option<Option<real>>,
    positionChanges: Option<seq<PositionChange>>)

  const EmptyPatch := EmployeePatch(None, None, None, None, None, None, None, None)

  /**
   * The fields of a record still to be added. The type says `Omit<Employee, 'id'>`,
   * but the POST handler passes the request body through, so an `id` may
   * still be among them.
   */
  datatype EmployeeFields = EmployeeFields(
    id: Option<int>,
    name: string,
    position: string,
    hireDate: Date,
    vacationDaysPerYear: real,
    usedVacationDays: real,
    usedAdditionalDays: Option<real>,
    positionChanges: seq<PositionChange>)

  /** `{ ...e, ...data }`: the patch's fields win over the record's. */
  function Merge(e: Employee, patch: EmployeePatch): (r: Employee)
    ensures r.id == patch.id.GetOr(e.id)
    ensures r.name == patch.name.GetOr(e.name) && r.position == patch.position.GetOr(e.position)
    ensures r.hireDate == patch.hireDate.GetOr(e.hireDate)
    ensures r.vacationDaysPerYear == patch.vacationDaysPerYear.GetOr(e.vacationDaysPerYear)
    ensures r.usedVacationDays == patch.usedVacationDays.GetOr(e.usedVacationDays)
    ensures r.usedAdditionalDays == patch.usedAdditionalDays.GetOr(e.usedAdditionalDays)
    ensures r.positionChanges == patch.positionChanges.GetOr(e.positionChanges)
  {
    Employee(
      patch.id.GetOr(e.id),
      patch.name.GetOr(e.name),
      patch.position.GetOr(e.position),
      patch.hireDate.GetOr(e.hireDate),
      patch.vacationDaysPerYear.GetOr(e.vacationDaysPerYear),
      patch.usedVacationDays.GetOr(e.usedVacationDays),
      patch.usedAdditionalDays.GetOr(e.usedAdditionalDays),
      patch.positionChanges.GetOr(e.positionChanges))
  }

  /** Merging nothing changes nothing, and merging the same patch twice is merging it once. */
  lemma MergeLaws(e: Employee, patch: EmployeePatch)
    ensures Merge(e, EmptyPatch) == e
    ensures Merge(Merge(e, patch), patch) == Merge(e, patch)
  {
  }

  predicate HasId(es: seq<Employee>, id: int) {
    exists i :: 0 <= i < |es| && es[i].id == id
  }

  /** `getEmployee(id)`: `employees.find(e => e.id === id)`. */
  function GetEmployee(es: seq<Employee>, id: int): (r: Option<Employee>)
    ensures r.None? <==> !HasId(es, id)
    ensures r.Some? ==> exists i :: 0 <= i < |es| && es[i] == r.value && es[i].id == id
                                   && forall j :: 0 <= j < i ==> es[j].id != id
  {
    if |es| == 0 then None
    else if es[0].id == id then Some(es[0])
    else
      var r := GetEmployee(es[1..], id);
      assert HasId(es[1..], id) ==> HasId(es, id) by {
        if HasId(es[1..], id) {
          var k :| 0 <= k < |es| - 1 && es[1..][k].id == id;
          assert es[k + 1].id == id;
        }
      }
      assert HasId(es, id) ==> HasId(es[1..], id) by {
        if HasId(es, id) {
          var k :| 0 <= k < |es| && es[k].id == id;
          assert es[1..][k - 1].id == id;
        }
      }
      assert r.Some? ==> exists i :: 0 < i < |es| && es[i] == r.value && es[i].id == id
                                     && forall j :: 0 <= j < i ==> es[j].id != id by {
        if r.Some? {
          var k :| 0 <= k < |es| - 1 && es[1..][k] == r.value && es[1..][k].id == id
                   && forall j :: 0 <= j < k ==> es[1..][j].id != id;
          assert forall j :: 1 <= j < k + 1 ==> es[j].id != id by {
            forall j | 1 <= j < k + 1 ensures es[j].id != id {
              assert es[j] == es[1..][j - 1];
            }
          }
        }
      }
      r
  }

  /** `employees.map(e => e.id === id ? { ...e, ...data } : e)`. */
  function MergeWhere(es: seq<Employee>, id: int, patch: EmployeePatch): (r: seq<Employee>)
    ensures |r| == |es|
    ensures forall i :: 0 <= i < |es| && es[i].id == id ==> r[i] == Merge(es[i], patch)
    ensures forall i :: 0 <= i < |es| && es[i].id != id ==> r[i] == es[i]
  {
    if |es| == 0 then []
    else [if es[0].id == id then Merge(es[0], patch) else es[0]] + MergeWhere(es[1..], id, patch)
  }

  datatype Updated = Updated(employees: seq<Employee>, result: Option<Employee>)

  /**
   * `updateEmployee(id, data)`: merge the patch into every record with that
   * id, then look the id up again in the new sequence.
   */
  function UpdateEmployee(es: seq<Employee>, id: int, patch: EmployeePatch): (r: Updated)
    ensures |r.employees| == |es|
    ensures forall i :: 0 <= i < |es| ==> r.employees[i] == if es[i].id == id then Merge(es[i], patch) else es[i]
  {
    var updated := MergeWhere(es, id, patch);
    Updated(updated, GetEmployee(updated, id))
  }

  /**
   * The update finds nothing exactly when no record has the id, or when the
   * patch itself moves the matching records to another id.
   */
  lemma UpdateEmployeeNone(es: seq<Employee>, id: int, patch: EmployeePatch)
    ensures UpdateEmployee(es, id, patch).result.None?
            <==> !HasId(es, id) || (patch.id.Some? && patch.id.value != id)
  {
    var r := UpdateEmployee(es, id, patch).employees;
    if HasId(es, id) && (patch.id.None? || patch.id.value == id) {
      var k :| 0 <= k < |es| && es[k].id == id;
      assert r[k].id == id;
    }
    if HasId(r, id) {
      var k :| 0 <= k < |r| && r[k].id == id;
      assert es[k].id == id;
    }
  }

  /** A patch that keeps the id returns the merged first record with that id. */
  lemma UpdateEmployeeResult(es: seq<Employee>, id: int, patch: EmployeePatch)
    requires patch.id.None? || patch.id.value == id
    ensures GetEmployee(es, id).Some? ==>
      UpdateEmployee(es, id, patch).result == Some(Merge(GetEmployee(es, id).value, patch))
  {
    if HasId(es, id) {
      var k := FirstIndex(es, id);
      var r := MergeWhere(es, id, patch);
      assert r[k] == Merge(es[k], patch) && r[k].id == id;
      assert forall j :: 0 <= j < k ==> r[j] == es[j];
      FirstWithId(r, id, k);
    }
  }

  /** The index of the first record with the id, which is the one `GetEmployee` returns. */
  lemma {:induction false} FirstIndex(es: seq<Employee>, id: int) returns (k: nat)
    requires HasId(es, id)
    ensures k < |es| && es[k].id == id
    ensures forall j :: 0 <= j < k ==> es[j].id != id
    ensures GetEmployee(es, id) == Some(es[k])
  {
    if es[0].id == id {
      k := 0;
    } else {
      assert HasId(es[1..], id) by {
        var i :| 0 <= i < |es| && es[i].id == id;
        assert es[1..][i - 1].id == id;
      }
      var k' := FirstIndex(es[1..], id);
      k := k' + 1;
      assert forall j :: 1 <= j < k ==> es[j] == es[1..][j - 1];
    }
  }

  /** The record at index `k` is the one `GetEmployee` returns when it is the first with the id. */
  lemma {:induction false} FirstWithId(es: seq<Employee>, id: int, k: nat)
    requires k < |es| && es[k].id == id
    requires forall j :: 0 <= j < k ==> es[j].id != id
    ensures GetEmployee(es, id) == Some(es[k])
  {
    if k > 0 {
      FirstWithId(es[1..], id, k - 1);
    }
  }

  /**
   * `{ id: Date.now(), ...employee }`: the spread comes second, so an `id`
   * carried in the fields replaces the new one.
   */
  function WithId(f: EmployeeFields, id: int): (e: Employee)
    ensures f.id.None? ==> e.id == id
    ensures f.id.Some? ==> e.id == f.id.value
    ensures e.name == f.name && e.position == f.position && e.hireDate == f.hireDate
    ensures e.vacationDaysPerYear == f.vacationDaysPerYear && e.usedVacationDays == f.usedVacationDays
    ensures e.usedAdditionalDays == f.usedAdditionalDays && e.positionChanges == f.positionChanges
    ensures FieldsOf(e) == f.(id := None)
  {
    Employee(f.id.GetOr(id), f.name, f.position, f.hireDate, f.vacationDaysPerYear, f.usedVacationDays,
             f.usedAdditionalDays, f.positionChanges)
  }

  /** A record without its id: the `Omit<Employee, 'id'>` view. */
  function FieldsOf(e: Employee): EmployeeFields {
    EmployeeFields(None, e.name, e.position, e.hireDate, e.vacationDaysPerYear, e.usedVacationDays,
                   e.usedAdditionalDays, e.positionChanges)
  }

  /**
   * `addEmployee(employee)`: append one record, under the new id unless the
   * fields carry one of their own.
   */
  function AddEmployee(es: seq<Employee>, f: EmployeeFields, newId: int): (r: Updated)
    ensures r.result.Some?
    ensures f.id.None? ==> r.result.value.id == newId
    ensures f.id.Some? ==> r.result.value.id == f.id.value
    ensures r.result == Some(WithId(f, newId)) && FieldsOf(r.result.value) == f.(id := None)
    ensures |r.employees| == |es| + 1 && r.employees[..|es|] == es
    ensures r.employees[|es|] == r.result.value
  {
    var e := WithId(f, newId);
    Updated(es + [e], Some(e))
  }

  /** `employees.filter(e => e.id !== id)`. */
  function RemoveId(es: seq<Employee>, id: int): (r: seq<Employee>)
    ensures |r| <= |es|
    ensures forall i :: 0 <= i < |r| ==> r[i].id != id
    ensures forall e :: e in es && e.id != id ==> e in r
    ensures forall e :: e in r ==> e in es
  {
    if |es| == 0 then []
    else if es[0].id == id then RemoveId(es[1..], id)
    else [es[0]] + RemoveId(es[1..], id)
  }

  /** The filter keeps the surviving records in their order: it distributes over concatenation. */
  lemma {:induction false} RemoveIdConcat(a: seq<Employee>, b: seq<Employee>, id: int)
    ensures RemoveId(a + b, id) == RemoveId(a, id) + RemoveId(b, id)
  {
    if |a| > 0 {
      assert (a + b)[1..] == a[1..] + b;
      RemoveIdConcat(a[1..], b, id);
    } else {
      assert a + b == b;
    }
  }

  /** The filter shortens the sequence exactly when some record has the id. */
  lemma {:induction false} RemoveIdShorter(es: seq<Employee>, id: int)
    ensures |RemoveId(es, id)| < |es| <==> HasId(es, id)
  {
    if |es| > 0 {
      RemoveIdShorter(es[1..], id);
      if HasId(es, id) && es[0].id != id {
        var k :| 0 <= k < |es| && es[k].id == id;
        assert es[1..][k - 1].id == id;
      }
      if HasId(es[1..], id) {
        var k :| 0 <= k < |es| - 1 && es[1..][k].id == id;
        assert es[k + 1].id == id;
      }
    }
  }

  datatype Deleted = Deleted(employees: seq<Employee>, removed: bool)

  /** `deleteEmployee(id)`: drop every record with the id; report whether the sequence got shorter. */
  function DeleteEmployee(es: seq<Employee>, id: int): (r: Deleted)
    ensures r.removed <==> HasId(es, id)
    ensures !HasId(r.employees, id)
    ensures forall e :: e in es && e.id != id <==> e in r.employees
  {
    var kept := RemoveId(es, id);
    RemoveIdShorter(es, id);
    Deleted(kept, |kept| < |es|)
  }

  /**
   * Adding a record under an id no record has yet, and deleting that id
   * again, restores the store.
   */
  lemma DeleteUndoesAdd(es: seq<Employee>, f: EmployeeFields, newId: int)
    requires !HasId(es, f.id.GetOr(newId))
    ensures DeleteEmployee(AddEmployee(es, f, newId).employees, f.id.GetOr(newId)).employees == es
    ensures GetEmployee(AddEmployee(es, f, newId).employees, f.id.GetOr(newId)) == Some(WithId(f, newId))
  {
    var id := f.id.GetOr(newId);
    var added := AddEmployee(es, f, newId).employees;
    assert added == es + [WithId(f, newId)];
    RemoveIdConcat(es, [WithId(f, newId)], id);
    RemoveIdOfAbsent(es, id);
    FirstWithId(added, id, |es|);
  }

  /**
   * Adding fields that carry an id some record already has stores a second
   * record under it: looking the id up still finds the old record, and
   * deleting the id removes both.
   */
  lemma AddWithTakenIdDuplicates(es: seq<Employee>, f: EmployeeFields, newId: int)
    requires f.id.Some? && HasId(es, f.id.value)
    ensures var added := AddEmployee(es, f, newId).employees;
      && GetEmployee(added, f.id.value) == GetEmployee(es, f.id.value)
      && DeleteEmployee(added, f.id.value).employees == DeleteEmployee(es, f.id.value).employees
      && |DeleteEmployee(added, f.id.value).employees| <= |added| - 2
  {
    var id := f.id.value;
    var added := AddEmployee(es, f, newId).employees;
    assert added == es + [WithId(f, newId)];
    var k := FirstIndex(es, id);
    assert added[k] == es[k];
    assert forall j :: 0 <= j < k ==> added[j] == es[j];
    FirstWithId(added, id, k);
    RemoveIdConcat(es, [WithId(f, newId)], id);
    assert RemoveId([WithId(f, newId)], id) == [];
    assert RemoveId(es + [WithId(f, newId)], id) == RemoveId(es, id) + [];
    RemoveIdShorter(es, id);
  }

  /** Filtering out an id no record has keeps the sequence as it is. */
  lemma {:induction false} RemoveIdOfAbsent(es: seq<Employee>, id: int)
    requires !HasId(es, id)
    ensures RemoveId(es, id) == es
  {
    if |es| > 0 {
      assert !HasId(es[1..], id) by {
        forall k | 0 <= k < |es| - 1 ensures es[1..][k].id != id {
          assert es[1..][k] == es[k + 1];
        }
      }
      RemoveIdOfAbsent(es[1..], id);
      assert es == [es[0]] + es[1..];
    }
  }

  /**
   * The module-level `employees` variable and the `db` object's methods.
   */
  class EmployeeDb {
    var employees: seq<Employee>

    constructor(seed: seq<Employee>)
      ensures employees == seed
    {
      employees := seed;
    }

    method Get(id: int) returns (r: Option<Employee>)
      ensures r == GetEmployee(employees, id)
    {
      r := GetEmployee(employees, id);
    }

    method Update(id: int, patch: EmployeePatch) returns (r: Option<Employee>)
      modifies this
      ensures employees == UpdateEmployee(old(employees), id, patch).employees
      ensures r == UpdateEmployee(old(employees), id, patch).result
    {
      var u := UpdateEmployee(employees, id, patch);
      employees := u.employees;
      r := u.result;
    }

    method Add(f: EmployeeFields, now: int) returns (r: Employee)
      modifies this
      ensures employees == old(employees) + [r] && r == WithId(f, now)
    {
      r := WithId(f, now);
      employees := employees + [r];
    }

    method Delete(id: int) returns (removed: bool)
      modifies this
      ensures employees == DeleteEmployee(old(employees), id).employees
      ensures removed <==> HasId(old(employees), id)
    {
      var d := DeleteEmployee(employees, id);
      employees := d.employees;
      removed := d.removed;
    }
  }
}
