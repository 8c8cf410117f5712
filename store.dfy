/** The patient list of the persistence service and its route handlers:
    update, create and delete. `backend/app.py` and the older `app.py`
    differ only in how a new id is found when the list is empty (and in
    persisting to a file, which is not modelled). */
module PatientStore {
  import opened Seqs
  import opened Records

  /** The ids on the list. */
  function Ids(ps: seq<Patient>): (ids: seq<int>)
    ensures |ids| == |ps| && forall i :: 0 <= i < |ps| ==> ids[i] == ps[i].id
  {
    seq(|ps|, i requires 0 <= i < |ps| => ps[i].id)
  }

  /** The position of the first occurrence of `x`, or -1. */
  function IndexOf(xs: seq<int>, x: int): (k: int)
    ensures -1 <= k < |xs|
    ensures k == -1 <==> x !in xs
    ensures k >= 0 ==> xs[k] == x && x !in xs[..k]
  {
    if xs == [] then -1
    else if xs[0] == x then 0
    else
      var k := IndexOf(xs[1..], x);
      if k == -1 then -1
      else
        assert xs[..k + 1] == [xs[0]] + xs[1..][..k];
        k + 1
  }

  /** The position of the first patient with the id, or -1. */
  function FirstIndexOfId(ps: seq<Patient>, id: int): (k: int)
    ensures -1 <= k < |ps|
    ensures k == -1 <==> id !in Ids(ps)
    ensures k >= 0 ==> ps[k].id == id && forall j :: 0 <= j < k ==> ps[j].id != id
  {
    var ids := Ids(ps);
    var k := IndexOf(ids, id);
    assert k >= 0 ==> forall j :: 0 <= j < k ==> ids[..k][j] == ps[j].id;
    k
  }

  /** The list after an update: the first patient with the id replaced by
      the request body, every other entry kept; `None` when no patient has
      the id. */
  function ReplaceFirstId(ps: seq<Patient>, id: int, updated: Patient): (r: Option<seq<Patient>>)
    ensures r.None? <==> id !in Ids(ps)
    ensures r.Some? ==>
              && |r.value| == |ps|
              && r.value[FirstIndexOfId(ps, id)] == updated
              && forall j :: 0 <= j < |ps| && j != FirstIndexOfId(ps, id) ==> r.value[j] == ps[j]
  {
    var k := FirstIndexOfId(ps, id);
    if k == -1 then None else Some(ps[k := updated])
  }

  /** `list.remove(x)`: the first element equal to `x` removed. */
  function RemoveValue<T(==)>(s: seq<T>, x: T): (r: seq<T>)
    requires x in s
    ensures |r| == |s| - 1
  {
    if s[0] == x then s[1..] else [s[0]] + RemoveValue(s[1..], x)
  }

  /** Removing by value an element that no earlier element equals removes
      exactly its position. */
  lemma {:induction false} RemoveValueAt<T>(s: seq<T>, k: nat)
    requires k < |s| && forall j :: 0 <= j < k ==> s[j] != s[k]
    ensures RemoveValue(s, s[k]) == s[..k] + s[k + 1..]
  {
    if k > 0 {
      var tail := s[1..];
      assert tail[k - 1] == s[k];
      RemoveValueAt(tail, k - 1);
      assert tail[..k - 1] + tail[k..] == s[1..k] + s[k + 1..];
      assert s[..k] == [s[0]] + s[1..k];
    }
  }

  /** Removing the first patient with an id by value removes exactly that
      position: no earlier entry can equal it, since their ids differ. */
  lemma RemoveFirstMatch(ps: seq<Patient>, id: int)
    requires id in Ids(ps)
    ensures var k := FirstIndexOfId(ps, id);
            RemoveValue(ps, ps[k]) == ps[..k] + ps[k + 1..]
  {
    RemoveValueAt(ps, FirstIndexOfId(ps, id));
  }

  /** The list after a deletion: the first patient with the id gone, the
      others in their order; `None` when no patient has the id. */
  function DeleteFirstId(ps: seq<Patient>, id: int): (r: Option<seq<Patient>>)
    ensures r.None? <==> id !in Ids(ps)
    ensures r.Some? ==>
              var k := FirstIndexOfId(ps, id);
              && r.value == ps[..k] + ps[k + 1..]
              && |r.value| == |ps| - 1
  {
    var k := FirstIndexOfId(ps, id);
    if k == -1 then None
    else
      RemoveFirstMatch(ps, id);
      Some(RemoveValue(ps, ps[k]))
  }

  /** A deletion removes one patient with the id and keeps every other
      patient: ids that differ keep all their entries. */
  lemma DeleteKeepsOthers(ps: seq<Patient>, id: int, p: Patient)
    requires DeleteFirstId(ps, id).Some? && p in ps && p.id != id
    ensures p in DeleteFirstId(ps, id).value
  {
    var k := FirstIndexOfId(ps, id);
    var j :| 0 <= j < |ps| && ps[j] == p;
    if j < k {
      assert ps[..k][j] == p;
    } else {
      assert j > k;
      assert ps[k + 1..][j - k - 1] == p;
    }
  }

  /** `max` of a non-empty sequence of ids. */
  function Max(xs: seq<int>): (m: int)
    requires xs != []
    ensures m in xs && forall x :: x in xs ==> x <= m
  {
    if |xs| == 1 then xs[0]
    else
      var rest := Max(xs[1..]);
      assert xs == [xs[0]] + xs[1..];
      if xs[0] >= rest then xs[0] else rest
  }

  /** The largest id on a non-empty list. */
  function MaxId(ps: seq<Patient>): (m: int)
    requires ps != []
    ensures m in Ids(ps) && forall p :: p in ps ==> p.id <= m
  {
    var ids := Ids(ps);
    assert forall p :: p in ps ==> p.id in ids;
    Max(ids)
  }

  /** The id of a new patient: one more than the largest, or 1 on an empty
      list. It is larger than, and so differs from, every id on the list. */
  function NextId(ps: seq<Patient>): (id: int)
    ensures forall p :: p in ps ==> p.id < id
    ensures id !in Ids(ps)
    ensures ps == [] ==> id == 1
    ensures ps != [] ==> id - 1 in Ids(ps)
  {
    if ps == [] then 1 else MaxId(ps) + 1
  }

  /** The create request: the `name` and `age` fields of the body, `None`
      when absent or null. */
  datatype NewPatientRequest = NewPatientRequest(name: Option<string>, age: Option<int>)

  /** A missing or empty name (falsy) or a missing age is refused. */
  predicate Acceptable(req: NewPatientRequest)
  {
    req.name.Some? && req.name.value != "" && req.age.Some?
  }

  /** The record a create request becomes. */
  function NewPatient(id: int, req: NewPatientRequest): (p: Patient)
    requires Acceptable(req)
    ensures p.id == id && p.name == req.name.value && p.age == req.age.value
    ensures p.notes == [] && p.problems == [] && p.labs == [] && p.medications == []
  {
    Patient(id, req.name.value, req.age.value, [], [], [], [])
  }

  /** What a create request does: the new patient and the new list, or the
      refusal status. */
  datatype AddOutcome = Created(patient: Patient, list: seq<Patient>) | Refused(status: int)

  /** `add_patient` of `backend/app.py`: 400 for an unacceptable request;
      otherwise the new patient, with a fresh id and empty collections, is
      appended at the end. */
  function AddOutcomeOf(ps: seq<Patient>, req: NewPatientRequest): (r: AddOutcome)
    ensures r.Refused? <==> !Acceptable(req)
    ensures r.Refused? ==> r.status == 400
    ensures r.Created? ==>
              && r.list == ps + [r.patient]
              && r.patient.id !in Ids(ps)
              && r.patient == NewPatient(NextId(ps), req)
  {
    if !Acceptable(req) then Refused(400)
    else var p := NewPatient(NextId(ps), req); Created(p, ps + [p])
  }

  /** `add_patient` of the root `app.py`: the same, except that on an empty
      list `max` of no ids raises and the service answers 500, leaving the
      list unchanged. Validation comes first, so a bad request is still 400. */
  function AddOutcomeUnguarded(ps: seq<Patient>, req: NewPatientRequest): (r: AddOutcome)
    ensures !Acceptable(req) ==> r == Refused(400)
    ensures Acceptable(req) && ps == [] ==> r == Refused(500)
    ensures ps != [] ==> r == AddOutcomeOf(ps, req)
  {
    if !Acceptable(req) then Refused(400)
    else if ps == [] then Refused(500)
    else var p := NewPatient(MaxId(ps) + 1, req); Created(p, ps + [p])
  }

  /** The two versions differ only on an empty list with an acceptable
      request, where the newer one creates patient 1. */
  lemma AddVersionsDiffer(ps: seq<Patient>, req: NewPatientRequest)
    ensures AddOutcomeUnguarded(ps, req) != AddOutcomeOf(ps, req) <==> ps == [] && Acceptable(req)
    ensures ps == [] && Acceptable(req) ==> AddOutcomeOf(ps, req).patient.id == 1
  {
  }

  /** The service's list of patients. */
  class Store {
    var patients: seq<Patient>

    constructor (initial: seq<Patient>)
      ensures patients == initial
    {
      patients := initial;
    }

    /** `update_patient`: 200 and the first patient with the id replaced by
        the body, or 404 and no change. */
    method UpdatePatient(patientId: int, updatedData: Patient) returns (status: int)
      modifies this
      ensures ReplaceFirstId(old(patients), patientId, updatedData).None? ==> status == 404 && patients == old(patients)
      ensures ReplaceFirstId(old(patients), patientId, updatedData).Some? ==>
                status == 200 && patients == ReplaceFirstId(old(patients), patientId, updatedData).value
    {
      var i := 0;
      while i < |patients|
        invariant 0 <= i <= |patients|
        invariant patients == old(patients)
        invariant forall j :: 0 <= j < i ==> patients[j].id != patientId
      {
        if patients[i].id == patientId {
          patients := patients[i := updatedData];
          return 200;
        }
        i := i + 1;
      }
      return 404;
    }

    /** `add_patient` of `backend/app.py`: 400, or 201 with the created record. */
    method AddPatient(req: NewPatientRequest) returns (status: int, created: Option<Patient>)
      modifies this
      ensures AddOutcomeOf(old(patients), req).Refused? ==>
                status == 400 && created.None? && patients == old(patients)
      ensures AddOutcomeOf(old(patients), req).Created? ==>
                && status == 201
                && created == Some(AddOutcomeOf(old(patients), req).patient)
                && patients == AddOutcomeOf(old(patients), req).list
    {
      if req.name.None? || req.name.value == "" || req.age.None? {
        return 400, None;
      }
      var newId;
      if patients != [] {
        newId := MaxId(patients) + 1;
      } else {
        newId := 1;
      }
      var newPatient := Patient(newId, req.name.value, req.age.value, [], [], [], []);
      patients := patients + [newPatient];
      return 201, Some(newPatient);
    }

    /** `add_patient` of the root `app.py`: 400, 500 on an empty list, or
        201 with the created record. */
    method AddPatientUnguarded(req: NewPatientRequest) returns (status: int, created: Option<Patient>)
      modifies this
      ensures AddOutcomeUnguarded(old(patients), req).Refused? ==>
                && status == AddOutcomeUnguarded(old(patients), req).status
                && created.None? && patients == old(patients)
      ensures AddOutcomeUnguarded(old(patients), req).Created? ==>
                && status == 201
                && created == Some(AddOutcomeUnguarded(old(patients), req).patient)
                && patients == AddOutcomeUnguarded(old(patients), req).list
    {
      if req.name.None? || req.name.value == "" || req.age.None? {
        return 400, None;
      }
      if patients == [] {
        return 500, None;
      }
      var newId := MaxId(patients) + 1;
      var newPatient := Patient(newId, req.name.value, req.age.value, [], [], [], []);
      patients := patients + [newPatient];
      return 201, Some(newPatient);
    }

    /** `delete_patient`: find the first patient with the id (stopping at
        it), then remove it by value; 200, or 404 and no change. */
    method DeletePatient(patientId: int) returns (status: int)
      modifies this
      ensures DeleteFirstId(old(patients), patientId).None? ==> status == 404 && patients == old(patients)
      ensures DeleteFirstId(old(patients), patientId).Some? ==>
                status == 200 && patients == DeleteFirstId(old(patients), patientId).value
    {
      var patientToDelete: Option<Patient> := None;
      var i := 0;
      while i < |patients|
        invariant 0 <= i <= |patients|
        invariant patients == old(patients)
        invariant patientToDelete.None?
        invariant forall j :: 0 <= j < i ==> patients[j].id != patientId
      {
        if patients[i].id == patientId {
          patientToDelete := Some(patients[i]);
          break;
        }
        i := i + 1;
      }
      if patientToDelete.Some? {
        assert patientToDelete.value == patients[FirstIndexOfId(patients, patientId)];
        RemoveFirstMatch(patients, patientId);
        patients := RemoveValue(patients, patientToDelete.value);
        return 200;
      } else {
        return 404;
      }
    }
  }
}
