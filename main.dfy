/** The console façade of the patient manager (dsapro/main.py): each operation makes one
    change across the patient list, the doctor index and the appointment queue, and pushes
    one undo entry. Console input arrives as parameters; a failed `int(...)` conversion is
    `None`, and an input left blank is the empty string. */
module Manager {
  import opened Wrappers
  import opened PatientRecord
  import opened LinkedLists
  import opened PatientTrees
  import opened AppointmentQueues
  import opened UndoStacks

  // ---------------------------------------------------------------------------------------
  // The values the operations compute
  // ---------------------------------------------------------------------------------------

  /** The record `register_patient` builds: the next id, the four form fields and the clock
      reading that the post-init step stamps on it. */
  function NewRecord(records: seq<Patient>, name: string, age: int, disease: string,
                     doctor: string, now: string): Patient
  {
    FromSnapshot(Patient(MaxId(records) + 1, name, age, disease, doctor, ""), now)
  }

  /** `input(...).strip() or current`: a blank answer keeps the current value. */
  function Keep(answer: string, current: string): string {
    if answer == "" then current else answer
  }

  /** The age answer of `update_patient`: blank, a number, or text `int` rejects. */
  datatype AgeAnswer = Blank | Number(value: int) | NotANumber

  /** `int(age_in) if age_in else current`. */
  function KeepAge(answer: AgeAnswer, current: int): int {
    if answer.Number? then answer.value else current
  }

  /** The keyword arguments `update_patient` passes to `update_by_id` for record `p`. */
  function Edits(p: Patient, name: string, age: AgeAnswer, disease: string, doctor: string): Changes {
    SetFour(Keep(name, p.name), KeepAge(age, p.age), Keep(disease, p.disease), Keep(doctor, p.doctor))
  }

  // ---------------------------------------------------------------------------------------
  // The façade
  // ---------------------------------------------------------------------------------------

  /** `next_id`: one more than the largest stored id, so it differs from every stored id. */
  method NextId(lst: LinkedList) returns (id: int)
    requires lst.Valid()
    ensures id == MaxId(lst.Contents) + 1
    ensures id >= 1
    ensures forall j :: 0 <= j < |lst.Contents| ==> lst.Contents[j].patient_id < id
  {
    var m := lst.GetMaxId();
    id := m + 1;
  }

  /** `register_patient`: appends the new record to the list and to its doctor's bucket and
      pushes `("add", snapshot)`; an age that does not convert cancels it. Returns the id. */
  method RegisterPatient(lst: LinkedList, tree: PatientTree, undo: UndoStack, name: string,
                         age: Option<int>, disease: string, doctor: string, now: string)
    returns (pid: Option<int>)
    requires lst.Valid() && tree.Valid()
    modifies lst, lst.Spine, tree, undo
    ensures lst.Valid() && tree.Valid()
    ensures age.None? ==>
      pid.None? && lst.Contents == old(lst.Contents) && tree.Contents() == old(tree.Contents()) &&
      undo.stack == old(undo.stack)
    ensures age.Some? ==>
      var p := NewRecord(old(lst.Contents), name, age.value, disease, doctor, now);
      pid == Some(p.patient_id) &&
      lst.Contents == old(lst.Contents) + [p] &&
      tree.Contents() == Filed(old(tree.Contents()), doctor, p) &&
      undo.stack == old(undo.stack) + [Add(p)]
  {
    if age.None? {
      return None;
    }
    var id := NextId(lst);
    var p := FromSnapshot(Patient(id, name, age.value, disease, doctor, ""), now);
    assert p == NewRecord(old(lst.Contents), name, age.value, disease, doctor, now);
    ghost var buckets := tree.Contents();
    lst.InsertEnd(p);
    assert tree.Valid() && tree.Contents() == buckets;
    tree.Insert(doctor, p);
    assert lst.Valid() && lst.Contents == old(lst.Contents) + [p];
    undo.Push(Add(p));
    pid := Some(id);
  }

  /** `schedule_appointment`: a known id joins the tail of the queue and `("appointment_add",
      pid)` is pushed; an id that does not convert or is unknown changes nothing. */
  method ScheduleAppointment(appts: AppointmentQueue, lst: LinkedList, undo: UndoStack,
                             pid: Option<int>)
    returns (scheduled: bool)
    requires lst.Valid()
    modifies appts, undo
    ensures scheduled <==> pid.Some? && FindFirst(lst.Contents, pid.value).Some?
    ensures scheduled ==>
      appts.q == old(appts.q) + [pid.value] && undo.stack == old(undo.stack) + [AppointmentAdd(pid.value)]
    ensures !scheduled ==> appts.q == old(appts.q) && undo.stack == old(undo.stack)
  {
    if pid.None? {
      return false;
    }
    var patient := lst.FindById(pid.value);
    if patient.None? {
      return false;
    }
    appts.Enqueue(pid.value);
    undo.Push(AppointmentAdd(pid.value));
    scheduled := true;
  }

  /** `next_appointment`: takes the head of the queue, if any, and looks its record up; the
      list is not changed and nothing is pushed. */
  method NextAppointment(appts: AppointmentQueue, lst: LinkedList)
    returns (pid: Option<int>, patient: Option<Patient>)
    requires lst.Valid()
    modifies appts
    ensures old(appts.q) == [] ==> pid.None? && patient.None? && appts.q == []
    ensures old(appts.q) != [] ==>
      pid == Some(old(appts.q)[0]) && appts.q == old(appts.q)[1..] &&
      patient == FindFirst(lst.Contents, pid.value)
  {
    pid := appts.Dequeue();
    if pid.None? {
      return None, None;
    }
    patient := lst.FindById(pid.value);
  }

  /** `delete_patient`: pushes `("delete", snapshot)`, unlinks the first record with the id and
      filters the id out of that record's doctor bucket; an id that does not convert or is
      unknown changes nothing. Returns the deleted record. */
  method DeletePatient(lst: LinkedList, tree: PatientTree, undo: UndoStack, pid: Option<int>)
    returns (deleted: Option<Patient>)
    requires lst.Valid() && tree.Valid()
    modifies lst, lst.Spine, tree, undo
    ensures lst.Valid() && tree.Valid()
    ensures deleted == if pid.Some? then FindFirst(old(lst.Contents), pid.value) else None
    ensures deleted.None? ==>
      lst.Contents == old(lst.Contents) && tree.Contents() == old(tree.Contents()) &&
      undo.stack == old(undo.stack)
    ensures deleted.Some? ==>
      undo.stack == old(undo.stack) + [Delete(deleted.value)] &&
      lst.Contents == DeleteFirst(old(lst.Contents), pid.value) &&
      tree.Contents() == Unfiled(old(tree.Contents()), deleted.value.doctor, pid.value)
  {
    if pid.None? {
      return None;
    }
    var patient := lst.FindById(pid.value);
    if patient.None? {
      return None;
    }
    undo.Push(Delete(patient.value));
    var removed := lst.DeleteById(pid.value);
    var _ := tree.Remove(removed.value.doctor, pid.value);
    deleted := removed;
  }

  /** `update_patient`: sets the four answers (a blank one keeps the current value) on the
      first record with the id, rebuilds the index from the list and pushes the old snapshot;
      an id that does not convert or is unknown changes nothing. An age answer that is not a
      number raises out of the function before anything changes (`raised`). */
  method UpdatePatient(lst: LinkedList, tree: PatientTree, undo: UndoStack, pid: Option<int>,
                       name: string, age: AgeAnswer, disease: string, doctor: string)
    returns (updated: bool, raised: bool)
    requires lst.Valid() && tree.Valid()
    modifies lst, lst.Spine, tree, undo
    ensures lst.Valid() && tree.Valid()
    ensures updated <==>
      pid.Some? && FindFirst(old(lst.Contents), pid.value).Some? && !age.NotANumber?
    ensures raised <==>
      pid.Some? && FindFirst(old(lst.Contents), pid.value).Some? && age.NotANumber?
    ensures !updated ==>
      lst.Contents == old(lst.Contents) && tree.Contents() == old(tree.Contents()) &&
      undo.stack == old(undo.stack)
    ensures updated ==>
      var p := FindFirst(old(lst.Contents), pid.value).value;
      lst.Contents == UpdateFirst(old(lst.Contents), pid.value, Edits(p, name, age, disease, doctor)) &&
      tree.Contents() == Group(lst.Contents) &&
      undo.stack == old(undo.stack) + [Update(p)]
  {
    if pid.None? {
      return false, false;
    }
    var p := lst.FindById(pid.value);
    if p.None? {
      return false, false;
    }
    if age.NotANumber? {
      return false, true;
    }
    var before := p.value;
    var _ := lst.UpdateById(pid.value, Edits(before, name, age, disease, doctor));
    var all := lst.ToList();
    tree.RebuildFromList(all);
    undo.Push(Update(before));
    updated, raised := true, false;
  }

  /** `undo_action`: the undo stack's `undo` on the three structures. */
  method UndoAction(undo: UndoStack, lst: LinkedList, tree: PatientTree, appts: AppointmentQueue,
                    now: string)
    requires lst.Valid() && tree.Valid()
    modifies undo, lst, lst.Spine, tree, appts
    ensures lst.Valid() && tree.Valid()
    ensures old(undo.stack) == [] ==>
      undo.stack == [] && lst.Contents == old(lst.Contents) &&
      tree.Contents() == old(tree.Contents()) && appts.q == old(appts.q)
    ensures old(undo.stack) != [] ==>
      undo.stack == old(undo.stack)[..|old(undo.stack)| - 1] &&
      Store(lst.Contents, tree.Contents(), appts.q) ==
        Revert(Store(old(lst.Contents), old(tree.Contents()), old(appts.q)),
               old(undo.stack)[|old(undo.stack)| - 1], now)
  {
    undo.Undo(lst, tree, appts, now);
  }

  // ---------------------------------------------------------------------------------------
  // The consistency of list and index
  // ---------------------------------------------------------------------------------------

  /** Each doctor's bucket holds exactly the records with that doctor, in list order; a
      doctor without a node and a doctor with an emptied node both read as `[]`. */
  ghost predicate Consistent(records: seq<Patient>, buckets: map<string, seq<Patient>>) {
    forall d :: Lookup(buckets, d) == FilterDoctor(records, d)
  }

  /** Unique ids and a consistent index: the invariant the façade keeps. */
  ghost predicate Coherent(records: seq<Patient>, buckets: map<string, seq<Patient>>) {
    UniqueIds(records) && Consistent(records, buckets)
  }

  lemma {:induction false} FilterOutIdAppend(s: seq<Patient>, t: seq<Patient>, id: int)
    ensures FilterOutId(s + t, id) == FilterOutId(s, id) + FilterOutId(t, id)
  {
    if s == [] {
      assert s + t == t;
    } else {
      assert (s + t)[1..] == s[1..] + t;
      FilterOutIdAppend(s[1..], t, id);
    }
  }

  lemma {:induction false} FilterOutIdAbsent(s: seq<Patient>, id: int)
    requires forall p :: p in s ==> p.patient_id != id
    ensures FilterOutId(s, id) == s
  {
    if s != [] {
      assert forall p :: p in s[1..] ==> p in s;
      FilterOutIdAbsent(s[1..], id);
    }
  }

  /** The record list split around the first record with id `pid`. */
  lemma SplitAtFirst(r: seq<Patient>, pid: int)
    requires FindFirst(r, pid).Some?
    ensures var k := IndexOf(r, pid);
      k < |r| && r == r[..k] + [r[k]] + r[k + 1..] && DeleteFirst(r, pid) == r[..k] + r[k + 1..] &&
      FindFirst(r, pid) == Some(r[k]) && (forall p :: p in r[..k] ==> p.patient_id != pid)
  {
    var k := IndexOf(r, pid);
    assert r == r[..k] + [r[k]] + r[k + 1..];
  }

  /** `register_patient` keeps the index consistent: the new record ends the list and ends its
      doctor's bucket. */
  lemma ConsistentAfterRegister(r: seq<Patient>, b: map<string, seq<Patient>>, p: Patient)
    requires Consistent(r, b)
    ensures Consistent(r + [p], Filed(b, p.doctor, p))
  {
    forall d
      ensures Lookup(Filed(b, p.doctor, p), d) == FilterDoctor(r + [p], d)
    {
      FilterDoctorAppend(r, [p], d);
      assert FilterDoctor([p], d) == if p.doctor == d then [p] else [];
    }
  }

  /** The registered record's id exceeds every stored id, so ids stay unique. */
  lemma UniqueAfterRegister(r: seq<Patient>, name: string, age: int, disease: string,
                            doctor: string, now: string)
    requires UniqueIds(r)
    ensures var p := NewRecord(r, name, age, disease, doctor, now);
      FindFirst(r, p.patient_id).None? && UniqueIds(r + [p])
  {
    var p := NewRecord(r, name, age, disease, doctor, now);
    assert forall j :: 0 <= j < |r| ==> r[j].patient_id < p.patient_id;
    assert forall j :: 0 <= j < |r| ==> (r + [p])[j] == r[j];
  }

  /** One doctor's entries in `a + [p] + c`, split around `p`. */
  lemma FilterDoctorAround(a: seq<Patient>, p: Patient, c: seq<Patient>, d: string)
    ensures FilterDoctor(a + [p] + c, d) ==
      FilterDoctor(a, d) + (if p.doctor == d then [p] else []) + FilterDoctor(c, d)
    ensures FilterDoctor(a + c, d) == FilterDoctor(a, d) + FilterDoctor(c, d)
  {
    FilterDoctorAppend(a, c, d);
    FilterDoctorAppend(a + [p], c, d);
    FilterDoctorAppend(a, [p], d);
    assert FilterDoctor([p], d) == if p.doctor == d then [p] else [];
  }

  /** Filtering `pid` out of `x + [p] + y`, where only `p` has that id, leaves `x + y`. */
  lemma FilterOutOnly(x: seq<Patient>, p: Patient, y: seq<Patient>, pid: int)
    requires p.patient_id == pid
    requires forall q :: q in x ==> q.patient_id != pid
    requires forall q :: q in y ==> q.patient_id != pid
    ensures FilterOutId(x + [p] + y, pid) == x + y
  {
    var xp := x + [p];
    calc {
      FilterOutId(xp + y, pid);
      { FilterOutIdAppend(xp, y, pid); }
      FilterOutId(xp, pid) + FilterOutId(y, pid);
      { FilterOutIdAppend(x, [p], pid); }
      FilterOutId(x, pid) + FilterOutId([p], pid) + FilterOutId(y, pid);
      { FilterOutIdAbsent(x, pid); FilterOutIdAbsent(y, pid); assert FilterOutId([p], pid) == []; }
      x + [] + y;
    }
    assert x + [] + y == x + y;
  }

  /** One doctor's entries once the record `p` with id `pid` is cut out of `a + [p] + c`:
      unchanged for another doctor, and for `p`'s doctor the old bucket without `pid`. */
  lemma BucketAfterDelete(a: seq<Patient>, p: Patient, c: seq<Patient>, d: string, pid: int)
    requires p.patient_id == pid
    requires forall q :: q in a ==> q.patient_id != pid
    requires forall q :: q in c ==> q.patient_id != pid
    ensures d != p.doctor ==> FilterDoctor(a + [p] + c, d) == FilterDoctor(a + c, d)
    ensures d == p.doctor ==>
      p in FilterDoctor(a + [p] + c, d) &&
      FilterOutId(FilterDoctor(a + [p] + c, d), pid) == FilterDoctor(a + c, d)
  {
    FilterDoctorAround(a, p, c, d);
    if d == p.doctor {
      var fa, fc := FilterDoctor(a, d), FilterDoctor(c, d);
      assert (fa + [p] + fc)[|fa|] == p;
      FilterOutOnly(fa, p, fc, pid);
    }
  }

  /** With unique ids, no record after the first match carries its id. */
  lemma NoIdAfterFirst(r: seq<Patient>, pid: int)
    requires UniqueIds(r) && FindFirst(r, pid).Some?
    ensures forall q :: q in r[IndexOf(r, pid) + 1..] ==> q.patient_id != pid
  {
    var k := IndexOf(r, pid);
    forall q | q in r[k + 1..]
      ensures q.patient_id != pid
    {
      var j :| 0 <= j < |r[k + 1..]| && r[k + 1..][j] == q;
      assert r[k + 1 + j] == q;
    }
  }

  /** A bucket read after `remove(d, id)`. */
  lemma LookupUnfiled(b: map<string, seq<Patient>>, d: string, id: int, e: string)
    ensures Lookup(Unfiled(b, d, id), e) ==
      if e == d && d in b then FilterOutId(b[d], id) else Lookup(b, e)
  {
  }

  /** With unique ids, `delete_patient` keeps the index consistent: the record leaves the
      list and exactly its entry leaves its doctor's bucket. */
  lemma ConsistentAfterDelete(r: seq<Patient>, b: map<string, seq<Patient>>, pid: int)
    requires Coherent(r, b) && FindFirst(r, pid).Some?
    ensures Consistent(DeleteFirst(r, pid), Unfiled(b, FindFirst(r, pid).value.doctor, pid))
  {
    SplitAtFirst(r, pid);
    NoIdAfterFirst(r, pid);
    var k := IndexOf(r, pid);
    var a, p, c := r[..k], r[k], r[k + 1..];
    forall d
      ensures Lookup(Unfiled(b, p.doctor, pid), d) == FilterDoctor(a + c, d)
    {
      BucketAfterDelete(a, p, c, d, pid);
      LookupUnfiled(b, p.doctor, pid, d);
      assert Lookup(b, d) == FilterDoctor(a + [p] + c, d);
    }
  }

  /** Deleting a record keeps the other ids unique. */
  lemma UniqueAfterDelete(r: seq<Patient>, pid: int)
    requires UniqueIds(r)
    ensures UniqueIds(DeleteFirst(r, pid))
  {
    if FindFirst(r, pid).Some? {
      SplitAtFirst(r, pid);
      var k := IndexOf(r, pid);
      RemoveAtIndex(r, k);
    }
  }

  /** `update_patient` never changes an id or a registration time. */
  lemma UpdateKeepsIdentity(r: seq<Patient>, pid: int, p: Patient, name: string, age: AgeAnswer,
                            disease: string, doctor: string)
    ensures var r' := UpdateFirst(r, pid, Edits(p, name, age, disease, doctor));
      |r'| == |r| &&
      forall j :: 0 <= j < |r| ==>
        r'[j].patient_id == r[j].patient_id && r'[j].registered_at == r[j].registered_at
  {
    var r' := UpdateFirst(r, pid, Edits(p, name, age, disease, doctor));
    var k := IndexOf(r, pid);
    if k < |r| {
      assert r'[k] == Apply(r[k], Edits(p, name, age, disease, doctor));
    }
  }

  /** With every answer blank, `update_patient` leaves the record as it was. */
  lemma UpdateAllBlank(r: seq<Patient>, pid: int)
    requires FindFirst(r, pid).Some?
    ensures UpdateFirst(r, pid, Edits(FindFirst(r, pid).value, "", Blank, "", "")) == r
  {
    SplitAtFirst(r, pid);
  }

  /** `update_patient` keeps the invariant: ids are untouched and the index is rebuilt. */
  lemma CoherentAfterUpdate(r: seq<Patient>, pid: int, p: Patient, name: string, age: AgeAnswer,
                            disease: string, doctor: string)
    requires UniqueIds(r)
    ensures var r' := UpdateFirst(r, pid, Edits(p, name, age, disease, doctor));
      Coherent(r', Group(r'))
  {
    var r' := UpdateFirst(r, pid, Edits(p, name, age, disease, doctor));
    UpdateKeepsIdentity(r, pid, p, name, age, disease, doctor);
    forall d
      ensures Lookup(Group(r'), d) == FilterDoctor(r', d)
    {
      GroupIsFilter(r', d);
    }
  }

  /** The invariant holds on the empty state and after each façade operation. */
  lemma CoherentSteps(r: seq<Patient>, b: map<string, seq<Patient>>, name: string, age: int,
                      disease: string, doctor: string, now: string, pid: int)
    requires Coherent(r, b)
    ensures Coherent([], map[])
    ensures var p := NewRecord(r, name, age, disease, doctor, now);
      Coherent(r + [p], Filed(b, doctor, p))
    ensures FindFirst(r, pid).Some? ==>
      Coherent(DeleteFirst(r, pid), Unfiled(b, FindFirst(r, pid).value.doctor, pid))
  {
    var p := NewRecord(r, name, age, disease, doctor, now);
    ConsistentAfterRegister(r, b, p);
    UniqueAfterRegister(r, name, age, disease, doctor, now);
    if FindFirst(r, pid).Some? {
      ConsistentAfterDelete(r, b, pid);
      UniqueAfterDelete(r, pid);
    }
  }

  // ---------------------------------------------------------------------------------------
  // Undo against the operation it undoes
  // ---------------------------------------------------------------------------------------

  /** Undo keeps the invariant for each tag, provided an `add` entry's doctor is still the
      record's doctor, and a `delete` snapshot carries its registration time and its id is not
      in use again. */
  lemma CoherentAfterRevert(s: Store, a: Action, now: string)
    requires Coherent(s.records, s.buckets)
    requires a.Add? && FindFirst(s.records, a.added.patient_id).Some? ==>
      FindFirst(s.records, a.added.patient_id).value.doctor == a.added.doctor
    requires a.Delete? ==>
      Stamped(a.deleted) && FindFirst(s.records, a.deleted.patient_id).None?
    ensures var s' := Revert(s, a, now); Coherent(s'.records, s'.buckets)
  {
    match a
    case Add(d) =>
      if FindFirst(s.records, d.patient_id).Some? {
        ConsistentAfterDelete(s.records, s.buckets, d.patient_id);
        UniqueAfterDelete(s.records, d.patient_id);
      }
    case Delete(d) =>
      ConsistentAfterRegister(s.records, s.buckets, d);
      assert forall j :: 0 <= j < |s.records| ==> (s.records + [d])[j] == s.records[j];
    case Update(d) =>
      CoherentAfterUpdate(s.records, d.patient_id, d, d.name, Number(d.age), d.disease, d.doctor);
      assert Edits(d, d.name, Number(d.age), d.disease, d.doctor) == SetFour(d.name, d.age, d.disease, d.doctor) by {
        assert Keep(d.name, d.name) == d.name && Keep(d.disease, d.disease) == d.disease;
        assert Keep(d.doctor, d.doctor) == d.doctor;
      }
    case AppointmentAdd(_) =>
    case Unknown(_) =>
  }

  /** Unlinking the id of a record appended last, when no earlier record has it, gives back
      the earlier records. */
  lemma DeleteAppended(r: seq<Patient>, p: Patient)
    requires FindFirst(r, p.patient_id).None?
    ensures FindFirst(r + [p], p.patient_id) == Some(p)
    ensures DeleteFirst(r + [p], p.patient_id) == r
  {
    assert forall j :: 0 <= j < |r| ==> (r + [p])[j] == r[j];
    IndexOfIs(r + [p], p.patient_id, |r|);
    assert (r + [p])[..|r|] == r;
  }

  /** Filing `p` under `d` and then filtering its id out of `d`'s bucket gives back every
      bucket, when no entry of `d`'s bucket had that id. */
  lemma UnfileFiled(b: map<string, seq<Patient>>, d: string, p: Patient)
    requires forall q :: q in Lookup(b, d) ==> q.patient_id != p.patient_id
    ensures forall e :: Lookup(Unfiled(Filed(b, d, p), d, p.patient_id), e) == Lookup(b, e)
  {
    FilterOutIdAppend(Lookup(b, d), [p], p.patient_id);
    FilterOutIdAbsent(Lookup(b, d), p.patient_id);
    assert FilterOutId([p], p.patient_id) == [];
  }

  /** `register_patient` then `undo_action` gives back the list and every bucket. The doctor's
      node stays in the index, with its old bucket. */
  lemma RegisterThenUndo(s: Store, name: string, age: int, disease: string, doctor: string,
                         now: string, later: string)
    requires Consistent(s.records, s.buckets)
    ensures var p := NewRecord(s.records, name, age, disease, doctor, now);
      var s' := Revert(Store(s.records + [p], Filed(s.buckets, doctor, p), s.queue), Add(p), later);
      s'.records == s.records && s'.queue == s.queue &&
      forall d :: Lookup(s'.buckets, d) == Lookup(s.buckets, d)
  {
    var r, b := s.records, s.buckets;
    var p := NewRecord(r, name, age, disease, doctor, now);
    assert forall j :: 0 <= j < |r| ==> r[j].patient_id < p.patient_id;
    DeleteAppended(r, p);
    assert Lookup(b, doctor) == FilterDoctor(r, doctor);
    UnfileFiled(b, doctor, p);
  }

  /** `schedule_appointment` then `undo_action` gives back the queue; nothing else moves. */
  lemma ScheduleThenUndo(s: Store, pid: int, now: string)
    ensures Revert(Store(s.records, s.buckets, s.queue + [pid]), AppointmentAdd(pid), now) == s
  {
    DropLastAppended(s.queue, pid);
  }

  /** Writing a record's own four fields back over an update that left its id and
      registration time alone gives back the records. */
  lemma UpdateTwice(r: seq<Patient>, pid: int, ch: Changes)
    requires FindFirst(r, pid).Some? && ch.patient_id.None? && ch.registered_at.None?
    ensures var p := FindFirst(r, pid).value;
      UpdateFirst(UpdateFirst(r, pid, ch), pid, SetFour(p.name, p.age, p.disease, p.doctor)) == r
  {
    var k := IndexOf(r, pid);
    var p := r[k];
    var r' := UpdateFirst(r, pid, ch);
    assert r' == r[k := Apply(p, ch)];
    IndexOfIs(r', pid, k);
    assert Apply(Apply(p, ch), SetFour(p.name, p.age, p.disease, p.doctor)) == p;
    assert r'[k := p] == r;
  }

  /** `update_patient` then `undo_action` gives back the list; the rebuilt index then matches
      the list again. */
  lemma UpdateThenUndo(s: Store, pid: int, name: string, age: AgeAnswer, disease: string,
                       doctor: string, now: string)
    requires FindFirst(s.records, pid).Some?
    ensures var p := FindFirst(s.records, pid).value;
      var r' := UpdateFirst(s.records, pid, Edits(p, name, age, disease, doctor));
      var s' := Revert(Store(r', Group(r'), s.queue), Update(p), now);
      s'.records == s.records && s'.buckets == Group(s.records) && s'.queue == s.queue
  {
    var p := FindFirst(s.records, pid).value;
    UpdateTwice(s.records, pid, Edits(p, name, age, disease, doctor));
  }

  /** Two records of one doctor, rebuilt into the index, share one bucket in list order. */
  lemma GroupOfTwo(a: Patient, b: Patient)
    requires a.doctor == b.doctor
    ensures a.doctor in Group([a, b]) && Group([a, b])[a.doctor] == [a, b]
  {
    GroupIsFilter([a, b], a.doctor);
    assert a in [a, b];
    assert [a, b][1..][1..] == [];
  }

  /** Unlinking the first of two records with different ids. */
  lemma DropFirstOfTwo(a: Patient, b: Patient)
    requires a.patient_id != b.patient_id
    ensures DeleteFirst([a, b], a.patient_id) == [b]
    ensures FilterOutId([a, b], a.patient_id) == [b]
  {
    IndexOfIs([a, b], a.patient_id, 0);
    assert [a, b][1..] == [b];
    assert [b][1..] == [];
  }

  /** Undoing a delete appends the record at the end of the list and of its bucket: with
      two records of one doctor, deleting the first and undoing leaves both in the opposite
      order, in the list and in the doctor's bucket. */
  lemma DeleteThenUndoReorders(a: Patient, b: Patient, now: string)
    requires a.patient_id != b.patient_id && a.doctor == b.doctor && Stamped(a) && a != b
    ensures var r := DeleteFirst([a, b], a.patient_id);
      var s' := Revert(Store(r, Unfiled(Group([a, b]), a.doctor, a.patient_id), []), Delete(a), now);
      s'.records == [b, a] && Lookup(s'.buckets, a.doctor) == [b, a] && s'.records != [a, b]
  {
    GroupOfTwo(a, b);
    DropFirstOfTwo(a, b);
  }

  /** `next_id` hands out the id of a deleted highest record again: with records 1 and 2,
      deleting 2 makes the next registration get 2. */
  lemma DeletedHighestIdReused(a: Patient, b: Patient, name: string, age: int, disease: string,
                               doctor: string, now: string)
    requires a.patient_id == 1 && b.patient_id == 2
    ensures var r := DeleteFirst([a, b], b.patient_id);
      r == [a] && NewRecord(r, name, age, disease, doctor, now).patient_id == b.patient_id
  {
    IndexOfIs([a, b], b.patient_id, 1);
    assert [a, b][..1] == [a];
    assert [a][..0] == [];
  }
}
