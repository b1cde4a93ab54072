/** The undo stack (dsapro/data_structures/stack.py): a LIFO of tagged actions whose `undo`
    replays the inverse of the top action on the patient list, the doctor index and the
    appointment queue. */
module UndoStacks {
  import opened Wrappers
  import opened PatientRecord
  import opened LinkedLists
  import opened PatientTrees
  import opened AppointmentQueues

  /** An entry of the stack, by tag: `("add", d)`, `("delete", d)`, `("update", old)` and
      `("appointment_add", pid)`; `Unknown` stands for a tuple with any other tag. */
  datatype Action =
    | Add(added: Patient)
    | Delete(deleted: Patient)
    | Update(before: Patient)
    | AppointmentAdd(pid: int)
    | Unknown(tag: string)

  /** What `undo` acts on: the records of the list, the buckets of the index and the queue. */
  datatype Store = Store(records: seq<Patient>, buckets: map<string, seq<Patient>>, queue: seq<int>)

  /** The index after `insert(d, p)`. */
  function Filed(m: map<string, seq<Patient>>, d: string, p: Patient): map<string, seq<Patient>> {
    m[d := Lookup(m, d) + [p]]
  }

  /** The index after `remove(d, id)`: unchanged when `d` has no node. */
  function Unfiled(m: map<string, seq<Patient>>, d: string, id: int): map<string, seq<Patient>> {
    if d in m then m[d := FilterOutId(m[d], id)] else m
  }

  /** The position of the last `x` in `s`, or -1 when there is none. */
  function LastIndex(s: seq<int>, x: int): (i: int)
    ensures -1 <= i < |s|
    ensures i >= 0 ==> s[i] == x
    ensures forall j :: i < j < |s| ==> s[j] != x
  {
    if s == [] then -1
    else if s[|s| - 1] == x then |s| - 1
    else LastIndex(s[..|s| - 1], x)
  }

  /** The queue without the last occurrence of `x`; unchanged when `x` does not occur. */
  function DropLast(s: seq<int>, x: int): seq<int> {
    var i := LastIndex(s, x);
    if i >= 0 then s[..i] + s[i + 1..] else s
  }

  /** Where the last `x` sits: the queue is the part before it, `x`, and the part after it,
      and dropping it joins the two parts. */
  lemma DropLastSplit(s: seq<int>, x: int)
    requires x in s
    ensures var i := LastIndex(s, x);
      0 <= i && s == s[..i] + [x] + s[i + 1..] && DropLast(s, x) == s[..i] + s[i + 1..]
  {
    var i := LastIndex(s, x);
    var k :| 0 <= k < |s| && s[k] == x;
    assert i >= 0;
    assert s == s[..i] + [s[i]] + s[i + 1..];
  }

  /** Dropping the last `x` removes exactly one entry, that `x`; without an `x` nothing
      changes. */
  lemma DropLastSpec(s: seq<int>, x: int)
    ensures x !in s ==> DropLast(s, x) == s
    ensures x in s ==> |DropLast(s, x)| == |s| - 1
    ensures x in s ==> multiset(DropLast(s, x)) + multiset{x} == multiset(s)
  {
    if x in s {
      DropLastSplit(s, x);
      var i := LastIndex(s, x);
      var a, b := s[..i], s[i + 1..];
      calc {
        multiset(s);
        multiset(a + [x] + b);
        multiset(a) + multiset{x} + multiset(b);
        multiset(a + b) + multiset{x};
      }
    } else {
      assert LastIndex(s, x) == -1;
    }
  }

  /** Every entry other than the last `x` keeps its place relative to the others: those
      before it stay where they are, those after it move up by one. */
  lemma DropLastKeepsOrder(s: seq<int>, x: int)
    ensures forall j :: 0 <= j < |s| && j < LastIndex(s, x) ==> DropLast(s, x)[j] == s[j]
    ensures forall j :: 0 <= LastIndex(s, x) <= j < |s| - 1 ==> DropLast(s, x)[j] == s[j + 1]
  {
    var i := LastIndex(s, x);
    if i >= 0 {
      var a, b := s[..i], s[i + 1..];
      assert DropLast(s, x) == a + b;
      forall j | 0 <= j < i
        ensures (a + b)[j] == s[j]
      {
        assert (a + b)[j] == a[j];
      }
      forall j | i <= j < |s| - 1
        ensures (a + b)[j] == s[j + 1]
      {
        assert (a + b)[j] == b[j - i];
      }
    }
  }

  /** What scheduling an appointment appends, undo takes away again. */
  lemma DropLastAppended(q: seq<int>, x: int)
    ensures DropLast(q + [x], x) == q
  {
    assert LastIndex(q + [x], x) == |q|;
    assert (q + [x])[..|q|] == q;
  }

  /** The effect of undoing `a` on the three structures, with `now` the clock reading that
      `Patient(**d)` stamps on a snapshot without a registration time. */
  function Revert(s: Store, a: Action, now: string): Store {
    match a
    case Add(d) =>
      if FindFirst(s.records, d.patient_id).Some? then
        Store(DeleteFirst(s.records, d.patient_id), Unfiled(s.buckets, d.doctor, d.patient_id), s.queue)
      else s
    case Delete(d) =>
      Store(s.records + [FromSnapshot(d, now)], Filed(s.buckets, d.doctor, d), s.queue)
    case Update(d) =>
      var rs := UpdateFirst(s.records, d.patient_id, SetFour(d.name, d.age, d.disease, d.doctor));
      Store(rs, Group(rs), s.queue)
    case AppointmentAdd(pid) =>
      Store(s.records, s.buckets, DropLast(s.queue, pid))
    case Unknown(_) =>
      s
  }

  /** The search from the end in the `appointment_add` branch: pops the last occurrence of
      `pid` from a copy of the queue. */
  method RemoveLast(lst: seq<int>, pid: int) returns (r: seq<int>)
    ensures r == DropLast(lst, pid)
  {
    r := lst;
    var i := |lst| - 1;
    while i >= 0
      invariant -1 <= i < |lst|
      invariant forall j :: i < j < |lst| ==> lst[j] != pid
      decreases i + 1
    {
      if lst[i] == pid {
        r := lst[..i] + lst[i + 1..];
        return;
      }
      i := i - 1;
    }
  }

  class UndoStack {
    var stack: seq<Action>

    constructor ()
      ensures stack == []
    {
      stack := [];
    }

    method Push(item: Action)
      modifies this
      ensures stack == old(stack) + [item]
    {
      stack := stack + [item];
    }

    /** The top entry, removed; None, and nothing changes, when the stack is empty. */
    method Pop() returns (r: Option<Action>)
      modifies this
      ensures old(stack) == [] ==> r == None && stack == []
      ensures old(stack) != [] ==>
        r == Some(old(stack)[|old(stack)| - 1]) && stack == old(stack)[..|old(stack)| - 1]
      ensures old(stack) == stack + (if r.Some? then [r.value] else [])
    {
      if stack == [] {
        return None;
      }
      r := Some(stack[|stack| - 1]);
      stack := stack[..|stack| - 1];
    }

    /** Pops the top entry and replays its inverse on the list, the index and the queue;
        nothing changes when the stack is empty. `now` is the clock reading for the
        `delete` branch. */
    method Undo(lst: LinkedList, tree: PatientTree, appts: AppointmentQueue, now: string)
      requires lst.Valid() && tree.Valid()
      modifies this, lst, lst.Spine, tree, appts
      ensures lst.Valid() && tree.Valid()
      ensures old(stack) == [] ==>
        stack == [] && lst.Contents == old(lst.Contents) &&
        tree.Contents() == old(tree.Contents()) && appts.q == old(appts.q)
      ensures old(stack) != [] ==>
        stack == old(stack)[..|old(stack)| - 1] &&
        Store(lst.Contents, tree.Contents(), appts.q) ==
          Revert(Store(old(lst.Contents), old(tree.Contents()), old(appts.q)),
                 old(stack)[|old(stack)| - 1], now)
    {
      if stack == [] {
        return;
      }
      var top := Pop();
      var action := top.value;
      match action
      case Add(d) => UndoAdd(lst, tree, d, appts.q);
      case Delete(d) => UndoDelete(lst, tree, d, now, appts.q);
      case Update(d) => UndoUpdate(lst, tree, d, appts.q);
      case AppointmentAdd(pid) => UndoAppointment(appts, pid, lst.Contents, tree.Contents());
      case Unknown(_) =>
    }
  }

  /** The `add` branch: unlink the patient and, when one was unlinked, take the snapshot out
      of its doctor's bucket. */
  method UndoAdd(lst: LinkedList, tree: PatientTree, d: Patient, ghost queue: seq<int>)
    requires lst.Valid() && tree.Valid()
    modifies lst, lst.Spine, tree
    ensures lst.Valid() && tree.Valid()
    ensures Store(lst.Contents, tree.Contents(), queue) ==
      Revert(Store(old(lst.Contents), old(tree.Contents()), queue), Add(d), "")
  {
    var pid := d.patient_id;
    var removed := lst.DeleteById(pid);
    if removed.Some? {
      var _ := tree.Remove(d.doctor, pid);
    }
  }

  /** The `delete` branch: rebuild the record from the snapshot, append it to the list and
      file the snapshot under its doctor. */
  method UndoDelete(lst: LinkedList, tree: PatientTree, d: Patient, now: string, ghost queue: seq<int>)
    requires lst.Valid() && tree.Valid()
    modifies lst, lst.Spine, tree
    ensures lst.Valid() && tree.Valid()
    ensures Store(lst.Contents, tree.Contents(), queue) ==
      Revert(Store(old(lst.Contents), old(tree.Contents()), queue), Delete(d), now)
  {
    var p := FromSnapshot(d, now);
    lst.InsertEnd(p);
    tree.Insert(p.doctor, d);
  }

  /** The `update` branch: write the four saved fields back and rebuild the index from the list. */
  method UndoUpdate(lst: LinkedList, tree: PatientTree, d: Patient, ghost queue: seq<int>)
    requires lst.Valid() && tree.Valid()
    modifies lst, lst.Spine, tree
    ensures lst.Valid() && tree.Valid()
    ensures Store(lst.Contents, tree.Contents(), queue) ==
      Revert(Store(old(lst.Contents), old(tree.Contents()), queue), Update(d), "")
  {
    var pid := d.patient_id;
    var _ := lst.UpdateById(pid, SetFour(d.name, d.age, d.disease, d.doctor));
    var all := lst.ToList();
    tree.RebuildFromList(all);
  }

  /** The `appointment_add` branch: when `pid` is queued, drop its last occurrence and reload
      the queue from the shortened list. */
  method UndoAppointment(appts: AppointmentQueue, pid: int,
                         ghost records: seq<Patient>, ghost buckets: map<string, seq<Patient>>)
    modifies appts
    ensures Store(records, buckets, appts.q) ==
      Revert(Store(records, buckets, old(appts.q)), AppointmentAdd(pid), "")
  {
    var queued := appts.ToList();
    if pid in queued {
      queued := RemoveLast(queued, pid);
      appts.LoadFromList(queued);
    } else {
      DropLastSpec(queued, pid);
    }
  }

  /** `push(x)` then `pop()` returns `x` and leaves the stack as it was. */
  method PushThenPop(st: UndoStack, x: Action) returns (r: Option<Action>)
    modifies st
    ensures r == Some(x) && st.stack == old(st.stack)
  {
    st.Push(x);
    r := st.Pop();
  }
}
