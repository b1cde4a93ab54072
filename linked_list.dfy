/** The patient list (dsapro/data_structures/linked_list.py): a singly linked list of
    patient records, searched by id. */
module LinkedLists {
  import opened Wrappers
  import opened PatientRecord

  /** Position of the first record with id `pid`, or `|s|` when no record has it. */
  function IndexOf(s: seq<Patient>, pid: int): (k: nat)
    ensures k <= |s|
    ensures forall j :: 0 <= j < k ==> s[j].patient_id != pid
    ensures k < |s| ==> s[k].patient_id == pid
  {
    if s == [] then 0
    else if s[0].patient_id == pid then 0
    else 1 + IndexOf(s[1..], pid)
  }

  /** A position whose predecessors all differ from `pid` and which holds `pid`, or the
      end of a sequence in which no record holds it, is the first position of `pid`. */
  lemma IndexOfIs(s: seq<Patient>, pid: int, i: nat)
    requires i <= |s|
    requires forall j :: 0 <= j < i ==> s[j].patient_id != pid
    requires i < |s| ==> s[i].patient_id == pid
    ensures IndexOf(s, pid) == i
  {
  }

  /** `find_by_id` on the record sequence: the first record with id `pid`. */
  function FindFirst(s: seq<Patient>, pid: int): (r: Option<Patient>)
    ensures r.None? <==> forall j :: 0 <= j < |s| ==> s[j].patient_id != pid
    ensures r.Some? ==> r.value in s && r.value.patient_id == pid
  {
    var k := IndexOf(s, pid);
    if k < |s| then Some(s[k]) else None
  }

  /** `delete_by_id` on the record sequence: drops the first record with id `pid`. */
  function DeleteFirst(s: seq<Patient>, pid: int): (r: seq<Patient>)
    ensures FindFirst(s, pid).None? ==> r == s
    ensures FindFirst(s, pid).Some? ==>
      |r| + 1 == |s| && multiset(r) + multiset{FindFirst(s, pid).value} == multiset(s)
  {
    var k := IndexOf(s, pid);
    if k < |s| then
      assert s == s[..k] + [s[k]] + s[k+1..];
      s[..k] + s[k+1..]
    else s
  }

  /** `update_by_id` on the record sequence: applies `ch` to the first record with id `pid`. */
  function UpdateFirst(s: seq<Patient>, pid: int, ch: Changes): (r: seq<Patient>)
    ensures |r| == |s|
    ensures forall j :: 0 <= j < |s| && j != IndexOf(s, pid) ==> r[j] == s[j]
  {
    var k := IndexOf(s, pid);
    if k < |s| then s[k := Apply(s[k], ch)] else s
  }

  /** `get_max_id`: the largest id, or 0 when the sequence is empty or every id is negative. */
  function MaxId(s: seq<Patient>): (m: int)
    ensures m >= 0
    ensures forall j :: 0 <= j < |s| ==> s[j].patient_id <= m
    ensures m == 0 || exists j :: 0 <= j < |s| && s[j].patient_id == m
  {
    if s == [] then 0
    else
      var m := MaxId(s[..|s| - 1]);
      if s[|s| - 1].patient_id > m then s[|s| - 1].patient_id else m
  }

  /** Where the elements of `s` with position `i` dropped come from. */
  lemma RemoveAtIndex<T>(s: seq<T>, i: nat)
    requires i < |s|
    ensures |s[..i] + s[i + 1..]| == |s| - 1
    ensures forall j :: 0 <= j < i ==> (s[..i] + s[i + 1..])[j] == s[j]
    ensures forall j :: i < j < |s| ==> (s[..i] + s[i + 1..])[j - 1] == s[j]
  {
  }

  /** No two records share an id. */
  predicate UniqueIds(s: seq<Patient>) {
    forall i, j :: 0 <= i < j < |s| ==> s[i].patient_id != s[j].patient_id
  }

  class Node {
    var patient: Patient
    var next: Node?

    constructor (p: Patient)
      ensures patient == p && next == null
    {
      patient := p;
      next := null;
    }
  }

  class LinkedList {
    var head: Node?
    /** The nodes from the head on, and the records they hold. */
    ghost var Spine: seq<Node>
    ghost var Contents: seq<Patient>

    /** The spine is the chain of `next` links from `head` to null, without repeats. */
    ghost predicate Valid()
      reads this, Spine
    {
      |Contents| == |Spine| &&
      (head == if Spine == [] then null else Spine[0]) &&
      (forall i :: 0 <= i < |Spine| ==> Spine[i].patient == Contents[i]) &&
      (forall i {:trigger Spine[i].next} :: 0 <= i < |Spine| ==>
        Spine[i].next == if i + 1 < |Spine| then Spine[i + 1] else null) &&
      (forall i, j :: 0 <= i < j < |Spine| ==> Spine[i] != Spine[j])
    }

    constructor ()
      ensures Valid() && Contents == [] && Spine == []
    {
      head := null;
      Spine := [];
      Contents := [];
    }

    /** Appends `p` after the last node; duplicate ids are not rejected. */
    method InsertEnd(p: Patient)
      requires Valid()
      modifies this, Spine
      ensures Valid()
      ensures Contents == old(Contents) + [p]
      ensures |Spine| == |old(Spine)| + 1 && Spine[..|old(Spine)|] == old(Spine)
      ensures fresh(Spine[|old(Spine)|])
    {
      var newNode := new Node(p);
      if head == null {
        head := newNode;
        Spine := [newNode];
        Contents := [p];
        assert Spine[0].next == null;
        assert Valid();
        return;
      }
      var temp := head;
      ghost var i := 0;
      while temp.next != null
        invariant Valid()
        invariant 0 <= i < |Spine| && temp == Spine[i]
        invariant temp.next == if i + 1 < |Spine| then Spine[i + 1] else null
        decreases |Spine| - i
      {
        temp := temp.next;
        i := i + 1;
      }
      assert i == |Spine| - 1;
      ghost var spine := Spine;
      temp.next := newNode;
      assert forall j :: 0 <= j < i ==> spine[j].next == spine[j + 1];
      Spine := Spine + [newNode];
      Contents := Contents + [p];
    }

    /** The first record with id `pid`, or None; the list is not changed. */
    method FindById(pid: int) returns (r: Option<Patient>)
      requires Valid()
      ensures r == FindFirst(Contents, pid)
    {
      var temp := head;
      ghost var i := 0;
      while temp != null
        invariant 0 <= i <= |Spine|
        invariant temp == if i < |Spine| then Spine[i] else null
        invariant forall j :: 0 <= j < i ==> Contents[j].patient_id != pid
        decreases |Spine| - i
      {
        if temp.patient.patient_id == pid {
          IndexOfIs(Contents, pid, i);
          return Some(temp.patient);
        }
        temp := temp.next;
        i := i + 1;
      }
      IndexOfIs(Contents, pid, i);
      return None;
    }

    /** The unlinking step of `delete_by_id` when `curr` is the head: `head = curr.next`. */
    method UnlinkHead(curr: Node)
      requires Valid()
      requires 0 < |Spine| && curr == Spine[0]
      modifies this
      ensures Valid()
      ensures Spine == old(Spine[1..])
      ensures Contents == old(Contents[1..])
    {
      assert curr.next == if 1 < |Spine| then Spine[1] else null;
      head := curr.next;
      Spine, Contents := Spine[1..], Contents[1..];
    }

    /** The unlinking step of `delete_by_id` after `prev`: `prev.next = curr.next`. */
    method UnlinkAfter(prev: Node, curr: Node, ghost i: nat)
      requires Valid()
      requires 0 < i < |Spine| && curr == Spine[i] && prev == Spine[i - 1]
      modifies this, prev
      ensures Valid()
      ensures Spine == old(Spine[..i] + Spine[i + 1..])
      ensures Contents == old(Contents[..i] + Contents[i + 1..])
    {
      ghost var sp, cs := Spine, Contents;
      ghost var ns, nc := sp[..i] + sp[i + 1..], cs[..i] + cs[i + 1..];
      RemoveAtIndex(sp, i);
      RemoveAtIndex(cs, i);
      prev.next := curr.next;
      Spine, Contents := ns, nc;
      forall j | 0 <= j < |ns|
        ensures ns[j].next == if j + 1 < |ns| then ns[j + 1] else null
      {
        if j + 1 < i {
          assert sp[j] != sp[i - 1];
        } else if j >= i {
          assert sp[j + 1] != sp[i - 1];
        }
      }
    }

    /** Unlinks the first node with id `pid` and returns its record; all other records keep
        their order. Without a match it returns None and changes nothing. */
    method DeleteById(pid: int) returns (r: Option<Patient>)
      requires Valid()
      modifies this, Spine
      ensures Valid()
      ensures r == FindFirst(old(Contents), pid)
      ensures Contents == DeleteFirst(old(Contents), pid)
      ensures forall n :: n in Spine ==> n in old(Spine)
      ensures r.None? ==> unchanged(this) && unchanged(Spine)
    {
      var prev: Node? := null;
      var curr := head;
      ghost var i := 0;
      while curr != null
        invariant Valid() && unchanged(this) && unchanged(Spine)
        invariant 0 <= i <= |Spine|
        invariant curr == if i < |Spine| then Spine[i] else null
        invariant curr != null ==> curr.next == if i + 1 < |Spine| then Spine[i + 1] else null
        invariant prev == if i == 0 then null else Spine[i - 1]
        invariant forall j :: 0 <= j < i ==> Contents[j].patient_id != pid
        decreases |Spine| - i
      {
        if curr.patient.patient_id == pid {
          IndexOfIs(Contents, pid, i);
          var removed := curr.patient;
          if prev != null {
            UnlinkAfter(prev, curr, i);
          } else {
            UnlinkHead(curr);
          }
          return Some(removed);
        }
        prev := curr;
        curr := curr.next;
        i := i + 1;
      }
      IndexOfIs(Contents, pid, i);
      return None;
    }

    /** Sets the given fields of the first record with id `pid` and reports whether it found one. */
    method UpdateById(pid: int, ch: Changes) returns (found: bool)
      requires Valid()
      modifies this, Spine
      ensures Valid()
      ensures found == FindFirst(old(Contents), pid).Some?
      ensures Contents == UpdateFirst(old(Contents), pid, ch)
    {
      var temp := head;
      ghost var i := 0;
      while temp != null
        invariant Valid() && unchanged(this) && unchanged(Spine)
        invariant 0 <= i <= |Spine|
        invariant temp == if i < |Spine| then Spine[i] else null
        invariant temp != null ==> temp.next == if i + 1 < |Spine| then Spine[i + 1] else null
        invariant forall j :: 0 <= j < i ==> Contents[j].patient_id != pid
        decreases |Spine| - i
      {
        if temp.patient.patient_id == pid {
          IndexOfIs(Contents, pid, i);
          temp.patient := Apply(temp.patient, ch);
          Contents := Contents[i := temp.patient];
          return true;
        }
        temp := temp.next;
        i := i + 1;
      }
      IndexOfIs(Contents, pid, i);
      return false;
    }

    /** One snapshot per node, in list order. */
    method ToList() returns (arr: seq<Patient>)
      requires Valid()
      ensures arr == Contents
    {
      arr := [];
      var temp := head;
      ghost var i := 0;
      while temp != null
        invariant 0 <= i <= |Spine|
        invariant temp == if i < |Spine| then Spine[i] else null
        invariant arr == Contents[..i]
        decreases |Spine| - i
      {
        arr := arr + [temp.patient];
        temp := temp.next;
        i := i + 1;
      }
    }

    /** Empties the list and appends `Patient(**d)` for every snapshot d in order. */
    method LoadFromList(ds: seq<Patient>, now: string)
      modifies this
      ensures Valid()
      ensures Contents == Loaded(ds, now)
      ensures fresh(set n | n in Spine)
    {
      head := null;
      Spine := [];
      Contents := [];
      for i := 0 to |ds|
        invariant Valid()
        invariant Contents == Loaded(ds[..i], now)
        invariant fresh(set n | n in Spine)
      {
        InsertEnd(FromSnapshot(ds[i], now));
        assert ds[..i + 1] == ds[..i] + [ds[i]];
      }
      assert ds[..|ds|] == ds;
    }

    /** The largest id in the list, 0 when it is empty. */
    method GetMaxId() returns (m: int)
      requires Valid()
      ensures m == MaxId(Contents)
    {
      m := 0;
      var temp := head;
      ghost var i := 0;
      while temp != null
        invariant 0 <= i <= |Spine|
        invariant temp == if i < |Spine| then Spine[i] else null
        invariant m == MaxId(Contents[..i])
        decreases |Spine| - i
      {
        assert Contents[..i + 1][..i] == Contents[..i];
        if temp.patient.patient_id > m {
          m := temp.patient.patient_id;
        }
        temp := temp.next;
        i := i + 1;
      }
      assert Contents[..i] == Contents;
    }
  }

  /** What `load_from_list` stores: each snapshot rebuilt with `Patient(**d)`. */
  function Loaded(ds: seq<Patient>, now: string): (r: seq<Patient>)
    ensures |r| == |ds|
    ensures forall i :: 0 <= i < |ds| ==> r[i] == FromSnapshot(ds[i], now)
  {
    if ds == [] then [] else Loaded(ds[..|ds| - 1], now) + [FromSnapshot(ds[|ds| - 1], now)]
  }

  /** `load_from_list(ds)` followed by `to_list()` returns ds when every snapshot is stamped. */
  lemma LoadedStampedIsIdentity(ds: seq<Patient>, now: string)
    requires forall i :: 0 <= i < |ds| ==> Stamped(ds[i])
    ensures Loaded(ds, now) == ds
  {
  }

  /** `load_from_list(ds)` on a list, then `to_list()`: each snapshot rebuilt, so ds itself
      when every snapshot is stamped. */
  method LoadThenList(ds: seq<Patient>, now: string) returns (r: seq<Patient>)
    ensures r == Loaded(ds, now)
    ensures (forall i :: 0 <= i < |ds| ==> Stamped(ds[i])) ==> r == ds
  {
    var lst := new LinkedList();
    lst.LoadFromList(ds, now);
    r := lst.ToList();
    if forall i :: 0 <= i < |ds| ==> Stamped(ds[i]) {
      LoadedStampedIsIdentity(ds, now);
    }
  }
}
