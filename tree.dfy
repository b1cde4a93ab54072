/** The doctor index (dsapro/data_structures/tree.py): an unbalanced binary search tree keyed
    by doctor name, each node holding the bucket of patient snapshots for its doctor. */
module PatientTrees {
  import opened Wrappers
  import opened PatientRecord

  /** Python's `<` on `str`: lexicographic by code point, a proper prefix first. */
  predicate Less(a: string, b: string) {
    if a == [] then b != []
    else if b == [] then false
    else if a[0] == b[0] then Less(a[1..], b[1..])
    else a[0] < b[0]
  }

  lemma {:induction false} LessIrreflexive(a: string)
    ensures !Less(a, a)
  {
    if a != [] {
      LessIrreflexive(a[1..]);
    }
  }

  lemma {:induction false} LessAsymmetric(a: string, b: string)
    requires Less(a, b)
    ensures !Less(b, a)
  {
    if a != [] && b != [] && a[0] == b[0] {
      LessAsymmetric(a[1..], b[1..]);
    }
  }

  lemma {:induction false} LessTransitive(a: string, b: string, c: string)
    requires Less(a, b) && Less(b, c)
    ensures Less(a, c)
  {
    if a != [] && a[0] == b[0] && b[0] == c[0] {
      LessTransitive(a[1..], b[1..], c[1..]);
    }
  }

  lemma {:induction false} LessTotal(a: string, b: string)
    requires a != b
    ensures Less(a, b) || Less(b, a)
  {
    if a != [] && b != [] && a[0] == b[0] {
      assert a == [a[0]] + a[1..] && b == [b[0]] + b[1..];
      LessTotal(a[1..], b[1..]);
    }
  }

  /** `k` lies strictly between the bounds; a missing bound is unbounded. */
  predicate InRange(k: string, lo: Option<string>, hi: Option<string>) {
    (lo.None? || Less(lo.value, k)) && (hi.None? || Less(k, hi.value))
  }

  /** The bucket for `d`, or `[]` when no node has that key. */
  function Lookup(m: map<string, seq<Patient>>, d: string): seq<Patient> {
    if d in m then m[d] else []
  }

  /** The list comprehension in `remove`: the bucket without the entries whose id is `id`. */
  function FilterOutId(s: seq<Patient>, id: int): (r: seq<Patient>)
    ensures forall p :: p in r <==> p in s && p.patient_id != id
    ensures |r| <= |s|
  {
    if s == [] then []
    else (if s[0].patient_id != id then [s[0]] else []) + FilterOutId(s[1..], id)
  }

  /** The entries of `s` whose doctor is `d`, in order. */
  function FilterDoctor(s: seq<Patient>, d: string): (r: seq<Patient>)
    ensures forall p :: p in r <==> p in s && p.doctor == d
    ensures |r| <= |s|
  {
    if s == [] then []
    else (if s[0].doctor == d then [s[0]] else []) + FilterDoctor(s[1..], d)
  }

  /** What `rebuild_from_list(ps)` leaves in the index: each entry appended, in order, to its
      doctor's bucket. */
  function Group(ps: seq<Patient>): map<string, seq<Patient>> {
    if ps == [] then map[]
    else
      var m := Group(ps[..|ps| - 1]);
      var p := ps[|ps| - 1];
      m[p.doctor := Lookup(m, p.doctor) + [p]]
  }

  lemma {:induction false} FilterDoctorAppend(s: seq<Patient>, t: seq<Patient>, d: string)
    ensures FilterDoctor(s + t, d) == FilterDoctor(s, d) + FilterDoctor(t, d)
  {
    if s == [] {
      assert s + t == t;
    } else {
      assert (s + t)[1..] == s[1..] + t;
      FilterDoctorAppend(s[1..], t, d);
    }
  }

  /** Each rebuilt bucket is exactly the entries with that doctor, in list order, and only
      doctors of some entry get a bucket. */
  lemma {:induction false} GroupIsFilter(ps: seq<Patient>, d: string)
    ensures Lookup(Group(ps), d) == FilterDoctor(ps, d)
    ensures d in Group(ps) <==> exists p :: p in ps && p.doctor == d
  {
    if ps != [] {
      var init, p := ps[..|ps| - 1], ps[|ps| - 1];
      assert ps == init + [p];
      GroupIsFilter(init, d);
      FilterDoctorAppend(init, [p], d);
      assert FilterDoctor([p], d) == if p.doctor == d then [p] else [];
      assert forall q :: q in ps <==> q in init || q == p;
    }
  }

  /** A node of the index: the doctor key, its bucket and the two subtrees; `Nil` stands where
      the source has `None`. */
  datatype Tree = Nil | Node(doctor: string, patients: seq<Patient>, left: Tree, right: Tree)

  /** One entry of `inorder`: a doctor and a copy of its bucket. */
  type Entry = (string, seq<Patient>)

  /** The search-tree order: every key lies strictly between the bounds, with the keys of the
      left subtree below the key of the node and those of the right subtree above it. */
  predicate Bounded(t: Tree, lo: Option<string>, hi: Option<string>) {
    match t
    case Nil => true
    case Node(k, _, l, r) => InRange(k, lo, hi) && Bounded(l, lo, Some(k)) && Bounded(r, Some(k), hi)
  }

  /** The bucket of each doctor key in the tree. */
  function Buckets(t: Tree): map<string, seq<Patient>> {
    match t
    case Nil => map[]
    case Node(k, ps, l, r) => (Buckets(l) + Buckets(r))[k := ps]
  }

  /** Every key of a bounded tree lies within its bounds. */
  lemma {:induction false} BoundedKeys(t: Tree, lo: Option<string>, hi: Option<string>, k: string)
    requires Bounded(t, lo, hi) && k in Buckets(t)
    ensures InRange(k, lo, hi)
  {
    if t.Node? && k != t.doctor {
      var d := t.doctor;
      if k in Buckets(t.right) {
        BoundedKeys(t.right, Some(d), hi, k);
        if lo.Some? {
          LessTransitive(lo.value, d, k);
        }
      } else {
        BoundedKeys(t.left, lo, Some(d), k);
        if hi.Some? {
          LessTransitive(k, d, hi.value);
        }
      }
    }
  }

  /** One step of the descent shared by `insert`, `search` and `remove`: the bucket of `d` is
      the node's own when `d` is its key, and otherwise the one in the subtree on the side the
      order points to. */
  lemma LookupStep(t: Tree, lo: Option<string>, hi: Option<string>, d: string)
    requires Bounded(t, lo, hi) && t.Node?
    ensures d == t.doctor ==> Lookup(Buckets(t), d) == t.patients
    ensures Less(d, t.doctor) ==> Lookup(Buckets(t), d) == Lookup(Buckets(t.left), d)
    ensures Less(t.doctor, d) ==> Lookup(Buckets(t), d) == Lookup(Buckets(t.right), d)
    ensures Less(d, t.doctor) ==> d !in Buckets(t.right)
    ensures Less(t.doctor, d) ==> d !in Buckets(t.left)
    ensures d in Buckets(t) <==>
      d == t.doctor || (Less(d, t.doctor) && d in Buckets(t.left)) ||
      (Less(t.doctor, d) && d in Buckets(t.right))
  {
    LessIrreflexive(d);
    if d in Buckets(t.right) {
      BoundedKeys(t.right, Some(t.doctor), hi, d);
      if Less(d, t.doctor) {
        LessAsymmetric(d, t.doctor);
      }
    }
    if d in Buckets(t.left) {
      BoundedKeys(t.left, lo, Some(t.doctor), d);
      if Less(t.doctor, d) {
        LessAsymmetric(t.doctor, d);
      }
    }
    if d != t.doctor {
      LessTotal(d, t.doctor);
    }
  }

  /** Updating the bucket of `d` below a node whose key is not `d`, on the left (where the
      right subtree lacks `d`) or on the right. */
  lemma UpdateBelow(l: map<string, seq<Patient>>, r: map<string, seq<Patient>>, k: string,
                    ps: seq<Patient>, d: string, v: seq<Patient>)
    requires d != k
    ensures d !in r ==> (l[d := v] + r)[k := ps] == (l + r)[k := ps][d := v]
    ensures (l + r[d := v])[k := ps] == (l + r)[k := ps][d := v]
  {
    if d !in r {
      var m1, m2 := (l[d := v] + r)[k := ps], (l + r)[k := ps][d := v];
      assert m1.Keys == m2.Keys;
      assert forall x | x in m1 :: m1[x] == m2[x];
    }
    var m3, m4 := (l + r[d := v])[k := ps], (l + r)[k := ps][d := v];
    assert m3.Keys == m4.Keys;
    assert forall x | x in m3 :: m3[x] == m4[x];
  }

  /** The tree after `insert(d, p)`: the descent of the source's loop, appending `p` at the node
      of `d`, or hanging a new leaf holding just `p` where the descent falls off the tree. */
  function Inserted(t: Tree, d: string, p: Patient): Tree {
    match t
    case Nil => Node(d, [p], Nil, Nil)
    case Node(k, ps, l, r) =>
      if d == k then Node(k, ps + [p], l, r)
      else if Less(d, k) then Node(k, ps, Inserted(l, d, p), r)
      else Node(k, ps, l, Inserted(r, d, p))
  }

  /** Inserting keeps the order and appends `p` to the bucket of `d`, which starts empty when
      `d` had no node; no other bucket changes. */
  lemma {:induction false} InsertedSpec(t: Tree, lo: Option<string>, hi: Option<string>, d: string,
                                        p: Patient)
    requires Bounded(t, lo, hi) && InRange(d, lo, hi)
    ensures Bounded(Inserted(t, d, p), lo, hi)
    ensures Buckets(Inserted(t, d, p)) == Buckets(t)[d := Lookup(Buckets(t), d) + [p]]
  {
    if t.Node? {
      var k, ps, l, r := t.doctor, t.patients, t.left, t.right;
      LookupStep(t, lo, hi, d);
      if d == k {
        var m := Buckets(l) + Buckets(r);
        assert m[k := ps][k := ps + [p]] == m[k := ps + [p]];
      } else if Less(d, k) {
        InsertedSpec(l, lo, Some(k), d, p);
        UpdateBelow(Buckets(l), Buckets(r), k, ps, d, Lookup(Buckets(l), d) + [p]);
      } else {
        LessTotal(d, k);
        InsertedSpec(r, Some(k), hi, d, p);
        UpdateBelow(Buckets(l), Buckets(r), k, ps, d, Lookup(Buckets(r), d) + [p]);
      }
    } else {
      assert Buckets(Inserted(t, d, p)) == map[d := [p]];
      assert Lookup(Buckets(t), d) + [p] == [p];
    }
  }

  /** The tree after `remove(d, id)` and its result: the entries with id `id` filtered out of
      the bucket at the node of `d`, and whether the descent found that node. The node stays
      even when its bucket becomes empty. */
  function Removed(t: Tree, d: string, id: int): (Tree, bool) {
    match t
    case Nil => (Nil, false)
    case Node(k, ps, l, r) =>
      if d == k then (Node(k, FilterOutId(ps, id), l, r), true)
      else if Less(d, k) then
        var (l', found) := Removed(l, d, id);
        (Node(k, ps, l', r), found)
      else
        var (r', found) := Removed(r, d, id);
        (Node(k, ps, l, r'), found)
  }

  /** Removing keeps the order and every key; it reports whether `d` has a node, and filters `id`
      out of that node's bucket alone. */
  lemma {:induction false} RemovedSpec(t: Tree, lo: Option<string>, hi: Option<string>, d: string,
                                       id: int)
    requires Bounded(t, lo, hi)
    ensures Bounded(Removed(t, d, id).0, lo, hi)
    ensures Removed(t, d, id).1 <==> d in Buckets(t)
    ensures Buckets(Removed(t, d, id).0) ==
      if d in Buckets(t) then Buckets(t)[d := FilterOutId(Buckets(t)[d], id)] else Buckets(t)
  {
    if t.Node? {
      var k, ps, l, r := t.doctor, t.patients, t.left, t.right;
      LookupStep(t, lo, hi, d);
      if d == k {
      } else if Less(d, k) {
        RemovedSpec(l, lo, Some(k), d, id);
        var l' := Removed(l, d, id).0;
        assert Removed(t, d, id) == (Node(k, ps, l', r), Removed(l, d, id).1);
        if d in Buckets(l) {
          UpdateBelow(Buckets(l), Buckets(r), k, ps, d, FilterOutId(Buckets(l)[d], id));
        }
      } else {
        LessTotal(d, k);
        RemovedSpec(r, Some(k), hi, d, id);
        var r' := Removed(r, d, id).0;
        assert Removed(t, d, id) == (Node(k, ps, l, r'), Removed(r, d, id).1);
        if d in Buckets(r) {
          UpdateBelow(Buckets(l), Buckets(r), k, ps, d, FilterOutId(Buckets(r)[d], id));
        }
      }
    }
  }

  /** The number of nodes. */
  function NodeCount(t: Tree): nat {
    match t
    case Nil => 0
    case Node(_, _, l, r) => NodeCount(l) + 1 + NodeCount(r)
  }

  /** Inserting under a doctor that already has a node only extends its bucket; any other
      doctor gets exactly one new node. */
  lemma {:induction false} InsertedCount(t: Tree, lo: Option<string>, hi: Option<string>, d: string,
                                         p: Patient)
    requires Bounded(t, lo, hi)
    ensures NodeCount(Inserted(t, d, p)) == NodeCount(t) + (if d in Buckets(t) then 0 else 1)
  {
    if t.Node? {
      LookupStep(t, lo, hi, d);
      if d != t.doctor {
        LessTotal(d, t.doctor);
        if Less(d, t.doctor) {
          InsertedCount(t.left, lo, Some(t.doctor), d, p);
        } else {
          LessAsymmetric(t.doctor, d);
          InsertedCount(t.right, Some(t.doctor), hi, d, p);
        }
      }
    }
  }

  /** The source's `inorder(node, res)`: the entries of the left subtree, the entry of the
      node, then those of the right subtree, appended to `res`. */
  function InorderFrom(t: Tree, res: seq<Entry>): seq<Entry> {
    match t
    case Nil => res
    case Node(k, ps, l, r) => InorderFrom(r, InorderFrom(l, res) + [(k, ps)])
  }

  /** The entries of a tree in symmetric order, as a reference definition. */
  function Flatten(t: Tree): seq<Entry> {
    match t
    case Nil => []
    case Node(k, ps, l, r) => Flatten(l) + [(k, ps)] + Flatten(r)
  }

  /** The accumulating traversal appends the symmetric order to what `res` already holds. */
  lemma {:induction false} InorderAppends(t: Tree, res: seq<Entry>)
    ensures InorderFrom(t, res) == res + Flatten(t)
  {
    if t.Node? {
      InorderAppends(t.left, res);
      InorderAppends(t.right, res + Flatten(t.left) + [(t.doctor, t.patients)]);
    }
  }

  /** The symmetric order has one entry per node. */
  lemma {:induction false} FlattenLength(t: Tree)
    ensures |Flatten(t)| == NodeCount(t)
  {
    if t.Node? {
      FlattenLength(t.left);
      FlattenLength(t.right);
    }
  }

  /** The doctor keys strictly increase along `s`. */
  predicate Ascending(s: seq<Entry>) {
    forall i, j :: 0 <= i < j < |s| ==> Less(s[i].0, s[j].0)
  }

  /** Joining two ascending runs around an entry whose key lies between them. */
  lemma AscendingJoin(a: seq<Entry>, m: Entry, b: seq<Entry>)
    requires Ascending(a) && Ascending(b)
    requires forall e :: e in a ==> Less(e.0, m.0)
    requires forall e :: e in b ==> Less(m.0, e.0)
    ensures Ascending(a + [m] + b)
  {
    var f := a + [m] + b;
    forall i, j | 0 <= i < j < |f|
      ensures Less(f[i].0, f[j].0)
    {
      if j < |a| {
        assert f[i] == a[i] && f[j] == a[j];
      } else if i > |a| {
        assert f[i] == b[i - |a| - 1] && f[j] == b[j - |a| - 1];
      } else if i == |a| {
        assert f[j] == b[j - |a| - 1];
      } else if j == |a| {
        assert f[i] == a[i];
      } else {
        assert f[i] == a[i] && f[j] == b[j - |a| - 1];
        LessTransitive(f[i].0, m.0, f[j].0);
      }
    }
  }

  /** The symmetric order of a bounded tree lists each doctor key once, with its bucket, in
      increasing key order and within the bounds. */
  lemma {:induction false} FlattenSpec(t: Tree, lo: Option<string>, hi: Option<string>)
    requires Bounded(t, lo, hi)
    ensures Ascending(Flatten(t))
    ensures forall e :: e in Flatten(t) ==> InRange(e.0, lo, hi)
    ensures forall e :: e in Flatten(t) <==> e.0 in Buckets(t) && Buckets(t)[e.0] == e.1
  {
    if t.Node? {
      var k, l, r := t.doctor, t.left, t.right;
      FlattenSpec(l, lo, Some(k));
      FlattenSpec(r, Some(k), hi);
      var fl, fr := Flatten(l), Flatten(r);
      var f := Flatten(t);
      assert f == fl + [(k, t.patients)] + fr;
      forall e | e in f
        ensures InRange(e.0, lo, hi)
      {
        if e in fl {
          if hi.Some? {
            LessTransitive(e.0, k, hi.value);
          }
        } else if e in fr {
          if lo.Some? {
            LessTransitive(lo.value, k, e.0);
          }
        }
      }
      AscendingJoin(fl, (k, t.patients), fr);
      forall e
        ensures e in f <==> e.0 in Buckets(t) && Buckets(t)[e.0] == e.1
      {
        LessIrreflexive(e.0);
        if e.0 in Buckets(l) {
          BoundedKeys(l, lo, Some(k), e.0);
        }
        if e.0 in Buckets(r) {
          BoundedKeys(r, Some(k), hi, e.0);
        }
        if e.0 in Buckets(l) && e.0 in Buckets(r) {
          LessAsymmetric(e.0, k);
        }
      }
    }
  }

  class PatientTree {
    var root: Tree

    /** The search-tree order holds over the whole tree. */
    ghost predicate Valid()
      reads this
    {
      Bounded(root, None, None)
    }

    /** The bucket of each doctor key. */
    ghost function Contents(): map<string, seq<Patient>>
      reads this
    {
      Buckets(root)
    }

    constructor ()
      ensures Valid() && Contents() == map[]
    {
      root := Nil;
    }

    /** Appends `p` to the bucket of `doctor`; a doctor without a node gets a new leaf where
        the descent falls off the tree, or becomes the root of an empty tree. */
    method Insert(doctor: string, p: Patient)
      requires Valid()
      modifies this
      ensures Valid()
      ensures Contents() == old(Contents())[doctor := Lookup(old(Contents()), doctor) + [p]]
    {
      InsertedSpec(root, None, None, doctor, p);
      root := Inserted(root, doctor, p);
    }

    /** A copy of the bucket for `doctor`, or `[]` when the descent falls off the tree. */
    method Search(doctor: string) returns (bucket: seq<Patient>)
      requires Valid()
      ensures bucket == Lookup(Contents(), doctor)
    {
      var cur := root;
      ghost var lo: Option<string>, hi: Option<string> := None, None;
      while cur.Node?
        invariant Bounded(cur, lo, hi)
        invariant Lookup(Buckets(root), doctor) == Lookup(Buckets(cur), doctor)
        decreases cur
      {
        LookupStep(cur, lo, hi, doctor);
        if doctor == cur.doctor {
          return cur.patients;
        } else if Less(doctor, cur.doctor) {
          hi := Some(cur.doctor);
          cur := cur.left;
        } else {
          LessTotal(doctor, cur.doctor);
          lo := Some(cur.doctor);
          cur := cur.right;
        }
      }
      return [];
    }

    /** Filters every entry with id `id` out of the bucket of `doctor` and reports true; the
        node stays even when its bucket becomes empty. False, and nothing changes, when
        `doctor` has no node. */
    method Remove(doctor: string, id: int) returns (found: bool)
      requires Valid()
      modifies this
      ensures Valid()
      ensures found <==> doctor in old(Contents())
      ensures Contents() ==
        if found then old(Contents())[doctor := FilterOutId(old(Contents())[doctor], id)]
        else old(Contents())
    {
      RemovedSpec(root, None, None, doctor, id);
      var r := Removed(root, doctor, id);
      root, found := r.0, r.1;
    }

    /** `inorder()`: every doctor with a copy of its bucket, in key order. */
    function Inorder(): (r: seq<Entry>)
      reads this
      ensures r == Flatten(root)
    {
      InorderAppends(root, []);
      InorderFrom(root, [])
    }

    /** On an ordered tree, `inorder()` lists each doctor key once with its bucket, in
        increasing key order. */
    lemma InorderSorted()
      requires Valid()
      ensures Ascending(Inorder())
      ensures forall e :: e in Inorder() <==> e.0 in Contents() && Contents()[e.0] == e.1
      ensures |Inorder()| == NodeCount(root)
      ensures forall i, j :: 0 <= i < j < |Inorder()| ==> Inorder()[i].0 != Inorder()[j].0
    {
      FlattenSpec(root, None, None);
      FlattenLength(root);
      forall i, j | 0 <= i < j < |Inorder()|
        ensures Inorder()[i].0 != Inorder()[j].0
      {
        LessIrreflexive(Inorder()[i].0);
      }
    }

    /** Discards every node and inserts each entry of `ps` under its own doctor, in order. */
    method RebuildFromList(ps: seq<Patient>)
      modifies this
      ensures Valid() && Contents() == Group(ps)
    {
      root := Nil;
      for i := 0 to |ps|
        invariant Valid() && Contents() == Group(ps[..i])
      {
        assert ps[..i + 1][..i] == ps[..i];
        Insert(ps[i].doctor, ps[i]);
      }
      assert ps[..|ps|] == ps;
    }
  }
}
