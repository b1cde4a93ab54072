# Patient manager: a verified model of the in-memory core

The patient manager (`dsapro`) keeps four structures in memory:

- a singly linked list of patient records, searched by id;
- an unbalanced binary search tree keyed by doctor name, each node holding a bucket of patient snapshots;
- a FIFO queue of patient ids waiting for an appointment;
- an undo stack of tagged actions.

The console façade in `main.py` changes these structures together: register, schedule, serve, delete, update and undo.

This project models those structures and the façade in Dafny, and proves what each operation does to them. It also proves the cross-structure invariant: each doctor's bucket lists exactly that doctor's records, in list order.

Layout, one module per source file:

| file | module | models |
|---|---|---|
| `wrappers.dfy` | `Wrappers` | `Option`, for Python's `None` results |
| `patient.dfy` | `PatientRecord` | the `Patient` dataclass, `Patient(**d)` and the `setattr` loop of `update_by_id` |
| `queue.dfy` | `AppointmentQueues` | `AppointmentQueue`, a class over a `seq<int>` deque |
| `linked_list.dfy` | `LinkedLists` | `LinkedList` over heap `Node`s |
| `tree.dfy` | `PatientTrees` | `PatientTree` |
| `stack.dfy` | `UndoStacks` | `UndoStack` and the four undo branches |
| `main.dfy` | `Manager` | the façade functions and the consistency lemmas |

How each structure is represented:

- `LinkedList` uses heap `Node`s. A ghost `Spine` (the node sequence) and a ghost `Contents` (the record sequence) specify it. Every traversal is a `while` loop over the `next` links, as in the source; `LoadFromList` is a `for` loop over the snapshots.
- `PatientTree` holds its root as a `Tree` datatype. `Contents()` is the map from doctor to bucket. `Search` is the source's descent loop. Insert and remove rebuild the path as a value (see "Left out").
- A `Store` value, the records plus the buckets plus the queue, represents the three structures that `undo` acts on. `Revert(s, a, now)` is the effect of undoing action `a`. Each undo branch is a method proved against `Revert`, and lemmas relate `Revert` to the operation being undone.

Console input becomes parameters:

- an answer that `int(...)` rejects is `None`, or `NotANumber` for the age in `update_patient`;
- a blank answer is the empty string, or `Blank` for that age.

The clock read of `Patient.__post_init__` becomes the parameter `now`.

## Model

| member | source | states |
|---|---|---|
| PatientRecord.FromSnapshot | dsapro/patient.py:14-16 | `Patient(**d)` keeps every field of the snapshot and puts `now` into `registered_at` only when it is empty |
| PatientRecord.Apply | dsapro/data_structures/linked_list.py:63-65 | each named name, age, disease or doctor takes the given value and each unnamed one keeps its value; id and registration time stay unless named |
| AppointmentQueues.AppointmentQueue.constructor | dsapro/data_structures/queue.py:6-7 | a new queue is empty |
| AppointmentQueues.AppointmentQueue.Enqueue | dsapro/data_structures/queue.py:9-10 | the id is appended at the tail, and the earlier contents keep their order |
| AppointmentQueues.AppointmentQueue.Dequeue | dsapro/data_structures/queue.py:12-13 | a non-empty queue returns its head and keeps its tail; an empty one returns None and stays empty |
| AppointmentQueues.AppointmentQueue.Peek | dsapro/data_structures/queue.py:15-16 | returns the head, or None exactly when the queue is empty, without changing it |
| AppointmentQueues.AppointmentQueue.IsEmpty | dsapro/data_structures/queue.py:18-19 | true exactly when the length is zero |
| AppointmentQueues.AppointmentQueue.ToList | dsapro/data_structures/queue.py:21-22 | the contents, head first |
| AppointmentQueues.AppointmentQueue.LoadFromList | dsapro/data_structures/queue.py:24-25 | the contents become the given list |
| AppointmentQueues.FifoOrder | dsapro/data_structures/queue.py:9-13 | enqueue a, enqueue b, then dequeue three times yields a, b, None |
| AppointmentQueues.LoadThenList | dsapro/data_structures/queue.py:18-25 | `load_from_list(arr)` then `to_list()` gives arr back; the queue is empty exactly when arr is |
| LinkedLists.IndexOf | dsapro/data_structures/linked_list.py:37-43 | the first position holding the id, or the length when no record has it |
| LinkedLists.FindFirst | dsapro/data_structures/linked_list.py:37-43 | None exactly when no record has the id; otherwise a stored record with that id |
| LinkedLists.DeleteFirst | dsapro/data_structures/linked_list.py:45-57 | without a match the sequence is unchanged; with one, exactly that one record leaves (length and multiset) |
| LinkedLists.UpdateFirst | dsapro/data_structures/linked_list.py:59-68 | same length; every position other than the first match is unchanged |
| LinkedLists.MaxId | dsapro/data_structures/linked_list.py:84-91 | at least 0 and at least every id; 0 or equal to some stored id |
| LinkedLists.Loaded | dsapro/data_structures/linked_list.py:78-83 | one rebuilt record `Patient(**d)` for every snapshot, in order |
| LinkedLists.LoadedStampedIsIdentity | dsapro/data_structures/linked_list.py:78-83 | loading snapshots that all carry a registration time gives them back unchanged |
| LinkedLists.Node.constructor | dsapro/data_structures/linked_list.py:5-8 | a new node holds the given record and links to nothing |
| LinkedLists.LinkedList.constructor | dsapro/data_structures/linked_list.py:11-12 | a new list is empty |
| LinkedLists.LinkedList.InsertEnd | dsapro/data_structures/linked_list.py:14-22 | the records become old ++ [p], with no duplicate-id check; old nodes stay in place and one fresh node is linked last |
| LinkedLists.LinkedList.FindById | dsapro/data_structures/linked_list.py:37-43 | returns the first record with the id, or None; nothing changes |
| LinkedLists.LinkedList.UnlinkHead | dsapro/data_structures/linked_list.py:52-53 | moving `head` to `curr.next` drops the first node and its record |
| LinkedLists.LinkedList.UnlinkAfter | dsapro/data_structures/linked_list.py:50-51 | `prev.next = curr.next` drops exactly node i and record i |
| LinkedLists.LinkedList.DeleteById | dsapro/data_structures/linked_list.py:45-57 | returns the first match and removes only it, the others keeping their order; without a match returns None and changes nothing |
| LinkedLists.LinkedList.UpdateById | dsapro/data_structures/linked_list.py:59-68 | true exactly when a record has the id; only that first record is changed, by exactly the named fields |
| LinkedLists.LinkedList.ToList | dsapro/data_structures/linked_list.py:70-76 | one snapshot per node, in list order |
| LinkedLists.LinkedList.LoadFromList | dsapro/data_structures/linked_list.py:78-83 | the list is replaced by fresh nodes holding `Patient(**d)` for each snapshot, in order |
| LinkedLists.LinkedList.GetMaxId | dsapro/data_structures/linked_list.py:84-91 | the running maximum from 0 equals `MaxId` of the records |
| LinkedLists.LoadThenList | dsapro/data_structures/linked_list.py:70-83 | `load_from_list(ds)` then `to_list()` rebuilds each snapshot, so it gives ds back when every snapshot is stamped |
| PatientTrees.LessIrreflexive | dsapro/data_structures/tree.py:24-27 | no doctor name is below itself in string order |
| PatientTrees.LessAsymmetric | dsapro/data_structures/tree.py:24-27 | string order is asymmetric |
| PatientTrees.LessTransitive | dsapro/data_structures/tree.py:24-27 | string order is transitive |
| PatientTrees.LessTotal | dsapro/data_structures/tree.py:24-34 | of two different names one is below the other, so the `else` branch means "greater" |
| PatientTrees.FilterOutId | dsapro/data_structures/tree.py:58 | the comprehension keeps exactly the entries whose id differs |
| PatientTrees.FilterDoctor | dsapro/data_structures/tree.py:80-84 | exactly the entries with that doctor |
| PatientTrees.FilterDoctorAppend | dsapro/data_structures/tree.py:80-84 | filtering by doctor distributes over concatenation |
| PatientTrees.GroupIsFilter | dsapro/data_structures/tree.py:80-84 | after re-inserting a list, each doctor's bucket is the list's entries with that doctor, in list order; only doctors of some entry get a node |
| PatientTrees.BoundedKeys | dsapro/data_structures/tree.py:15-40 | every key of an ordered subtree lies within its bounds |
| PatientTrees.LookupStep | dsapro/data_structures/tree.py:42-51 | one step of the descent: the node's bucket on a key match, otherwise the bucket found on the side the order points to |
| PatientTrees.InsertedSpec | dsapro/data_structures/tree.py:15-40 | insert keeps the search-tree order, appends p to the bucket of d and leaves every other bucket unchanged |
| PatientTrees.InsertedCount | dsapro/data_structures/tree.py:15-40 | inserting under an existing doctor creates no node; any other doctor gets exactly one |
| PatientTrees.RemovedSpec | dsapro/data_structures/tree.py:53-64 | remove keeps the order, reports whether d has a node, and filters the id out of d's bucket only; the node stays |
| PatientTrees.InorderAppends | dsapro/data_structures/tree.py:66-78 | the accumulating traversal appends the symmetric order to `res` |
| PatientTrees.FlattenLength | dsapro/data_structures/tree.py:66-78 | one entry per node |
| PatientTrees.FlattenSpec | dsapro/data_structures/tree.py:66-78 | the symmetric order of an ordered tree ascends strictly and lists exactly the (doctor, bucket) pairs |
| PatientTrees.PatientTree.constructor | dsapro/data_structures/tree.py:12-13 | a new tree is ordered and has no buckets |
| PatientTrees.PatientTree.Insert | dsapro/data_structures/tree.py:15-40 | `search(d)` afterwards is the old `search(d)` ++ [p]; all other buckets are unchanged; the order is kept |
| PatientTrees.PatientTree.Search | dsapro/data_structures/tree.py:42-51 | the bucket of d, or [] when d has no node; nothing changes |
| PatientTrees.PatientTree.Remove | dsapro/data_structures/tree.py:53-64 | true exactly when d has a node; then the id is filtered out of that bucket and the node stays; otherwise nothing changes |
| PatientTrees.PatientTree.Inorder | dsapro/data_structures/tree.py:66-78 | `inorder()` from the root is the symmetric order |
| PatientTrees.PatientTree.InorderSorted | dsapro/data_structures/tree.py:66-78 | doctors strictly increase along `inorder()`, each appears once with its bucket, and there is one entry per node |
| PatientTrees.PatientTree.RebuildFromList | dsapro/data_structures/tree.py:80-84 | the tree is ordered, and each doctor's bucket is the entries of the list with that doctor, in order |
| UndoStacks.LastIndex | dsapro/data_structures/stack.py:62-63 | the last position holding x, or -1 when x does not occur |
| UndoStacks.DropLastSpec | dsapro/data_structures/stack.py:56-67 | exactly one entry, that id, is dropped when the id occurs (length and multiset); absent means unchanged |
| UndoStacks.DropLastKeepsOrder | dsapro/data_structures/stack.py:62-65 | entries before the last occurrence keep their positions and those after it move up by one, so all other entries keep their order |
| UndoStacks.DropLastAppended | dsapro/data_structures/stack.py:56-67 | dropping the last x from q ++ [x] gives q |
| UndoStacks.RemoveLast | dsapro/data_structures/stack.py:62-65 | the reverse index loop with `pop(i); break` drops the last occurrence of pid |
| UndoStacks.UndoStack.constructor | dsapro/data_structures/stack.py:11-12 | a new stack is empty |
| UndoStacks.UndoStack.Push | dsapro/data_structures/stack.py:14-15 | the item goes on top |
| UndoStacks.UndoStack.Pop | dsapro/data_structures/stack.py:17-18 | returns and removes the top; on an empty stack returns None and changes nothing |
| UndoStacks.PushThenPop | dsapro/data_structures/stack.py:14-18 | push x then pop returns x and restores the stack |
| UndoStacks.UndoStack.Undo | dsapro/data_structures/stack.py:20-70 | an empty stack changes nothing; otherwise exactly the top entry is popped and its inverse is applied as `Revert` describes (an unknown tag changes nothing else) |
| UndoStacks.UndoAdd | dsapro/data_structures/stack.py:27-34 | unlinks the id, and only when a record was unlinked filters the id out of the snapshot doctor's bucket |
| UndoStacks.UndoDelete | dsapro/data_structures/stack.py:36-42 | appends `Patient(**d)` at the end of the list and the snapshot at the end of its doctor's bucket |
| UndoStacks.UndoUpdate | dsapro/data_structures/stack.py:44-54 | sets name, age, disease and doctor of that id back to the snapshot, then rebuilds the index from the list |
| UndoStacks.UndoAppointment | dsapro/data_structures/stack.py:56-67 | drops the last occurrence of the id from the queue; an absent id leaves the queue unchanged |
| Manager.NextId | dsapro/main.py:69-71 | max + 1 over the stored ids, at least 1, and greater than every stored id |
| Manager.RegisterPatient | dsapro/main.py:73-88 | a non-integer age cancels with no change; otherwise one record with the next id is appended to the list and to its doctor's bucket, and exactly one `("add", snapshot)` is pushed |
| Manager.ScheduleAppointment | dsapro/main.py:98-110 | an unconvertible or unknown id changes nothing; a known one is enqueued at the tail and exactly one `("appointment_add", pid)` is pushed |
| Manager.NextAppointment | dsapro/main.py:112-127 | dequeues at most one id and looks it up; the undo stack is not a parameter |
| Manager.DeletePatient | dsapro/main.py:139-153 | an unconvertible or unknown id changes nothing; otherwise `("delete", snapshot)` is pushed, the first record with the id leaves the list, and the id leaves that record's doctor bucket; the queue is left alone |
| Manager.UpdatePatient | dsapro/main.py:155-177 | an unconvertible or unknown id changes nothing; a non-numeric age raises before any change; otherwise the record gets the answers (blank keeps the value), the index is rebuilt from the list, and the old snapshot is pushed |
| Manager.UndoAction | dsapro/main.py:181-182 | the undo stack's `undo` on the list, the tree and the queue |
| Manager.ConsistentAfterRegister | dsapro/main.py:85-86 | appending a record to the list and to its doctor's bucket keeps every bucket equal to the list filtered by doctor |
| Manager.UniqueAfterRegister | dsapro/main.py:83-85 | the registered id is not stored yet, so ids stay unique |
| Manager.BucketAfterDelete | dsapro/main.py:151-152 | cutting one record out of the list changes only its doctor's entries, by exactly that record |
| Manager.NoIdAfterFirst | dsapro/data_structures/linked_list.py:48-54 | with unique ids, no record after the first match carries the deleted id |
| Manager.ConsistentAfterDelete | dsapro/main.py:151-152 | with unique ids, deleting from the list and from the deleted record's bucket keeps the index consistent |
| Manager.UniqueAfterDelete | dsapro/main.py:151 | deleting keeps ids unique |
| Manager.UpdateKeepsIdentity | dsapro/main.py:167-173 | `update_patient` never changes an id or a registration time |
| Manager.UpdateAllBlank | dsapro/main.py:166-173 | with every answer blank the records are unchanged |
| Manager.CoherentAfterUpdate | dsapro/main.py:173-175 | after an update and rebuild, ids are unique and every bucket matches the list |
| Manager.CoherentSteps | dsapro/main.py:73-153 | unique ids and a consistent index hold initially and survive register and delete |
| Manager.CoherentAfterRevert | dsapro/data_structures/stack.py:27-70 | undo of each tag keeps unique ids and a consistent index, under the conditions listed under "Left out" |
| Manager.RegisterThenUndo | dsapro/data_structures/stack.py:27-34 | register then undo gives back the list, the queue and every bucket |
| Manager.ScheduleThenUndo | dsapro/data_structures/stack.py:56-67 | schedule then undo gives back the queue, with the list and index untouched |
| Manager.UpdateTwice | dsapro/data_structures/stack.py:47-51 | writing the saved name, age, disease and doctor back over an update that kept id and registration time gives back the records |
| Manager.UpdateThenUndo | dsapro/data_structures/stack.py:44-54 | update then undo gives back the list; the rebuilt index matches it |
| Manager.DeleteThenUndoReorders | dsapro/data_structures/stack.py:36-42 | deleting the first of two same-doctor records and undoing gives [B, A] in the list and in the bucket, not [A, B] |
| Manager.DeletedHighestIdReused | dsapro/main.py:69-71 | with ids 1 and 2, deleting 2 makes the next registration get id 2 again |

## Behaviour worth knowing

- `next_id` is one more than the largest id among the records present (`dsapro/main.py:69-71`). Deleting the record with the highest id therefore lets that id be handed out again (`Manager.DeletedHighestIdReused`).
- Undoing a delete appends the rebuilt record at the end of the list and the snapshot at the end of its bucket (`dsapro/data_structures/stack.py:36-42`). A record deleted from the middle therefore comes back last (`Manager.DeleteThenUndoReorders`).
- `insert_end` links the new node without looking at the ids already stored (`dsapro/data_structures/linked_list.py:14-22`), so it accepts a duplicate id (`LinkedLists.LinkedList.InsertEnd`).
- The comment at `dsapro/data_structures/stack.py:7` says an `update` entry carries the old and the new snapshot. `update_patient` pushes only the old one, so `Action.Update` holds one `Patient`.
- The console façade does not check for an empty name or a non-positive age; only the `int` conversion can cancel a registration. `Manager.RegisterPatient` accepts any strings and any integer age.

## Left out

- CSV persistence and directory setup (`ensure_data_files`, `save_*`, `load_*`, `save_all`, `load_all`): file I/O. The tree rebuild inside `load_all` is `PatientTrees.PatientTree.RebuildFromList`.
- Console interaction: the menu loop, `print`, `view_patients`, `search_by_doctor` and `LinkedList.display`. Inputs are parameters; `search_by_doctor` is `PatientTrees.PatientTree.Search` plus printing.
- The billing prompts in `next_appointment` and `billing.py`: floating-point arithmetic.
- The Flask application in `app.py`, with its session mirror of the undo stack and its own input checks: a second front end over the same operations.
- The clock: `datetime.now()` is the parameter `now`. A `registered_at` of `None` and one of `""` are both the empty string.
- Snapshot dictionaries: `to_dict` and `Patient(**d)` are the identity on the six fields, so a snapshot is a `Patient`. A dictionary with missing or extra keys is not modelled. `int(old["age"])` is the identity.
- `hasattr` in `update_by_id`: only the six record fields can be named by `Changes`. No caller passes any other name.
- PatientTrees.PatientTree.Insert: the tree is a value, so insert rebuilds the path from the root rather than linking a new `TreeNode` in place. Node identity and aliasing of `TreeNode` objects are not modelled. The buckets, the node set and the search order are.
- PatientTrees.PatientTree.Remove: rebuilds the path as a value rather than reassigning `cur.patients` in place, for the same reason.
- PatientTrees.PatientTree.Inorder: only the public call `inorder()` from the root is modelled. The recursion with explicit `node` and shared `res` arguments is `PatientTrees.InorderFrom` on values.
- Manager.UpdatePatient: an age answer `int` rejects is modelled as a `raised` result with nothing changed. That the exception also ends the menu loop, without saving, is not modelled.
- Manager.CoherentAfterRevert: stated with conditions that the code does not check. An `add` entry's snapshot doctor must still be the record's doctor. A `delete` snapshot must carry a registration time, and its id must not be in use again. Undo in stack order meets them, but the code promises nothing about an out-of-order stack.
- Manager.RegisterThenUndo: the doctor's node stays in the index after undo, possibly with an empty bucket, so buckets are compared through `search`, not as maps.
- Integers are unbounded, as Python's are. String order is the model's own `PatientTrees.Less`: lexicographic by character with a proper prefix first, as Python compares `str` by code point.
