/** The operation store itself (internal/interfaces/httpapi/operations.go): a map from id to
    the element of a doubly linked list. Every method refines the call of the same name on the
    abstract sequence of Operations.dfy. */
module OperationStore {
  import opened Common
  import opened Operations

  /** An element of Go's container/list. */
  class Element {
    var value: Operation
    var prev: Element?
    var next: Element?

    constructor (value: Operation)
      ensures this.value == value && prev == null && next == null
    {
      this.value := value;
      prev, next := null, null;
    }
  }

  /** The element before and after position `i`. */
  function Before(spine: seq<Element>, i: nat): Element?
    requires i < |spine|
  {
    if i == 0 then null else spine[i - 1]
  }

  function Behind(spine: seq<Element>, i: nat): Element?
    requires i < |spine|
  {
    if i == |spine| - 1 then null else spine[i + 1]
  }

  ghost predicate Differ(spine: seq<Element>, i: int, j: int) {
    0 <= i < j < |spine| ==> spine[i] != spine[j]
  }

  ghost predicate AllDifferent(spine: seq<Element>) {
    forall i, j :: Differ(spine, i, j)
  }

  lemma DiffersElsewhere(spine: seq<Element>, i: nat)
    requires i < |spine| && AllDifferent(spine)
    ensures forall k | 0 <= k < |spine| && k != i :: spine[k] != spine[i]
  {
    forall k | 0 <= k < |spine| && k != i
      ensures spine[k] != spine[i]
    {
      assert Differ(spine, k, i) && Differ(spine, i, k);
    }
  }

  lemma AllDifferentDropped(spine: seq<Element>, i: nat)
    requires i < |spine| && AllDifferent(spine)
    ensures AllDifferent(RemoveAt(spine, i)) && spine[i] !in RemoveAt(spine, i)
  {
    DiffersElsewhere(spine, i);
    forall j, k
      ensures Differ(RemoveAt(spine, i), j, k)
    {
      assert Differ(spine, if j < i then j else j + 1, if k < i then k else k + 1);
    }
  }

  lemma AllDifferentAppended(spine: seq<Element>, el: Element)
    requires AllDifferent(spine) && el !in spine
    ensures AllDifferent(spine + [el])
  {
    forall j, k
      ensures Differ(spine + [el], j, k)
    {
      assert Differ(spine, j, k);
    }
  }

  /** Every element points at its neighbours in `spine`. */
  ghost predicate Links(spine: seq<Element>)
    reads spine
  {
    && (forall i {:trigger spine[i].prev} | 0 <= i < |spine| :: spine[i].prev == Before(spine, i))
    && (forall i {:trigger spine[i].next} | 0 <= i < |spine| :: spine[i].next == Behind(spine, i))
  }

  /** The links once the element at `i` has been bypassed. */
  ghost predicate Bypassed(spine: seq<Element>, i: nat)
    requires i < |spine|
    reads spine
  {
    && (forall k {:trigger spine[k].prev} | 0 <= k < |spine| && k != i ::
          spine[k].prev == if k == i + 1 then Before(spine, i) else Before(spine, k))
    && (forall k {:trigger spine[k].next} | 0 <= k < |spine| && k != i ::
          spine[k].next == if k + 1 == i then Behind(spine, i) else Behind(spine, k))
  }

  lemma BypassedLinks(spine: seq<Element>, i: nat)
    requires i < |spine| && Bypassed(spine, i)
    ensures Links(RemoveAt(spine, i))
  {
    var rest := RemoveAt(spine, i);
    forall j | 0 <= j < |rest|
      ensures rest[j].prev == Before(rest, j)
    {
      var k := if j < i then j else j + 1;
      assert spine[k].prev == if k == i + 1 then Before(spine, i) else Before(spine, k);
    }
    forall j | 0 <= j < |rest|
      ensures rest[j].next == Behind(rest, j)
    {
      var k := if j < i then j else j + 1;
      assert spine[k].next == if k + 1 == i then Behind(spine, i) else Behind(spine, k);
    }
  }

  /** The links once `el` has been hung behind the last element. */
  ghost predicate Hung(spine: seq<Element>, el: Element)
    reads spine, el
  {
    && el.prev == (if spine == [] then null else spine[|spine| - 1]) && el.next == null
    && (forall k {:trigger spine[k].prev} | 0 <= k < |spine| :: spine[k].prev == Before(spine, k))
    && (forall k {:trigger spine[k].next} | 0 <= k < |spine| ::
          spine[k].next == if k == |spine| - 1 then el else Behind(spine, k))
  }

  lemma HungLinks(spine: seq<Element>, el: Element)
    requires Hung(spine, el)
    ensures Links(spine + [el])
  {
    var more := spine + [el];
    forall j | 0 <= j < |more|
      ensures more[j].prev == Before(more, j) && more[j].next == Behind(more, j)
    {
      if j < |spine| {
        assert spine[j].prev == Before(spine, j);
        assert spine[j].next == if j == |spine| - 1 then el else Behind(spine, j);
      }
    }
  }

  ghost predicate Holds(spine: seq<Element>, ops: Ops)
    reads spine
  {
    && |spine| == |ops|
    && forall i {:trigger spine[i].value} {:trigger ops[i]} | 0 <= i < |spine| :: spine[i].value == ops[i]
  }

  lemma HoldsDropped(spine: seq<Element>, ops: Ops, i: nat)
    requires Holds(spine, ops) && i < |spine|
    ensures Holds(RemoveAt(spine, i), RemoveAt(ops, i))
  {
    forall j | 0 <= j < |spine| - 1
      ensures RemoveAt(spine, i)[j].value == RemoveAt(ops, i)[j]
    {
      assert spine[if j < i then j else j + 1].value == ops[if j < i then j else j + 1];
    }
  }

  /** The map is in bijection with the list whose elements and ids are given. */
  ghost predicate Indexes(items: map<string, Element>, spine: seq<Element>, ids: seq<string>) {
    && |ids| == |spine|
    && (forall i | 0 <= i < |ids| :: ids[i] in items && items[ids[i]] == spine[i])
    && (forall id {:trigger id in ids} | id in items :: id in ids)
  }

  lemma IndexesDropped(items: map<string, Element>, spine: seq<Element>, ids: seq<string>, i: nat)
    requires i < |spine| && Indexes(items, spine, ids) && AllDifferent(spine)
    ensures Indexes(items - {ids[i]}, RemoveAt(spine, i), RemoveAt(ids, i))
  {
    DiffersElsewhere(spine, i);
    forall j | 0 <= j < |ids| - 1
      ensures var id := RemoveAt(ids, i)[j]; id in items - {ids[i]} && items[id] == RemoveAt(spine, i)[j]
    {
      assert spine[if j < i then j else j + 1] != spine[i];
    }
    forall id | id in items - {ids[i]}
      ensures id in RemoveAt(ids, i)
    {
      assert id in ids;
      var k :| 0 <= k < |ids| && ids[k] == id;
      assert RemoveAt(ids, i)[if k < i then k else k - 1] == id;
    }
  }

  lemma IndexesAppended(items: map<string, Element>, spine: seq<Element>, ids: seq<string>, id: string, el: Element)
    requires Indexes(items, spine, ids) && id !in items
    ensures Indexes(items[id := el], spine + [el], ids + [id])
  {
  }

  /** Moving an element to the back keeps the bijection. */
  lemma IndexesMoved(items: map<string, Element>, spine: seq<Element>, ids: seq<string>, i: nat)
    requires i < |ids| && Indexes(items, spine, ids) && AllDifferent(spine)
    ensures Indexes(items, RemoveAt(spine, i) + [spine[i]], RemoveAt(ids, i) + [ids[i]])
  {
    IndexesDropped(items, spine, ids, i);
    var less := items - {ids[i]};
    IndexesAppended(less, RemoveAt(spine, i), RemoveAt(ids, i), ids[i], spine[i]);
    assert less[ids[i] := spine[i]] == items;
  }

  /** `ids` are the ids of `ops`, in order. */
  ghost predicate IdsOf(ids: seq<string>, ops: Ops) {
    |ids| == |ops| && forall i {:trigger ids[i]} {:trigger ops[i]} | 0 <= i < |ids| :: ops[i].id == ids[i]
  }

  lemma IdsDropped(ids: seq<string>, ops: Ops, i: nat)
    requires IdsOf(ids, ops) && i < |ids|
    ensures IdsOf(RemoveAt(ids, i), RemoveAt(ops, i))
  {
    forall j | 0 <= j < |ids| - 1
      ensures RemoveAt(ops, i)[j].id == RemoveAt(ids, i)[j]
    {
      assert ops[if j < i then j else j + 1].id == ids[if j < i then j else j + 1];
    }
  }

  lemma IdsAppended(ids: seq<string>, ops: Ops, op: Operation)
    requires IdsOf(ids, ops)
    ensures IdsOf(ids + [op.id], ops + [op])
  {
  }

  lemma IdsMoved(ids: seq<string>, ops: Ops, i: nat)
    requires IdsOf(ids, ops) && i < |ids|
    ensures IdsOf(RemoveAt(ids, i) + [ids[i]], RemoveAt(ops, i) + [ops[i]])
  {
    IdsDropped(ids, ops, i);
    assert ops[i].id == ids[i];
    IdsAppended(RemoveAt(ids, i), RemoveAt(ops, i), ops[i]);
  }

  /** The map finds the element that sits at the id's position. */
  lemma Located(items: map<string, Element>, spine: seq<Element>, ids: seq<string>, ops: Ops, id: string)
    requires Indexes(items, spine, ids) && IdsOf(ids, ops)
    ensures id in items <==> Find(ops, id) < |ops|
    ensures id in items ==> items[id] == spine[Find(ops, id)]
  {
    var i := Find(ops, id);
    if i < |ops| {
      assert ids[i] == id;
    }
    if id in items {
      assert id in ids;
      var k :| 0 <= k < |ids| && ids[k] == id;
      assert ops[k].id == id;
    }
  }

  const DEFAULT_CAPACITY: int := 256

  class Store {
    var items: map<string, Element>
    var front: Element?
    var back: Element?
    var len: nat
    const capacity: int
    /** The list's elements and the abstract history they hold, front to back. */
    ghost var spine: seq<Element>
    ghost var contents: Ops
    ghost var ids: seq<string>
    ghost var repr: set<Element>

    /** The doubly linked list is well formed and runs through `spine`. */
    ghost predicate Linked()
      reads this, repr
    {
      && len == |spine|
      && (forall i {:trigger spine[i]} | 0 <= i < |spine| :: spine[i] in repr)
      && AllDifferent(spine)
      && Holds(spine, contents)
      && Links(spine)
      && front == (if spine == [] then null else spine[0])
      && back == (if spine == [] then null else spine[|spine| - 1])
    }

    ghost predicate Valid()
      reads this, repr
    {
      Linked() && Indexes(items, spine, ids) && IdsOf(ids, contents)
    }

    constructor ()
      ensures Valid() && contents == [] && capacity == 256
    {
      items := map[];
      front, back, len := null, null, 0;
      capacity := DEFAULT_CAPACITY;
      spine, contents, ids, repr := [], [], [], {};
    }

    // ---------- container/list ----------

    /** The relinking inside List.PushBack. */
    method Hang(el: Element)
      requires Linked() && el !in spine
      modifies this`front, this`back, el`prev, el`next, repr`next
      ensures Hung(spine, el) && Holds(spine, contents)
      ensures front == (if spine == [] then el else spine[0]) && back == el
    {
      el.prev, el.next := back, null;
      if back == null {
        front := el;
      } else {
        DiffersElsewhere(spine, |spine| - 1);
        back.next := el;
      }
      back := el;
    }

    /** List.PushBack of an element that is not in the list. */
    method Append(el: Element)
      requires Linked() && el !in spine
      modifies this`front, this`back, this`len, this`spine, this`contents, this`repr, el`prev, el`next, repr`next
      ensures repr == old(repr) + {el}
      ensures Linked() && spine == old(spine) + [el] && contents == old(contents) + [el.value]
    {
      AllDifferentAppended(spine, el);
      Hang(el);
      HungLinks(spine, el);
      len := len + 1;
      spine, contents, repr := spine + [el], contents + [el.value], repr + {el};
    }

    /** The relinking inside List.Remove: the neighbours of position `i` are joined. */
    method Bypass(el: Element, ghost i: nat)
      requires Linked() && i < |spine| && spine[i] == el
      modifies this`front, this`back, repr`prev, repr`next
      ensures Bypassed(spine, i) && Holds(spine, contents)
      ensures front == if i == 0 then Behind(spine, 0) else spine[0]
      ensures back == if i == |spine| - 1 then Before(spine, i) else spine[|spine| - 1]
    {
      assert el.prev == Before(spine, i) && el.next == Behind(spine, i);
      DiffersElsewhere(spine, i);
      if i > 0 {
        DiffersElsewhere(spine, i - 1);
      }
      if i + 1 < |spine| {
        DiffersElsewhere(spine, i + 1);
      }
      if el.prev == null {
        front := el.next;
      } else {
        el.prev.next := el.next;
      }
      if el.next == null {
        back := el.prev;
      } else {
        el.next.prev := el.prev;
      }
      el.prev, el.next := null, null;
    }

    /** List.Remove. */
    method Unlink(el: Element, ghost i: nat)
      requires Linked() && i < |spine| && spine[i] == el
      modifies this`front, this`back, this`len, this`spine, this`contents, repr`prev, repr`next
      ensures Linked() && spine == RemoveAt(old(spine), i) && contents == RemoveAt(old(contents), i)
      ensures el !in spine
    {
      AllDifferentDropped(spine, i);
      Bypass(el, i);
      BypassedLinks(spine, i);
      HoldsDropped(spine, contents, i);
      len := len - 1;
      spine, contents := RemoveAt(spine, i), RemoveAt(contents, i);
    }

    // ---------- eviction ----------

    method FindEvictable() returns (victim: Element?)
      requires Valid()
      ensures victim == null <==> OldestFinished(contents) == |spine|
      ensures victim != null ==> victim == spine[OldestFinished(contents)]
    {
      ghost var k := 0;
      victim := front;
      while victim != null
        invariant 0 <= k <= |spine|
        invariant victim == if k == |spine| then null else spine[k]
        invariant forall j | 0 <= j < k :: contents[j].status == Running
        decreases |spine| - k
      {
        assert victim == spine[k] && contents[k] == victim.value;
        if victim.value.status != Running {
          return;
        }
        victim := victim.next;
        k := k + 1;
      }
    }

    /** Taking the element at `i` out of both the list and the map. */
    method Drop(el: Element, ghost i: nat)
      requires Valid() && i < |spine| && spine[i] == el
      modifies this, repr`prev, repr`next
      ensures Valid() && contents == RemoveAt(old(contents), i) && spine == RemoveAt(old(spine), i) && repr == old(repr)
    {
      var id := el.value.id;
      assert el.value == contents[i] && contents[i].id == ids[i];
      IndexesDropped(items, spine, ids, i);
      IdsDropped(ids, contents, i);
      items, ids := items - {id}, RemoveAt(ids, i);
      Unlink(el, i);
    }

    method EvictExcess()
      requires Valid()
      modifies this, repr`prev, repr`next
      ensures Valid() && contents == Evict(old(contents), capacity) && repr == old(repr)
    {
      if capacity <= 0 {
        return;
      }
      while len > capacity
        invariant Valid() && repr == old(repr)
        invariant Evict(contents, capacity) == Evict(old(contents), capacity)
        decreases len
      {
        var victim := FindEvictable();
        if victim == null {
          return;
        }
        Drop(victim, OldestFinished(contents));
      }
    }

    // ---------- the calls ----------

    /** el.Value = op for an operation that keeps its id. */
    method SetValue(el: Element, op: Operation, ghost i: nat)
      requires Valid() && i < |spine| && spine[i] == el && op.id == contents[i].id
      modifies this`contents, el`value
      ensures Valid() && contents == old(contents)[i := op]
    {
      DiffersElsewhere(spine, i);
      el.value := op;
      contents := contents[i := op];
    }

    /** List.MoveToBack. */
    method MoveToBack(el: Element, ghost i: nat)
      requires Valid() && i < |spine| && spine[i] == el
      modifies this`front, this`back, this`len, this`spine, this`contents, this`ids, this`repr, repr`prev, repr`next
      ensures Valid() && contents == RemoveAt(old(contents), i) + [old(contents)[i]]
      ensures repr == old(repr)
    {
      assert el.value == contents[i];
      IndexesMoved(items, spine, ids, i);
      IdsMoved(ids, contents, i);
      ids := RemoveAt(ids, i) + [ids[i]];
      Unlink(el, i);
      Append(el);
    }

    /** A new element at the back, and its map entry. */
    method Insert(op: Operation)
      requires Valid() && op.id !in items
      modifies this, repr
      ensures Valid() && fresh(repr - old(repr)) && contents == old(contents) + [op]
    {
      var el := new Element(op);
      ghost var before, ops := spine, contents;
      Append(el);
      Index(op.id, el, before, ops);
    }

    /** The map entry of the element that was just appended. */
    method Index(id: string, el: Element, ghost before: seq<Element>, ghost ops: Ops)
      requires Linked() && spine == before + [el] && contents == ops + [el.value] && el.value.id == id
      requires id !in items && Indexes(items, before, ids) && IdsOf(ids, ops)
      modifies this`items, this`ids
      ensures Valid()
    {
      IndexesAppended(items, before, ids, id, el);
      IdsAppended(ids, ops, el.value);
      items, ids := items[id := el], ids + [id];
    }

    method Create(id: string, kind: string, now: string) returns (op: Operation)
      requires Valid()
      modifies this, repr
      ensures Valid() && fresh(repr - old(repr))
      ensures op == Created(id, kind, now)
      ensures contents == Apply(old(contents), capacity, Call.Create(id, kind, now))
    {
      op := Created(id, kind, now);
      Located(items, spine, ids, contents, id);
      if id in items {
        var existing := items[id];
        ghost var i := Find(contents, id);
        SetValue(existing, op, i);
        MoveToBack(existing, i);
        assert RemoveAt(old(contents)[i := op], i) == RemoveAt(old(contents), i);
        return;
      }
      Insert(op);
      EvictExcess();
    }

    method Get(id: string) returns (r: Option<Operation>)
      requires Valid()
      ensures r == var i := Find(contents, id); if i < |contents| then Some(contents[i]) else None
    {
      Located(items, spine, ids, contents, id);
      if id !in items {
        return None;
      }
      return Some(items[id].value);
    }

    method Succeed(id: string, output: string, summary: Summary, now: string)
      requires Valid()
      modifies this, repr
      ensures Valid() && repr == old(repr)
      ensures contents == Apply(old(contents), capacity, Call.Succeed(id, output, summary, now))
    {
      Located(items, spine, ids, contents, id);
      if id !in items {
        return;
      }
      var el := items[id];
      var op := el.value;
      op := op.(status := Succeeded, finishedAt := now, output := output, summary := summary);
      op := op.(progress := Progress(op.progress.total, summary.processed, summary.changed, summary.skipped,
                                     summary.errors, "finished", summary));
      SetValue(el, op, Find(contents, id));
      EvictExcess();
    }

    method Fail(id: string, message: string, now: string)
      requires Valid()
      modifies this, repr
      ensures Valid() && repr == old(repr)
      ensures contents == Apply(old(contents), capacity, Call.Fail(id, message, now))
    {
      Located(items, spine, ids, contents, id);
      if id !in items {
        return;
      }
      var el := items[id];
      var op := el.value;
      op := op.(status := Failed, finishedAt := now);
      op := op.(progress := op.progress.(stage := "failed", errors := op.progress.errors + 1));
      op := op.(error := Some(message));
      assert op == FailedOp(contents[Find(contents, id)], message, now);
      SetValue(el, op, Find(contents, id));
      EvictExcess();
    }

    method ReportProgress(id: string, progress: Progress)
      requires Valid()
      modifies this, repr
      ensures Valid() && repr == old(repr)
      ensures contents == Apply(old(contents), capacity, Report(id, progress))
    {
      Located(items, spine, ids, contents, id);
      if id !in items {
        return;
      }
      var el := items[id];
      SetValue(el, el.value.(progress := progress), Find(contents, id));
    }
  }
}
