/** The event queue of a connection (rplayd/connection.c).

  Events are a linked list; c->ep is the address of the slot behind the last one.  Here `ep` is the event
  whose `next` is that slot, or null for the slot c->event itself.  The type of the head event decides in
  which select() mask the connection is.
 */
module EventQueue {

  datatype EventType =
    | ReadCommand | Connect | ReadConnectReply | WriteFind | ReadFindReply | WriteGet | ReadGetReply | ReadSound
    | Write | WriteSound | WriteTimeout | Notify | ReadFlow | WaitFlow | PipeFlow | WriteMonitor | WaitMonitor

  predicate Reads(t: EventType) {
    t.ReadCommand? || t.ReadSound? || t.ReadConnectReply? || t.ReadFindReply? || t.ReadGetReply? || t.Notify?
    || t.ReadFlow? || t.WaitMonitor?
  }

  predicate Writes(t: EventType) {
    t.Write? || t.WriteSound? || t.WriteFind? || t.WriteGet? || t.Connect? || t.WriteTimeout? || t.WriteMonitor?
  }

  /** An event as a value: its type and, for flows, the spool it belongs to. */
  datatype Item = Item(kind: EventType, id: int)

  class Event {
    var next: Event?
    var kind: EventType
    const id: int

    /** event_create(). */
    constructor (kind: EventType, id: int)
      ensures this.kind == kind && this.id == id && next == null
    {
      this.kind, this.id := kind, id;
      next := null;
    }
  }

  /** read_mask and write_mask. */
  class FdSets {
    var readMask: set<int>
    var writeMask: set<int>
  }

  // ----- the queue as a sequence of items

  /** The first item of a kind in `mask`, or the end. */
  function FirstIn(q: seq<Item>, mask: set<EventType>): (k: nat)
    ensures k <= |q|
    ensures forall i :: 0 <= i < k ==> q[i].kind !in mask
    ensures k < |q| ==> q[k].kind in mask
  {
    if q == [] || q[0].kind in mask then 0 else 1 + FirstIn(q[1..], mask)
  }

  /** The first item that is exactly this one, or the end. */
  function Find(q: seq<Item>, x: Item): (k: nat)
    ensures k <= |q|
    ensures forall i :: 0 <= i < k ==> q[i] != x
    ensures k < |q| ==> q[k] == x
  {
    if q == [] || q[0] == x then 0 else 1 + Find(q[1..], x)
  }

  function Changed(q: seq<Item>, x: Item, kind: EventType): (r: seq<Item>)
    ensures |r| == |q|
  {
    var k := Find(q, x);
    if k < |q| then q[k := Item(kind, x.id)] else q
  }

  datatype Op =
    | First(item: Item) | Insert(item: Item) | InsertBefore(item: Item, mask: set<EventType>) | Replace(item: Item)
    | Delete(replace: bool) | PauseFlow(id: int) | ContinueFlow(id: int)

  /** What an empty queue of a client gets back when its last event is deleted. */
  function Idle(notifying: bool): Item {
    Item(if notifying then Notify else ReadCommand, 0)
  }

  /** Each queue operation on the sequence. */
  function Apply(q: seq<Item>, op: Op, client: bool, notifying: bool): seq<Item> {
    match op
    case First(x) => [x] + q
    case Insert(x) => q + [x]
    case InsertBefore(x, mask) => var k := FirstIn(q, mask); q[..k] + [x] + q[k..]
    case Replace(x) => [x] + (if q == [] then [] else q[1..])
    case Delete(replace) =>
      if q == [] then []
      else if |q| == 1 && replace && client then [Idle(notifying)]
      else q[1..]
    case PauseFlow(id) => Changed(q, Item(ReadFlow, id), WaitFlow)
    case ContinueFlow(id) => Changed(q, Item(WaitFlow, id), ReadFlow)
  }

  // ----- the linked queue

  function NextOf(q: seq<Event>, i: nat): Event? {
    if i + 1 < |q| then q[i + 1] else null
  }

  function Head(q: seq<Event>): Event? {
    if q == [] then null else q[0]
  }

  function Last(q: seq<Event>): Event? {
    if q == [] then null else q[|q| - 1]
  }

  ghost predicate Linked(q: seq<Event>)
    reads q
  {
    forall i :: 0 <= i < |q| ==> q[i].next == NextOf(q, i)
  }

  predicate Distinct(q: seq<Event>) {
    forall i, j :: 0 <= i < j < |q| ==> q[i] != q[j]
  }

  lemma LinkedCons(e: Event, q: seq<Event>)
    requires Linked(q) && Distinct(q) && e !in q && e.next == Head(q)
    ensures Linked([e] + q) && Distinct([e] + q) && Head([e] + q) == e && Last([e] + q) == if q == [] then e else Last(q)
  {
    var r := [e] + q;
    forall i | 0 <= i < |r| ensures r[i].next == NextOf(r, i) {
      if i > 0 {
        assert r[i] == q[i - 1] && q[i - 1].next == NextOf(q, i - 1);
      }
    }
  }

  lemma LinkedSnoc(q: seq<Event>, e: Event)
    requires Distinct(q) && e !in q && e.next == null
    requires forall i :: 0 <= i < |q| ==> q[i].next == NextOf(q + [e], i)
    ensures Linked(q + [e]) && Distinct(q + [e]) && Head(q + [e]) == (if q == [] then e else Head(q)) && Last(q + [e]) == e
  {
  }

  lemma LinkedInserted(q: seq<Event>, e: Event, i: nat)
    requires Distinct(q) && e !in q && i < |q| && q[i].next == e && e.next == NextOf(q, i)
    requires forall j :: 0 <= j < |q| && j != i ==> q[j].next == NextOf(q, j)
    ensures var r := q[..i + 1] + [e] + q[i + 1..];
            Linked(r) && Distinct(r) && Head(r) == Head(q) && Last(r) == if i + 1 == |q| then e else Last(q)
  {
    var r := q[..i + 1] + [e] + q[i + 1..];
    InsertedAt(q, e, i + 1, r);
    forall j | 0 <= j < |r| ensures r[j].next == NextOf(r, j) {
      if j > i + 1 {
        assert r[j] == q[j - 1];
      }
    }
  }

  lemma LinkedTail(q: seq<Event>)
    requires Linked(q) && Distinct(q) && q != []
    ensures Linked(q[1..]) && Distinct(q[1..]) && q[0].next == Head(q[1..]) && q[0] !in q[1..]
    ensures q[1..] != [] ==> Last(q[1..]) == Last(q)
  {
    var r := q[1..];
    assert q[0].next == NextOf(q, 0);
    forall i | 0 <= i < |r| ensures r[i].next == NextOf(r, i) {
      assert r[i] == q[i + 1] && q[i + 1].next == NextOf(q, i + 1);
    }
  }

  class Connection {
    var event: Event?
    var ep: Event?
    const fd: int
    const client: bool
    var notifying: bool
    ghost var queue: seq<Event>

    ghost predicate Valid()
      reads this, queue
    {
      && Distinct(queue)
      && event == Head(queue) && ep == Last(queue)
      && Linked(queue)
    }

    /** The queue as values. */
    ghost function Items(): (q: seq<Item>)
      reads this, queue
      ensures |q| == |queue|
    {
      seq(|queue|, i requires 0 <= i < |queue| reads this, queue => Item(queue[i].kind, queue[i].id))
    }

    /** The masks hold the connection as its head event wants it. */
    ghost predicate Selected(fds: FdSets)
      reads this, queue, fds
    {
      && (fd in fds.readMask <==> queue != [] && Reads(queue[0].kind))
      && (fd in fds.writeMask <==> queue != [] && Writes(queue[0].kind))
    }

    /** A connection without events. */
    constructor (fd: int, client: bool, notifying: bool)
      ensures Valid() && queue == [] && this.fd == fd && this.client == client && this.notifying == notifying
    {
      this.fd, this.client, this.notifying := fd, client, notifying;
      event, ep, queue := null, null, [];
    }

    /** connection_update_fdset(). */
    method UpdateFdset(fds: FdSets)
      requires Valid()
      modifies fds
      ensures Selected(fds)
      ensures forall f :: f != fd ==> (f in fds.readMask <==> f in old(fds.readMask)) && (f in fds.writeMask <==> f in old(fds.writeMask))
    {
      fds.readMask := fds.readMask - {fd};
      fds.writeMask := fds.writeMask - {fd};
      if event == null { return; }
      match event.kind {
        case ReadCommand | ReadSound | ReadConnectReply | ReadFindReply | ReadGetReply | Notify | ReadFlow | WaitMonitor =>
          fds.readMask := fds.readMask + {fd};
        case Write | WriteSound | WriteFind | WriteGet | Connect | WriteTimeout | WriteMonitor =>
          fds.writeMask := fds.writeMask + {fd};
        case WaitFlow | PipeFlow =>
      }
    }

    /** event_first(), with one event. */
    method EventFirst(e: Event, fds: FdSets)
      requires Valid() && e !in queue && e.next == null
      modifies this, e, fds
      ensures Valid() && queue == [e] + old(queue) && Selected(fds)
      ensures Items() == [Item(e.kind, e.id)] + old(Items())
      ensures e.kind == old(e.kind) && notifying == old(notifying)
      ensures forall f :: f != fd ==> (f in fds.readMask <==> f in old(fds.readMask)) && (f in fds.writeMask <==> f in old(fds.writeMask))
    {
      e.next := event;
      event := e;
      if event.next == null {
        ep := event;
      }
      ghost var q := queue;
      queue := [e] + q;
      LinkedCons(e, q);
      hide Linked, Distinct;
      UpdateFdset(fds);
    }

    /** event_insert(), with one event. */
    method EventInsert(e: Event, fds: FdSets)
      requires Valid() && e !in queue && e.next == null && (queue == [] || Selected(fds))
      modifies this, queue, e, fds
      ensures Valid() && queue == old(queue) + [e] && Selected(fds)
      ensures Items() == old(Items()) + [Item(e.kind, e.id)]
      ensures e.kind == old(e.kind) && notifying == old(notifying) && forall x :: x in old(queue) ==> x.kind == old(x.kind)
      ensures forall f :: f != fd ==> (f in fds.readMask <==> f in old(fds.readMask)) && (f in fds.writeMask <==> f in old(fds.writeMask))
    {
      if ep == null {
        event := e;
      } else {
        ep.next := e;
      }
      ep := e;
      ghost var q := queue;
      queue := q + [e];
      LinkedSnoc(q, e);
      hide Linked, Distinct;
      if event == e {
        UpdateFdset(fds);
      }
    }

    /** The last event before the first one of a kind in `mask`. */
    method FindBefore(mask: set<EventType>) returns (at: Event)
      requires Valid() && queue != [] && queue[0].kind !in mask
      ensures 0 < FirstIn(Items(), mask) && at == queue[FirstIn(Items(), mask) - 1]
    {
      ghost var items := Items();
      at := event;
      ghost var i: nat := 0;
      while at.next != null && at.next.kind !in mask
        invariant i < |queue| && at == queue[i]
        invariant forall j :: 0 <= j <= i ==> items[j].kind !in mask
        decreases |queue| - i
      {
        assert queue[i].next == NextOf(queue, i);
        i := i + 1;
        at := at.next;
      }
      assert queue[i].next == NextOf(queue, i);
      FirstInIs(items, mask, i + 1);
    }

    /** Links `e` in behind `at`. */
    method InsertBehind(at: Event, ghost i: nat, e: Event)
      requires Valid() && i < |queue| && at == queue[i] && e !in queue
      modifies this, at`next, e`next
      ensures Valid() && queue == old(queue)[..i + 1] + [e] + old(queue)[i + 1..]
      ensures notifying == old(notifying)
    {
      ghost var q := queue;
      assert q[i].next == NextOf(q, i);
      e.next := at.next;
      at.next := e;
      if e.next == null {
        ep := e;
      }
      queue := q[..i + 1] + [e] + q[i + 1..];
      InsertedAt(q, e, i + 1, queue);
      assert e.next == NextOf(q, i) && at.next == e;
      assert forall j :: 0 <= j < |q| && j != i ==> q[j].next == NextOf(q, j);
      LinkedInserted(q, e, i);
    }

    /** event_insert_before(), with one event. */
    method EventInsertBefore(e: Event, mask: set<EventType>, fds: FdSets)
      requires Valid() && e !in queue && e.next == null && (queue == [] || Selected(fds))
      modifies this, queue, e, fds
      ensures Valid() && Selected(fds)
      ensures var k := FirstIn(old(Items()), mask); queue == old(queue)[..k] + [e] + old(queue)[k..]
      ensures var k := FirstIn(old(Items()), mask); Items() == old(Items())[..k] + [Item(e.kind, e.id)] + old(Items())[k..]
      ensures e.kind == old(e.kind) && notifying == old(notifying) && forall x :: x in old(queue) ==> x.kind == old(x.kind)
      ensures forall f :: f != fd ==> (f in fds.readMask <==> f in old(fds.readMask)) && (f in fds.writeMask <==> f in old(fds.writeMask))
    {
      hide Distinct, Last, Linked, Reads, Writes;
      assert event == (if queue == [] then null else queue[0]);
      ghost var q := queue;
      if event == null || event.kind in mask {
        assert FirstIn(Items(), mask) == 0;
        assert q[..0] + [e] + q[0..] == [e] + q;
        EventFirst(e, fds);
      } else {
        var at := FindBefore(mask);
        InsertBehind(at, FirstIn(Items(), mask) - 1, e);
      }
    }

    /** event_replace(), with one event. */
    method EventReplace(e: Event, fds: FdSets)
      requires Valid() && e !in queue && e.next == null
      modifies this, e, fds
      ensures Valid() && queue == [e] + (if old(queue) == [] then [] else old(queue)[1..]) && Selected(fds)
      ensures Items() == [Item(e.kind, e.id)] + (if old(Items()) == [] then [] else old(Items())[1..])
      ensures e.kind == old(e.kind) && notifying == old(notifying)
      ensures forall f :: f != fd ==> (f in fds.readMask <==> f in old(fds.readMask)) && (f in fds.writeMask <==> f in old(fds.writeMask))
    {
      ghost var q := queue;
      ghost var rest := if q == [] then [] else q[1..];
      if q != [] {
        LinkedTail(q);
      }
      hide Linked, Distinct;
      if event != null {
        e.next := event.next;
      }
      event := e;
      if event.next == null {
        ep := event;
      }
      queue := [e] + rest;
      LinkedCons(e, rest);
      UpdateFdset(fds);
    }

    /** event_delete(). */
    method EventDelete(replace: bool, fds: FdSets)
      requires Valid()
      modifies this, fds
      ensures Valid() && Selected(fds) && notifying == old(notifying)
      ensures forall x :: x in queue ==> x in old(queue) || fresh(x)
      ensures Items() == Apply(old(Items()), Delete(replace), client, notifying)
      ensures forall f :: f != fd ==> (f in fds.readMask <==> f in old(fds.readMask)) && (f in fds.writeMask <==> f in old(fds.writeMask))
    {
      if event == null {
        UpdateFdset(fds);
        return;
      }
      ghost var q, items := queue, Items();
      LinkedTail(q);
      hide Linked, Distinct;
      event := event.next;
      queue := q[1..];
      assert Items() == items[1..];
      if event == null {
        assert queue == [];
        ep := null;
        if replace && client {
          InsertIdle(fds);
        }
      }
      UpdateFdset(fds);
    }

    /** An idle event for an empty queue. */
    method InsertIdle(fds: FdSets)
      requires Valid() && queue == []
      modifies this, fds
      ensures Valid() && Items() == [Idle(notifying)] && notifying == old(notifying)
      ensures forall x :: x in queue ==> fresh(x)
      ensures forall f :: f != fd ==> (f in fds.readMask <==> f in old(fds.readMask)) && (f in fds.writeMask <==> f in old(fds.writeMask))
    {
      hide Linked, Distinct;
      var e;
      if notifying {
        e := new Event(Notify, 0);
      } else {
        e := new Event(ReadCommand, 0);
      }
      EventInsert(e, fds);
    }

    /** The inner loop of connection_flow_pause and connection_flow_continue: the first event of kind `from`
        of the spool becomes `to`. */
    method ChangeFlow(id: int, from: EventType, to: EventType, fds: FdSets)
      requires Valid() && Selected(fds)
      modifies queue, fds
      ensures Valid() && Selected(fds)
      ensures Items() == Changed(old(Items()), Item(from, id), to)
      ensures forall f :: f != fd ==> (f in fds.readMask <==> f in old(fds.readMask)) && (f in fds.writeMask <==> f in old(fds.writeMask))
    {
      ghost var items := Items();
      var e := event;
      ghost var i := 0;
      while e != null && !(e.kind == from && e.id == id)
        invariant i <= |queue| && e == if i < |queue| then queue[i] else null
        invariant forall j :: 0 <= j < i ==> items[j] != Item(from, id)
        decreases |queue| - i
      {
        assert queue[i].next == NextOf(queue, i);
        e := e.next;
        i := i + 1;
      }
      FindIs(items, Item(from, id), i);
      hide Find;
      if e != null {
        SetKind(e, i, to, fds);
      }
    }

    /** e->type = to, and the masks if `e` is the head. */
    method SetKind(e: Event, ghost i: nat, to: EventType, fds: FdSets)
      requires Valid() && Selected(fds) && i < |queue| && e == queue[i]
      modifies e`kind, fds
      ensures Valid() && Selected(fds) && Items() == old(Items())[i := Item(to, e.id)]
      ensures forall f :: f != fd ==> (f in fds.readMask <==> f in old(fds.readMask)) && (f in fds.writeMask <==> f in old(fds.writeMask))
    {
      ghost var items := Items();
      e.kind := to;
      assert Items() == items[i := Item(to, e.id)];
      if event == e {
        UpdateFdset(fds);
      }
    }
  }

  lemma {:induction false} FirstInIs(q: seq<Item>, mask: set<EventType>, k: nat)
    requires k <= |q| && forall i :: 0 <= i < k ==> q[i].kind !in mask
    requires k < |q| ==> q[k].kind in mask
    ensures FirstIn(q, mask) == k
  {
    if k > 0 {
      FirstInIs(q[1..], mask, k - 1);
    }
  }

  lemma InsertedAt<T>(q: seq<T>, e: T, k: nat, r: seq<T>)
    requires k <= |q| && r == q[..k] + [e] + q[k..]
    ensures |r| == |q| + 1 && r[k] == e
    ensures forall i :: 0 <= i < k ==> r[i] == q[i]
    ensures forall i :: k < i < |r| ==> r[i] == q[i - 1]
  {
  }

  lemma {:induction false} FindIs(q: seq<Item>, x: Item, k: nat)
    requires k <= |q| && forall i :: 0 <= i < k ==> q[i] != x
    requires k < |q| ==> q[k] == x
    ensures Find(q, x) == k
  {
    if k > 0 {
      FindIs(q[1..], x, k - 1);
    }
  }

  // ----- whole runs of queue operations

  /** A run of operations on the sequence. */
  function ApplyAll(q: seq<Item>, ops: seq<Op>, client: bool, notifying: bool): seq<Item> {
    if ops == [] then q
    else Apply(ApplyAll(q, ops[..|ops| - 1], client, notifying), ops[|ops| - 1], client, notifying)
  }

  /** One operation, with an event made for it. */
  method Perform(c: Connection, fds: FdSets, op: Op)
    requires c.Valid() && c.Selected(fds)
    modifies c, c.queue, fds
    ensures c.Valid() && c.Selected(fds) && c.notifying == old(c.notifying)
    ensures c.Items() == Apply(old(c.Items()), op, c.client, c.notifying)
    ensures forall x :: x in c.queue ==> x in old(c.queue) || fresh(x)
    ensures forall f :: f != c.fd ==> (f in fds.readMask <==> f in old(fds.readMask)) && (f in fds.writeMask <==> f in old(fds.writeMask))
  {
    hide Changed, Connection.Items, Connection.Selected, Connection.Valid, FirstIn, Idle;
    match op {
      case First(x) =>
        var e := new Event(x.kind, x.id);
        c.EventFirst(e, fds);
      case Insert(x) =>
        var e := new Event(x.kind, x.id);
        c.EventInsert(e, fds);
      case InsertBefore(x, mask) =>
        var e := new Event(x.kind, x.id);
        c.EventInsertBefore(e, mask, fds);
      case Replace(x) =>
        var e := new Event(x.kind, x.id);
        c.EventReplace(e, fds);
      case Delete(replace) =>
        c.EventDelete(replace, fds);
      case PauseFlow(id) =>
        c.ChangeFlow(id, ReadFlow, WaitFlow, fds);
      case ContinueFlow(id) =>
        c.ChangeFlow(id, WaitFlow, ReadFlow, fds);
    }
  }

  /** After any run of operations the list is the sequence, ep its last slot, and the masks follow its head. */
  method PerformAll(c: Connection, fds: FdSets, ops: seq<Op>)
    requires c.Valid() && c.Selected(fds)
    modifies c, c.queue, fds
    ensures c.Valid() && c.Selected(fds)
    ensures c.Items() == ApplyAll(old(c.Items()), ops, c.client, old(c.notifying))
  {
    hide Apply, Connection.Items, Connection.Selected, Connection.Valid;
    var i := 0;
    assert c.Items() == ApplyAll(c.Items(), ops[..0], c.client, c.notifying);
    while i < |ops|
      invariant 0 <= i <= |ops| && c.Valid() && c.Selected(fds) && c.notifying == old(c.notifying)
      invariant c.Items() == ApplyAll(old(c.Items()), ops[..i], c.client, c.notifying)
      invariant forall x :: x in c.queue ==> x in old(c.queue) || fresh(x)
    {
      assert forall k :: 0 <= k < |c.queue| ==> c.queue[k] in old(c.queue) || fresh(c.queue[k]);
      Perform(c, fds, ops[i]);
      assert ops[..i + 1][..i] == ops[..i];
      assert ApplyAll(old(c.Items()), ops[..i + 1], c.client, c.notifying)
          == Apply(ApplyAll(old(c.Items()), ops[..i], c.client, c.notifying), ops[i], c.client, c.notifying);
      i := i + 1;
    }
    assert ops[..i] == ops;
  }

  /** Different connections have different descriptors and share no events. */
  ghost predicate Separate(conns: seq<Connection>)
    reads conns
  {
    forall k, l :: 0 <= k < l < |conns| ==>
      && conns[k] != conns[l] && conns[k].fd != conns[l].fd
      && forall a, b :: 0 <= a < |conns[k].queue| && 0 <= b < |conns[l].queue| ==> conns[k].queue[a] != conns[l].queue[b]
  }

  /** connection_flow_pause and connection_flow_continue: in every connection the first event of kind `from`
      of the spool becomes `to`, and the masks follow. */
  method ChangeFlows(conns: seq<Connection>, id: int, from: EventType, to: EventType, fds: FdSets)
    requires Separate(conns)
    requires forall k :: 0 <= k < |conns| ==> conns[k].Valid() && conns[k].Selected(fds)
    modifies set k, a | 0 <= k < |conns| && 0 <= a < |conns[k].queue| :: conns[k].queue[a]
    modifies fds
    ensures forall k :: 0 <= k < |conns| ==> conns[k].Valid() && conns[k].Selected(fds)
    ensures forall k :: 0 <= k < |conns| ==> conns[k].Items() == Changed(old(conns[k].Items()), Item(from, id), to)
  {
    hide *;
    ghost var events := set k, a | 0 <= k < |conns| && 0 <= a < |conns[k].queue| :: conns[k].queue[a];
    var i := 0;
    while i < |conns|
      invariant 0 <= i <= |conns|
      invariant forall k :: 0 <= k < |conns| ==> conns[k].Valid() && conns[k].Selected(fds)
      invariant forall k :: 0 <= k < i ==> conns[k].Items() == Changed(old(conns[k].Items()), Item(from, id), to)
      invariant forall k :: i <= k < |conns| ==> conns[k].Items() == old(conns[k].Items())
    {
      assert forall a :: 0 <= a < |conns[i].queue| ==> conns[i].queue[a] in events;
      ChangeOneFlow(conns, i, id, from, to, fds);
      i := i + 1;
    }
  }

  /** One connection; the others keep their events and their places in the masks. */
  method ChangeOneFlow(conns: seq<Connection>, i: nat, id: int, from: EventType, to: EventType, fds: FdSets)
    requires i < |conns| && Separate(conns)
    requires forall k :: 0 <= k < |conns| ==> conns[k].Valid() && conns[k].Selected(fds)
    modifies conns[i].queue, fds
    ensures forall k :: 0 <= k < |conns| ==> conns[k].Valid() && conns[k].Selected(fds)
    ensures conns[i].Items() == Changed(old(conns[i].Items()), Item(from, id), to)
    ensures forall k :: 0 <= k < |conns| && k != i ==> conns[k].Items() == old(conns[k].Items())
  {
    hide Changed, Connection.Items, Connection.Valid, Reads, Writes;
    conns[i].ChangeFlow(id, from, to, fds);
    forall k | 0 <= k < |conns| && k != i
      ensures conns[k].Valid() && conns[k].Selected(fds) && conns[k].Items() == old(conns[k].Items())
    {
      assert forall a, b :: 0 <= a < |conns[k].queue| && 0 <= b < |conns[i].queue| ==> conns[k].queue[a] != conns[i].queue[b];
      assert conns[k].fd != conns[i].fd;
      assert conns[k].Selected(fds);
    }
  }

  /** Continuing a flow undoes pausing it exactly when no event of the spool waits ahead of the first one
      that reads. */
  lemma ContinueUndoesPauseIff(q: seq<Item>, id: int)
    ensures Apply(Apply(q, PauseFlow(id), true, true), ContinueFlow(id), true, true) == q
            <==> Find(q, Item(ReadFlow, id)) <= Find(q, Item(WaitFlow, id))
  {
    var reading, waiting := Item(ReadFlow, id), Item(WaitFlow, id);
    var r, w := Find(q, reading), Find(q, waiting);
    if r < |q| {
      var p := q[r := waiting];
      FindIs(p, waiting, if w < r then w else r);
      if r < w {
        assert p[r := reading] == q;
      } else {
        assert p[w := reading][r] == waiting && q[r] == reading;
      }
    } else if w < |q| {
      assert q[w := reading][w] != q[w];
    }
  }
}
