/** The hlist of list.h: a singly linked chain in which every node knows the slot that points to it. */
module HashList {
  import opened Sequences

  /** A pprev pointer: the address of a head's first field or of a node's next field.  hlist_del
      leaves the poison value behind, which is not null. */
  datatype Slot = NullSlot | PoisonSlot | FirstOf(head: HListHead) | NextOf(node: HListNode)

  class HListHead {
    var first: HListNode?

    /** INIT_HLIST_HEAD. */
    constructor ()
      ensures HList(this, [])
    {
      first := null;
    }
  }

  class HListNode {
    var next: HListNode?
    var pprev: Slot

    /** INIT_HLIST_NODE. */
    constructor ()
      ensures next == null && pprev == NullSlot
    {
      next, pprev := null, NullSlot;
    }
  }

  /** What stands behind the first k nodes: the next node, or null. */
  ghost function NodeOr(ns: seq<HListNode>, k: nat): HListNode? {
    if k < |ns| then ns[k] else null
  }

  /** The slot that leads to position k of the chain. */
  ghost function SlotOf(h: HListHead, ns: seq<HListNode>, k: nat): Slot
    requires k <= |ns|
  {
    if k == 0 then FirstOf(h) else NextOf(ns[k - 1])
  }

  /** h is the head of the chain ns, with every back-pointer in place. */
  ghost predicate HList(h: HListHead, ns: seq<HListNode>)
    reads h, ns
  {
    && Distinct(ns) && h.first == NodeOr(ns, 0)
    && (forall i {:trigger ns[i].next} :: 0 <= i < |ns| ==> ns[i].next == NodeOr(ns, i + 1))
    && (forall i {:trigger ns[i].pprev} :: 0 <= i < |ns| ==> ns[i].pprev == SlotOf(h, ns, i))
  }

  /** What a slot holds. */
  ghost function Deref(s: Slot): HListNode?
    reads match s case FirstOf(h) => {h as object} case NextOf(n) => {n as object} case _ => {}
  {
    match s
    case FirstOf(h) => h.first
    case NextOf(n) => n.next
    case _ => null
  }

  /** The back-pointer of a node names the one slot of the chain that points to it. */
  lemma UniqueSlot(h: HListHead, ns: seq<HListNode>, i: nat, k: nat)
    requires HList(h, ns) && i < |ns| && k <= |ns|
    ensures Deref(ns[i].pprev) == ns[i]
    ensures Deref(SlotOf(h, ns, k)) == ns[i] <==> k == i
  {
    if k > 0 {
      assert ns[k - 1].next == NodeOr(ns, k);
    }
    if i > 0 {
      assert ns[i - 1].next == NodeOr(ns, i);
    }
  }

  ghost function HeadOf(slot: Slot): set<HListHead> {
    if slot.FirstOf? then {slot.head} else {}
  }

  ghost function NodeOf(slot: Slot): set<HListNode> {
    if slot.NextOf? then {slot.node} else {}
  }

  /** *slot = n. */
  method Store(slot: Slot, n: HListNode?)
    requires slot.FirstOf? || slot.NextOf?
    modifies HeadOf(slot), NodeOf(slot)`next
    ensures Deref(slot) == n
  {
    match slot {
      case FirstOf(h) => h.first := n;
      case NextOf(m) => m.next := n;
    }
  }

  predicate Unhashed(n: HListNode)
    reads n
  {
    n.pprev == NullSlot
  }

  predicate Empty(h: HListHead)
    reads h
  {
    h.first == null
  }

  /** What hlist_empty and hlist_unhashed mean for a chain. */
  lemma HListTests(h: HListHead, ns: seq<HListNode>, i: nat)
    requires HList(h, ns)
    ensures Empty(h) <==> ns == []
    ensures i < |ns| ==> !Unhashed(ns[i])
  {
    assert i < |ns| ==> ns[i].pprev == SlotOf(h, ns, i);
  }

  /** The links that put n into a chain before position k. */
  ghost predicate Inserted(h: HListHead, ns: seq<HListNode>, k: nat, n: HListNode)
    requires k <= |ns|
    reads h, ns, n
  {
    && h.first == (if k == 0 then n else NodeOr(ns, 0))
    && n.next == NodeOr(ns, k) && n.pprev == SlotOf(h, ns, k)
    && (forall i {:trigger ns[i].next} :: 0 <= i < |ns| ==> ns[i].next == if i == k - 1 then n else NodeOr(ns, i + 1))
    && (forall i {:trigger ns[i].pprev} :: 0 <= i < |ns| ==>
        ns[i].pprev == if i == k then NextOf(n) else SlotOf(h, ns, i))
  }

  lemma InsertedIsHList(h: HListHead, ns: seq<HListNode>, k: nat, n: HListNode)
    requires k <= |ns| && Distinct(ns) && n !in ns && Inserted(h, ns, k, n)
    ensures HList(h, Insert(ns, k, n))
  {
    var r := Insert(ns, k, n);
    forall i | 0 <= i < |r|
      ensures r[i].next == NodeOr(r, i + 1) && r[i].pprev == SlotOf(h, r, i)
    {
      if i < k {
        assert r[i] == ns[i];
      } else if i > k {
        assert r[i] == ns[i - 1];
      }
    }
  }

  /** The links that close a chain over position k. */
  ghost predicate Removed(h: HListHead, ns: seq<HListNode>, k: nat)
    requires k < |ns|
    reads h, ns
  {
    && h.first == NodeOr(ns, if k == 0 then 1 else 0)
    && (forall i {:trigger ns[i].next} :: 0 <= i < |ns| ==>
        ns[i].next == NodeOr(ns, if i == k - 1 then k + 1 else i + 1))
    && (forall i {:trigger ns[i].pprev} :: 0 <= i < |ns| ==> ns[i].pprev == SlotOf(h, ns, if i == k + 1 then k else i))
  }

  /** Positions in a chain without the entry at k, and in the whole chain. */
  lemma WithoutAt(h: HListHead, ns: seq<HListNode>, k: nat, i: nat)
    requires k < |ns| && i < |ns|
    ensures NodeOr(Without(ns, k), i) == NodeOr(ns, if i < k then i else i + 1)
    ensures SlotOf(h, Without(ns, k), i) == SlotOf(h, ns, if i <= k then i else i + 1)
  {
  }

  lemma RemovedAt(h: HListHead, ns: seq<HListNode>, k: nat, i: nat)
    requires k < |ns| && Removed(h, ns, k) && i < |ns| - 1
    ensures var r := Without(ns, k);
      r[i].next == NodeOr(r, i + 1) && r[i].pprev == SlotOf(h, r, i)
  {
    WithoutAt(h, ns, k, i);
    WithoutAt(h, ns, k, i + 1);
    assert Without(ns, k)[i] == ns[if i < k then i else i + 1];
  }

  lemma RemovedIsHList(h: HListHead, ns: seq<HListNode>, k: nat)
    requires k < |ns| && Distinct(ns) && Removed(h, ns, k)
    ensures HList(h, Without(ns, k)) && ns[k] !in Without(ns, k)
  {
    var r := Without(ns, k);
    WithoutDistinct(ns, k);
    WithoutAt(h, ns, k, 0);
    forall i | 0 <= i < |r|
      ensures r[i].next == NodeOr(r, i + 1) && r[i].pprev == SlotOf(h, r, i)
    {
      RemovedAt(h, ns, k, i);
    }
  }

  // ---- Operations.  The ghost arguments name the chain the node is in ----

  method AddHead(n: HListNode, h: HListHead, ghost ns: seq<HListNode>)
    requires HList(h, ns) && n !in ns
    modifies n, h, ns`pprev
    ensures HList(h, [n] + ns)
  {
    var first := h.first;
    n.next := first;
    if first != null {
      first.pprev := NextOf(n);
    }
    h.first := n;
    n.pprev := FirstOf(h);
    assert Insert(ns, 0, n) == [n] + ns;
    InsertedIsHList(h, ns, 0, n);
  }

  /** hlist_add_before the entry at k. */
  method AddBefore(n: HListNode, next: HListNode, ghost h: HListHead, ghost ns: seq<HListNode>, ghost k: nat)
    requires HList(h, ns) && n !in ns && k < |ns| && next == ns[k]
    modifies n, h, ns
    ensures HList(h, Insert(ns, k, n))
  {
    n.pprev := next.pprev;
    n.next := next;
    next.pprev := NextOf(n);
    Store(n.pprev, n);
    InsertedIsHList(h, ns, k, n);
  }

  /** hlist_add_behind the entry at k. */
  method AddBehind(n: HListNode, prev: HListNode, ghost h: HListHead, ghost ns: seq<HListNode>, ghost k: nat)
    requires HList(h, ns) && n !in ns && k < |ns| && prev == ns[k]
    modifies n, ns
    ensures HList(h, Insert(ns, k + 1, n))
  {
    n.next := prev.next;
    prev.next := n;
    n.pprev := NextOf(prev);
    if n.next != null {
      n.next.pprev := NextOf(n);
    }
    InsertedIsHList(h, ns, k + 1, n);
  }

  /** __hlist_del of the entry at k: the chain closes over it, its own pointers stay. */
  method Unlink(n: HListNode, ghost h: HListHead, ghost ns: seq<HListNode>, ghost k: nat)
    requires HList(h, ns) && k < |ns| && n == ns[k]
    modifies h, ns
    ensures HList(h, Without(ns, k)) && n !in Without(ns, k)
  {
    var next, pprev := n.next, n.pprev;
    Store(pprev, next);
    if next != null {
      next.pprev := pprev;
    }
    RemovedIsHList(h, ns, k);
  }

  /** hlist_del. */
  method Del(n: HListNode, ghost h: HListHead, ghost ns: seq<HListNode>, ghost k: nat)
    requires HList(h, ns) && k < |ns| && n == ns[k]
    modifies h, ns
    ensures HList(h, Without(ns, k)) && n !in Without(ns, k)
    ensures n.next == null && n.pprev == PoisonSlot && !Unhashed(n)
  {
    Unlink(n, h, ns, k);
    n.next := null;
    n.pprev := PoisonSlot;
  }

  /** hlist_del_init: harmless on a node that is in no chain. */
  method DelInit(n: HListNode, ghost h: HListHead, ghost ns: seq<HListNode>, ghost k: nat)
    requires !Unhashed(n) ==> HList(h, ns) && k < |ns| && n == ns[k]
    modifies if Unhashed(n) then {} else {h as object} + (set x | x in ns)
    ensures Unhashed(n)
    ensures old(!Unhashed(n)) ==> HList(h, Without(ns, k)) && n !in Without(ns, k) && n.next == null
  {
    if !Unhashed(n) {
      Unlink(n, h, ns, k);
      n.next := null;
      n.pprev := NullSlot;
    }
  }

  /** hlist_move_list onto a head whose own chain, if any, is given up. */
  method MoveList(from: HListHead, to: HListHead, ghost ns: seq<HListNode>)
    requires HList(from, ns) && from != to
    modifies from, to, ns`pprev
    ensures HList(to, ns) && HList(from, [])
  {
    to.first := from.first;
    if to.first != null {
      to.first.pprev := FirstOf(to);
    }
    from.first := null;
  }
}
