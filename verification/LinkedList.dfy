/** The intrusive circular doubly linked list of list.h, refined to sequences of nodes. */
module LinkedList {
  import opened Sequences

  /** A struct with an embedded list_head: its links and the rest of its fields.  container_of() is
      the identity on it, and the poison pointers are null.  A bare list head leaves entry unused. */
  class ListHead<T> {
    var next: ListHead?<T>
    var prev: ListHead?<T>
    var entry: T

    constructor (entry: T)
      ensures this.entry == entry && next == null && prev == null
    {
      this.entry, next, prev := entry, null, null;
    }
  }

  /** Each node of s and the one after it point at each other. */
  ghost predicate Chain<T>(s: seq<ListHead<T>>)
    reads s`next, s`prev
  {
    && (forall i {:trigger s[i].next} :: 0 <= i < |s| - 1 ==> s[i].next == s[i + 1])
    && (forall i {:trigger s[i].prev} :: 1 <= i < |s| ==> s[i].prev == s[i - 1])
  }

  /** Different nodes that form one cycle in both directions. */
  ghost predicate Ring<T>(r: seq<ListHead<T>>)
    reads r`next, r`prev
  {
    && r != [] && Distinct(r) && Chain(r)
    && r[|r| - 1].next == r[0] && r[0].prev == r[|r| - 1]
  }

  /** head is the head of a list whose entries are es, from first to last: they form a cycle.  The
      definition stays folded until a proof mentions Unfold, so that code which only hands lists on
      is not checked link by link. */
  ghost predicate IsList<T>(head: ListHead<T>, es: seq<ListHead<T>>)
    reads [head]`next, [head]`prev, es`next, es`prev
  {
    forall u {:trigger Unfold(u)} :: Unfold(u) ==> Ring([head] + es)
  }

  lemma ListIsRing<T>(head: ListHead<T>, es: seq<ListHead<T>>)
    ensures IsList(head, es) <==> Ring([head] + es)
  {
    assert Unfold(true);
  }

  // ---- Cutting and joining chains ----

  lemma ChainSplit<T>(a: seq<ListHead<T>>, b: seq<ListHead<T>>)
    requires Chain(a + b)
    ensures Chain(a) && Chain(b)
    ensures a != [] && b != [] ==> a[|a| - 1].next == b[0] && b[0].prev == a[|a| - 1]
  {
    var s := a + b;
    assert forall i {:trigger a[i]} :: 0 <= i < |a| ==> a[i] == s[i];
    assert forall i {:trigger b[i]} :: 0 <= i < |b| ==> b[i] == s[|a| + i];
  }

  lemma ChainJoin<T>(a: seq<ListHead<T>>, b: seq<ListHead<T>>)
    requires Chain(a) && Chain(b)
    requires a != [] && b != [] ==> a[|a| - 1].next == b[0] && b[0].prev == a[|a| - 1]
    ensures Chain(a + b)
  {
  }

  /** A cycle has no preferred place to start. */
  lemma Rotate<T>(a: seq<ListHead<T>>, b: seq<ListHead<T>>)
    requires Ring(a + b)
    ensures Ring(b + a)
  {
    if a == [] || b == [] {
      assert a + b == b + a;
    } else {
      DistinctParts(a, b);
      ChainSplit(a, b);
      assert (a + b)[0] == a[0] && (a + b)[|a + b| - 1] == b[|b| - 1];
      ChainJoin(b, a);
    }
  }

  // ---- The internal helpers, on a cycle cut open at the place where they work ----

  method InsertBetween<T>(n: ListHead<T>, prev: ListHead<T>, next: ListHead<T>, ghost r: seq<ListHead<T>>)
    requires Ring(r) && n !in r && prev == r[|r| - 1] && next == r[0]
    modifies n`next, n`prev, r`next, r`prev
    ensures Ring(r + [n])
  {
    next.prev := n;
    n.next := next;
    n.prev := prev;
    prev.next := n;
    ChainJoin(r, [n]);
    DistinctJoin(r, [n]);
  }

  method Unlink<T>(prev: ListHead<T>, next: ListHead<T>, ghost r: seq<ListHead<T>>, ghost x: ListHead<T>)
    requires Ring(r + [x]) && r != [] && prev == r[|r| - 1] && next == r[0]
    modifies r`next, r`prev
    ensures Ring(r)
  {
    ChainSplit(r, [x]);
    DistinctParts(r, [x]);
    next.prev := prev;
    prev.next := next;
  }

  method ReplaceLast<T>(o: ListHead<T>, n: ListHead<T>, ghost r: seq<ListHead<T>>)
    requires Ring(r + [o]) && n !in r + [o]
    modifies n`next, n`prev, r`next, r`prev, o`next, o`prev
    ensures Ring(r + [n])
    ensures r != [] ==> o.next == old(o.next) && o.prev == old(o.prev)
  {
    ChainSplit(r, [o]);
    DistinctParts(r, [o]);
    assert (r + [o])[|r|] == o && (r + [o])[0] == if r == [] then o else r[0];
    n.next := o.next;
    n.next.prev := n;
    n.prev := o.prev;
    n.prev.next := n;
    ChainJoin(r, [n]);
    DistinctJoin(r, [n]);
  }

  method SpliceBetween<T>(list: ListHead<T>, prev: ListHead<T>, next: ListHead<T>,
                          ghost r: seq<ListHead<T>>, ghost ls: seq<ListHead<T>>)
    requires Ring(r) && prev == r[|r| - 1] && next == r[0]
    requires Ring([list] + ls) && ls != [] && list !in r && forall x :: x in r ==> x !in ls
    modifies r`next, r`prev, ls`next, ls`prev
    ensures Ring(r + ls)
  {
    ChainSplit([list], ls);
    DistinctParts([list], ls);
    assert ([list] + ls)[|ls|] == ls[|ls| - 1];
    assert prev in r && next in r;
    var first, last := list.next, list.prev;
    first.prev := prev;
    prev.next := first;
    last.next := next;
    next.prev := last;
    ChainJoin(r, ls);
    DistinctJoin(r, ls);
  }

  /** A cycle taken apart in two places: what the nodes there point at, and that all nodes differ. */
  lemma RingInParts<T>(head: ListHead<T>, a: seq<ListHead<T>>, b: seq<ListHead<T>>)
    requires Ring([head] + a + b) && a != []
    ensures Chain(a) && Chain(b) && Distinct(a) && Distinct(b) && head !in a && head !in b
    ensures forall x :: x in a ==> x !in b
    ensures head.next == a[0] && a[|a| - 1].next == if b == [] then head else b[0]
    ensures head.prev == if b == [] then a[|a| - 1] else b[|b| - 1]
    ensures b != [] ==> b[|b| - 1].next == head
  {
    var h := [head];
    var s := h + a + b;
    ChainSplit(h + a, b);
    ChainSplit(h, a);
    DistinctParts(h + a, b);
    DistinctParts(h, a);
    assert s[|s| - 1] == if b == [] then a[|a| - 1] else b[|b| - 1];
    assert s[0] == head && (h + a)[|a|] == a[|a| - 1];
    assert head in h && head in h + a && forall x :: x in a ==> x in h + a;
  }

  /** The first half of a cut: list becomes the head of the chain from first to last. */
  method Adopt<T>(list: ListHead<T>, first: ListHead<T>, last: ListHead<T>, ghost a: seq<ListHead<T>>)
    requires Chain(a) && a != [] && Distinct(a) && list !in a && first == a[0] && last == a[|a| - 1]
    modifies list`next, list`prev, first`prev, last`next
    ensures Ring([list] + a)
  {
    list.next := first;
    list.next.prev := list;
    list.prev := last;
    last.next := list;
    ChainJoin([list], a);
    DistinctJoin([list], a);
  }

  /** The second half: the rest, of which only the front is loose, closes up behind its head. */
  method Reattach<T>(head: ListHead<T>, newFirst: ListHead<T>, ghost b: seq<ListHead<T>>)
    requires Chain(b) && Distinct(b) && head !in b && newFirst == if b == [] then head else b[0]
    requires b != [] ==> head.prev == b[|b| - 1] && b[|b| - 1].next == head
    modifies head`next, newFirst`prev
    ensures Ring([head] + b)
  {
    head.next := newFirst;
    newFirst.prev := head;
    ChainJoin([head], b);
    DistinctJoin([head], b);
  }

  method CutAfter<T>(list: ListHead<T>, head: ListHead<T>, entry: ListHead<T>,
                     ghost a: seq<ListHead<T>>, ghost b: seq<ListHead<T>>)
    requires Ring([head] + a + b) && a != [] && entry == a[|a| - 1] && list !in [head] + a + b
    modifies list`next, list`prev, [head]`next, [head]`prev, a`next, a`prev, b`next, b`prev
    ensures Ring([list] + a) && Ring([head] + b)
  {
    RingInParts(head, a, b);
    assert head in [head];
    var newFirst := entry.next;
    Adopt(list, head.next, entry, a);
    assert newFirst !in [list] + a && head !in [list] + a;
    label adopted:
    Reattach(head, newFirst, b);
    RingKept@adopted([list] + a);
  }

  // ---- Operations.  The ghost arguments name the list that the source's caller has in mind ----

  /** INIT_LIST_HEAD. */
  method InitListHead<T>(list: ListHead<T>)
    modifies list`next, list`prev
    ensures IsList(list, [])
  {
    list.next := list;
    list.prev := list;
    ListIsRing(list, []);
  }

  /** The place between two neighbours of a list, as a cycle that ends before it and starts after it. */
  lemma OpenAt<T>(head: ListHead<T>, es: seq<ListHead<T>>, k: nat)
    requires IsList(head, es) && k <= |es|
    ensures Ring(es[k..] + ([head] + es[..k]))
    ensures (es[k..] + ([head] + es[..k]))[0] == if k == |es| then head else es[k]
    ensures (es[k..] + ([head] + es[..k]))[|es|] == if k == 0 then head else es[k - 1]
    ensures (if k == 0 then head else es[k - 1]).next == if k == |es| then head else es[k]
    ensures (if k == |es| then head else es[k]).prev == if k == 0 then head else es[k - 1]
  {
    var a, b := [head] + es[..k], es[k..];
    ListIsRing(head, es);
    assert [head] + es == a + b;
    Rotate(a, b);
  }

  lemma CloseUp<T>(head: ListHead<T>, a: seq<ListHead<T>>, b: seq<ListHead<T>>)
    requires Ring(b + ([head] + a))
    ensures IsList(head, a + b)
  {
    ListIsRing(head, a + b);
    Rotate(b, [head] + a);
    assert [head] + a + b == [head] + (a + b);
  }

  /** list_add behind `at`, which is the head (k == 0) or the entry at k - 1. */
  method ListAdd<T>(n: ListHead<T>, at: ListHead<T>, ghost head: ListHead<T>, ghost es: seq<ListHead<T>>, ghost k: nat)
    requires IsList(head, es) && n != head && n !in es
    requires k <= |es| && at == if k == 0 then head else es[k - 1]
    modifies n`next, n`prev, [head]`next, [head]`prev, es`next, es`prev
    ensures IsList(head, Insert(es, k, n))
  {
    ghost var a, b := es[..k], es[k..];
    ghost var r := b + ([head] + a);
    OpenAt(head, es, k);
    assert n !in r;
    InsertBetween(n, at, at.next, r);
    assert r + [n] == b + ([head] + (a + [n]));
    CloseUp(head, a + [n], b);
  }

  /** list_add_tail before `at`, which is the head (k == |es|) or the entry at k. */
  method ListAddTail<T>(n: ListHead<T>, at: ListHead<T>, ghost head: ListHead<T>, ghost es: seq<ListHead<T>>,
                        ghost k: nat)
    requires IsList(head, es) && n != head && n !in es
    requires k <= |es| && at == if k == |es| then head else es[k]
    modifies n`next, n`prev, [head]`next, [head]`prev, es`next, es`prev
    ensures IsList(head, Insert(es, k, n))
  {
    ghost var a, b := es[..k], es[k..];
    ghost var r := b + ([head] + a);
    OpenAt(head, es, k);
    assert n !in r;
    InsertBetween(n, at.prev, at, r);
    assert r + [n] == b + ([head] + (a + [n]));
    CloseUp(head, a + [n], b);
  }

  /** __list_del_entry: the entry is bypassed but keeps its own links. */
  method ListDelEntry<T>(x: ListHead<T>, ghost head: ListHead<T>, ghost es: seq<ListHead<T>>, ghost k: nat)
    requires IsList(head, es) && k < |es| && x == es[k]
    modifies [head]`next, [head]`prev, es`next, es`prev
    ensures IsList(head, Without(es, k))
    ensures x !in [head] + Without(es, k)
  {
    ghost var a, b := es[..k], es[k + 1..];
    ghost var r := b + ([head] + a);
    OpenAt(head, es, k);
    OpenAt(head, es, k + 1);
    assert es[k + 1..] + ([head] + es[..k + 1]) == r + [x];
    assert r[|r| - 1] == x.prev && r[0] == x.next;
    assert x !in r by {
      DistinctParts(r, [x]);
      assert x in [x];
    }
    assert forall i {:trigger r[i]} :: 0 <= i < |r| ==>
      r[i] == if i < |b| then es[k + 1 + i] else if i == |b| then head else es[i - |b| - 1];
    Unlink(x.prev, x.next, r, x);
    CloseUp(head, a, b);
  }

  /** list_del. */
  method ListDel<T>(x: ListHead<T>, ghost head: ListHead<T>, ghost es: seq<ListHead<T>>, ghost k: nat)
    requires IsList(head, es) && k < |es| && x == es[k]
    modifies [head]`next, [head]`prev, es`next, es`prev
    ensures IsList(head, Without(es, k))
    ensures x !in [head] + Without(es, k) && x.next == null && x.prev == null
  {
    ListDelEntry(x, head, es, k);
    x.next := null;
    x.prev := null;
  }

  /** list_del_init. */
  method ListDelInit<T>(x: ListHead<T>, ghost head: ListHead<T>, ghost es: seq<ListHead<T>>, ghost k: nat)
    requires IsList(head, es) && k < |es| && x == es[k]
    modifies [head]`next, [head]`prev, es`next, es`prev
    ensures IsList(head, Without(es, k))
    ensures x !in [head] + Without(es, k) && IsList(x, [])
  {
    ListDelEntry(x, head, es, k);
    InitListHead(x);
  }

  /** list_replace, on any node of a cycle: a head, empty or not, as well as an entry. */
  method ListReplace<T>(o: ListHead<T>, n: ListHead<T>, ghost a: seq<ListHead<T>>, ghost b: seq<ListHead<T>>)
    requires Ring(a + [o] + b) && n !in a + [o] + b
    modifies n`next, n`prev, o`next, o`prev, a`next, a`prev, b`next, b`prev
    ensures Ring(a + [n] + b)
    ensures a == [] ==> IsList(n, b)
    ensures a + b != [] ==> o.next == old(o.next) && o.prev == old(o.prev)
  {
    Rotate(a + [o], b);
    assert b + (a + [o]) == b + a + [o];
    assert n !in b + a + [o];
    ReplaceLast(o, n, b + a);
    assert b + a + [n] == b + (a + [n]);
    Rotate(b, a + [n]);
    ListIsRing(n, b);
    assert a == [] ==> a + [n] + b == [n] + b;
  }

  /** list_replace_init. */
  method ListReplaceInit<T>(o: ListHead<T>, n: ListHead<T>, ghost a: seq<ListHead<T>>, ghost b: seq<ListHead<T>>)
    requires Ring(a + [o] + b) && n !in a + [o] + b
    modifies n`next, n`prev, o`next, o`prev, a`next, a`prev, b`next, b`prev
    ensures Ring(a + [n] + b) && IsList(o, [])
    ensures a == [] ==> IsList(n, b)
  {
    ListReplace(o, n, a, b);
    assert o !in a + [n] + b by {
      DistinctParts(a + [o], b);
      DistinctParts(a, [o]);
    }
    InitListHead(o);
  }

  /** Writes elsewhere leave a cycle alone. */
  twostate lemma RingKept<T>(r: seq<ListHead<T>>)
    requires old(Ring(r))
    requires forall x {:trigger x in r} :: x in r ==> x.next == old(x.next) && x.prev == old(x.prev)
    ensures Ring(r)
  {
    assert forall i {:trigger r[i]} :: 0 <= i < |r| ==> r[i] in r;
  }

  lemma Apart<T>(head: ListHead<T>, from: ListHead<T>, es: seq<ListHead<T>>, k: nat, to: seq<ListHead<T>>)
    requires k < |es| && Distinct([from] + es + ([head] + to))
    ensures forall y :: y in [head] + to ==> y !in [from] + es && y !in [from] + Without(es, k)
  {
    DistinctParts([from] + es, [head] + to);
  }

  /** The first half of a move: the entry leaves its list; rest is what the target list holds then. */
  method Detach<T>(x: ListHead<T>, ghost head: ListHead<T>, ghost from: ListHead<T>, ghost es: seq<ListHead<T>>,
                   ghost k: nat, ghost to: seq<ListHead<T>>) returns (ghost rest: seq<ListHead<T>>)
    requires IsList(from, es) && k < |es| && x == es[k] && IsList(head, to)
    requires (from == head && es == to) || Distinct([from] + es + ([head] + to))
    modifies [from]`next, [from]`prev, es`next, es`prev
    ensures rest == if from == head then Without(es, k) else to
    ensures IsList(from, Without(es, k)) && IsList(head, rest) && x !in [head] + rest
    ensures from != head ==> x !in [from] + Without(es, k)
    ensures from != head ==> forall y :: y in [head] + rest ==> y !in [from] + Without(es, k)
  {
    ListDelEntry(x, from, es, k);
    if from == head {
      rest := Without(es, k);
    } else {
      Apart(head, from, es, k, to);
      assert ([head] + to)[1..] == to;
      ListKept([head] + to);
      rest := to;
    }
  }

  /** The same for the list with head r[0] and the entries behind it. */
  twostate lemma ListKept<T>(r: seq<ListHead<T>>)
    requires r != [] && old(IsList(r[0], r[1..]))
    requires forall x {:trigger x in r} :: x in r ==> x.next == old(x.next) && x.prev == old(x.prev)
    ensures IsList(r[0], r[1..])
  {
    assert Unfold(true);
    assert [r[0]] + r[1..] == r;
    RingKept(r);
  }

  /** list_move to the front of the list at head, which may be the entry's own list. */
  method ListMove<T>(x: ListHead<T>, head: ListHead<T>, ghost from: ListHead<T>, ghost es: seq<ListHead<T>>,
                     ghost k: nat, ghost to: seq<ListHead<T>>)
    requires IsList(from, es) && k < |es| && x == es[k] && IsList(head, to)
    requires (from == head && es == to) || Distinct([from] + es + ([head] + to))
    modifies [from]`next, [from]`prev, es`next, es`prev, [head]`next, [head]`prev, to`next, to`prev
    ensures from == head ==> IsList(head, [x] + Without(es, k))
    ensures from != head ==> IsList(from, Without(es, k)) && IsList(head, [x] + to)
  {
    ghost var rest := Detach(x, head, from, es, k, to);
    label detached:
    assert Insert(rest, 0, x) == [x] + rest;
    ListAdd(x, head, head, rest, 0);
    if from != head {
      assert ([from] + Without(es, k))[1..] == Without(es, k);
      ListKept@detached([from] + Without(es, k));
    }
  }

  /** list_move_tail to the back of the list at head, which may be the entry's own list. */
  method ListMoveTail<T>(x: ListHead<T>, head: ListHead<T>, ghost from: ListHead<T>, ghost es: seq<ListHead<T>>,
                         ghost k: nat, ghost to: seq<ListHead<T>>)
    requires IsList(from, es) && k < |es| && x == es[k] && IsList(head, to)
    requires (from == head && es == to) || Distinct([from] + es + ([head] + to))
    modifies [from]`next, [from]`prev, es`next, es`prev, [head]`next, [head]`prev, to`next, to`prev
    ensures from == head ==> IsList(head, Without(es, k) + [x])
    ensures from != head ==> IsList(from, Without(es, k)) && IsList(head, to + [x])
  {
    ghost var rest := Detach(x, head, from, es, k, to);
    label detached:
    assert Insert(rest, |rest|, x) == rest + [x];
    ListAddTail(x, head, head, rest, |rest|);
    if from != head {
      assert ([from] + Without(es, k))[1..] == Without(es, k);
      ListKept@detached([from] + Without(es, k));
    }
  }

  /** list_rotate_left. */
  method ListRotateLeft<T>(head: ListHead<T>, ghost es: seq<ListHead<T>>)
    requires IsList(head, es)
    modifies [head]`next, [head]`prev, es`next, es`prev
    ensures IsList(head, if es == [] then [] else es[1..] + [es[0]])
  {
    OpenAt(head, es, 0);
    if !ListEmpty(head) {
      var first := head.next;
      assert Without(es, 0) == es[1..];
      ListMoveTail(first, head, head, es, 0, es);
    }
  }

  predicate ListEmpty<T>(head: ListHead<T>)
    reads head
  {
    head.next == head
  }

  predicate ListIsLast<T>(list: ListHead<T>, head: ListHead<T>)
    reads list
  {
    list.next == head
  }

  predicate ListIsSingular<T>(head: ListHead<T>)
    reads head
  {
    !ListEmpty(head) && head.next == head.prev
  }

  predicate ListEmptyCareful<T>(head: ListHead<T>)
    reads head
  {
    var next := head.next;
    next == head && next == head.prev
  }

  /** What the pointer comparisons mean. */
  lemma ListTests<T>(head: ListHead<T>, es: seq<ListHead<T>>)
    requires IsList(head, es)
    ensures ListEmpty(head) <==> es == []
    ensures ListEmptyCareful(head) <==> es == []
    ensures ListIsSingular(head) <==> |es| == 1
    ensures forall k {:trigger es[k]} :: 0 <= k < |es| ==> (ListIsLast(es[k], head) <==> k == |es| - 1)
  {
    var r := [head] + es;
    ListIsRing(head, es);
    assert forall k {:trigger es[k]} :: 0 <= k < |es| ==> es[k] == r[k + 1];
    OpenAt(head, es, 0);
    OpenAt(head, es, |es|);
    forall k | 0 <= k < |es|
      ensures ListIsLast(es[k], head) <==> k == |es| - 1
    {
      OpenAt(head, es, k + 1);
      assert r[0] != r[k + 1];
    }
  }

  /** __list_cut_position at an entry. */
  method CutAt<T>(list: ListHead<T>, head: ListHead<T>, entry: ListHead<T>, ghost es: seq<ListHead<T>>, ghost k: nat)
    requires IsList(head, es) && list !in [head] + es && 0 < k <= |es| && entry == es[k - 1]
    modifies list`next, list`prev, [head]`next, [head]`prev, es`next, es`prev
    ensures IsList(head, es[k..]) && IsList(list, es[..k])
  {
    ghost var a, b := es[..k], es[k..];
    assert [head] + a + b == [head] + es;
    ListIsRing(head, es);
    CutAfter(list, head, entry, a, b);
    ListIsRing(list, a);
    ListIsRing(head, b);
  }

  /** list_cut_position: moves everything up to entry, which is the head (k == 0) or the entry at
      k - 1, to list.  An empty list is left alone, and list with it. */
  method ListCutPosition<T>(list: ListHead<T>, head: ListHead<T>, entry: ListHead<T>, ghost es: seq<ListHead<T>>,
                            ghost k: nat)
    requires IsList(head, es) && list !in [head] + es
    requires k <= |es| && entry == if k == 0 then head else es[k - 1]
    modifies list`next, list`prev, [head]`next, [head]`prev, es`next, es`prev
    ensures IsList(head, es[k..])
    ensures es != [] || old(IsList(list, [])) ==> IsList(list, es[..k])
    ensures es == [] ==> list.next == old(list.next) && list.prev == old(list.prev)
  {
    HeadNotEntry(head, es);
    assert k > 0 ==> es[k - 1] in es;
    ListTests(head, es);
    OpenAt(head, es, 0);
    assert es[..0] == [] && es[0..] == es;
    if ListEmpty(head) {
      return;
    }
    if ListIsSingular(head) && head.next != entry && head != entry {
      return;
    }
    if entry == head {
      InitListHead(list);
    } else {
      CutAt(list, head, entry, es, k);
    }
  }

  /** __list_splice of a non-empty list between two neighbours. */
  method Splice<T>(list: ListHead<T>, prev: ListHead<T>, next: ListHead<T>, ghost ls: seq<ListHead<T>>,
                   ghost head: ListHead<T>, ghost es: seq<ListHead<T>>, ghost k: nat)
    requires IsList(list, ls) && IsList(head, es) && Distinct([head] + es + ([list] + ls)) && ls != []
    requires k <= |es| && prev == (if k == 0 then head else es[k - 1]) && next == if k == |es| then head else es[k]
    modifies [head]`next, [head]`prev, es`next, es`prev, ls`next, ls`prev
    ensures IsList(head, es[..k] + ls + es[k..])
  {
    ghost var a, b := es[..k], es[k..];
    ghost var r := b + ([head] + a);
    OpenAt(head, es, k);
    ListIsRing(list, ls);
    DistinctParts([head] + es, [list] + ls);
    assert list in [list] + ls && forall x :: x in ls ==> x in [list] + ls;
    assert forall x :: x in r ==> x in [head] + es;
    SpliceBetween(list, prev, next, r, ls);
    assert r + ls == b + ([head] + (a + ls));
    CloseUp(head, a + ls, b);
  }

  lemma SpliceParts<T>(list: ListHead<T>, ls: seq<ListHead<T>>, head: ListHead<T>, es: seq<ListHead<T>>, k: nat)
    requires Distinct([head] + es + ([list] + ls)) && k <= |es|
    ensures list !in [head] + (es[..k] + ls + es[k..])
    ensures ls == [] ==> es[..k] + ls + es[k..] == es
  {
    DistinctParts([head] + es, [list] + ls);
    DistinctParts([list], ls);
    assert list in [list] + ls && list in [list];
  }

  /** list_splice behind `at`, the head or an entry.  The spliced head keeps stale links. */
  method ListSplice<T>(list: ListHead<T>, at: ListHead<T>, ghost ls: seq<ListHead<T>>,
                       ghost head: ListHead<T>, ghost es: seq<ListHead<T>>, ghost k: nat)
    requires IsList(list, ls) && IsList(head, es) && Distinct([head] + es + ([list] + ls))
    requires k <= |es| && at == if k == 0 then head else es[k - 1]
    modifies [head]`next, [head]`prev, es`next, es`prev, ls`next, ls`prev
    ensures IsList(head, es[..k] + ls + es[k..])
  {
    ListTests(list, ls);
    OpenAt(head, es, k);
    SpliceParts(list, ls, head, es, k);
    if !ListEmpty(list) {
      Splice(list, at, at.next, ls, head, es, k);
    }
  }

  /** list_splice_tail before `at`, the head or an entry. */
  method ListSpliceTail<T>(list: ListHead<T>, at: ListHead<T>, ghost ls: seq<ListHead<T>>,
                           ghost head: ListHead<T>, ghost es: seq<ListHead<T>>, ghost k: nat)
    requires IsList(list, ls) && IsList(head, es) && Distinct([head] + es + ([list] + ls))
    requires k <= |es| && at == if k == |es| then head else es[k]
    modifies [head]`next, [head]`prev, es`next, es`prev, ls`next, ls`prev
    ensures IsList(head, es[..k] + ls + es[k..])
  {
    ListTests(list, ls);
    OpenAt(head, es, k);
    SpliceParts(list, ls, head, es, k);
    if !ListEmpty(list) {
      Splice(list, at.prev, at, ls, head, es, k);
    }
  }

  /** list_splice_init: list is a valid empty list afterwards. */
  method ListSpliceInit<T>(list: ListHead<T>, at: ListHead<T>, ghost ls: seq<ListHead<T>>,
                           ghost head: ListHead<T>, ghost es: seq<ListHead<T>>, ghost k: nat)
    requires IsList(list, ls) && IsList(head, es) && Distinct([head] + es + ([list] + ls))
    requires k <= |es| && at == if k == 0 then head else es[k - 1]
    modifies [head]`next, [head]`prev, es`next, es`prev, [list]`next, [list]`prev, ls`next, ls`prev
    ensures IsList(head, es[..k] + ls + es[k..]) && IsList(list, [])
  {
    ghost var r := es[..k] + ls + es[k..];
    ListTests(list, ls);
    OpenAt(head, es, k);
    SpliceParts(list, ls, head, es, k);
    if !ListEmpty(list) {
      Splice(list, at, at.next, ls, head, es, k);
      label spliced:
      assert list in [list];
      InitListHead(list);
      assert ([head] + r)[1..] == r;
      ListKept@spliced([head] + r);
    }
  }

  /** list_splice_tail_init. */
  method ListSpliceTailInit<T>(list: ListHead<T>, at: ListHead<T>, ghost ls: seq<ListHead<T>>,
                               ghost head: ListHead<T>, ghost es: seq<ListHead<T>>, ghost k: nat)
    requires IsList(list, ls) && IsList(head, es) && Distinct([head] + es + ([list] + ls))
    requires k <= |es| && at == if k == |es| then head else es[k]
    modifies [head]`next, [head]`prev, es`next, es`prev, [list]`next, [list]`prev, ls`next, ls`prev
    ensures IsList(head, es[..k] + ls + es[k..]) && IsList(list, [])
  {
    ghost var r := es[..k] + ls + es[k..];
    ListTests(list, ls);
    OpenAt(head, es, k);
    SpliceParts(list, ls, head, es, k);
    if !ListEmpty(list) {
      Splice(list, at.prev, at, ls, head, es, k);
      label spliced:
      assert list in [list];
      InitListHead(list);
      assert ([head] + r)[1..] == r;
      ListKept@spliced([head] + r);
    }
  }

  lemma CutDistinct<T>(list: T, head: T, es: seq<T>, k: nat)
    requires Distinct([head] + es) && list !in [head] + es && k <= |es|
    ensures Distinct([head] + es[k..] + ([list] + es[..k]))
  {
    var a, b := es[..k], es[k..];
    assert [head] + es == [head] + a + b;
    DistinctParts([head] + a, b);
    assert b + ([head] + a) == b + [head] + a;
    DistinctParts(b + [head], a);
    DistinctParts(b, [head]);
    assert forall x :: x in [head] + b ==> x in b + [head];
    DistinctJoin([list], a);
    DistinctJoin([head] + b, [list] + a);
  }

  /** The links of a cycle are determined by its sequence. */
  twostate lemma SameLinks<T>(r: seq<ListHead<T>>)
    requires old(Ring(r)) && Ring(r)
    ensures forall x :: x in r ==> x.next == old(x.next) && x.prev == old(x.prev)
  {
    forall i | 0 <= i < |r|
      ensures r[i].next == old(r[i].next) && r[i].prev == old(r[i].prev)
    {
      var j := if i + 1 == |r| then 0 else i + 1;
      assert r[i].next == r[j] == old(r[i].next);
    }
  }

  method CutThenSplice<T>(list: ListHead<T>, head: ListHead<T>, entry: ListHead<T>, ghost es: seq<ListHead<T>>,
                          ghost k: nat)
    requires IsList(head, es) && IsList(list, []) && list !in [head] + es
    requires k <= |es| && entry == if k == 0 then head else es[k - 1]
    modifies list`next, list`prev, [head]`next, [head]`prev, es`next, es`prev
    ensures IsList(head, es)
  {
    ghost var a, b := es[..k], es[k..];
    ListIsRing(head, es);
    CutDistinct(list, head, es, k);
    ListCutPosition(list, head, entry, es, k);
    ListSplice(list, head, a, head, b, 0);
    assert b[..0] + a + b[0..] == es;
  }

  /** Cutting a list anywhere and splicing the piece back restores every link of the list. */
  method CutAndSplice<T>(list: ListHead<T>, head: ListHead<T>, entry: ListHead<T>, ghost es: seq<ListHead<T>>,
                         ghost k: nat)
    requires IsList(head, es) && IsList(list, []) && list !in [head] + es
    requires k <= |es| && entry == if k == 0 then head else es[k - 1]
    modifies list`next, list`prev, [head]`next, [head]`prev, es`next, es`prev
    ensures IsList(head, es)
    ensures forall x :: x in [head] + es ==> x.next == old(x.next) && x.prev == old(x.prev)
  {
    CutThenSplice(list, head, entry, es, k);
    assert Unfold(true);
    SameLinks([head] + es);
  }

  // ---- Walking a list ----

  /** Position k of a walk: the entry at k, or the head once the walk is over. */
  ghost function NodeAt<T>(head: ListHead<T>, es: seq<ListHead<T>>, k: nat): ListHead<T> {
    if k < |es| then es[k] else head
  }

  /** The payloads of the entries. */
  ghost function Contents<T>(es: seq<ListHead<T>>): (r: seq<T>)
    reads es
    ensures |r| == |es|
  {
    seq(|es|, i requires 0 <= i < |es| reads es => es[i].entry)
  }

  /** Where the next pointers of a walk lead. */
  lemma WalkStep<T>(head: ListHead<T>, es: seq<ListHead<T>>, k: nat)
    requires IsList(head, es) && k <= |es|
    ensures k < |es| ==> es[k].next == NodeAt(head, es, k + 1) && es[k] != head
    ensures head.next == NodeAt(head, es, 0)
  {
    OpenAt(head, es, 0);
    if k < |es| {
      OpenAt(head, es, k + 1);
      ListIsRing(head, es);
      assert ([head] + es)[k + 1] != ([head] + es)[0];
    }
  }

  lemma HeadNotEntry<T>(head: ListHead<T>, es: seq<ListHead<T>>)
    requires IsList(head, es)
    ensures head !in es && Distinct(es)
  {
    ListIsRing(head, es);
    DistinctParts([head], es);
    assert head in [head];
  }

  // ---- list_for_each_entry_safe ----

  /** A safe walk over the entries es, of which the first i are behind it and done is what the walk
      made of them: pos is the node it stands on, n the saved successor, still a member. */
  ghost predicate Walking<T>(head: ListHead<T>, done: seq<ListHead<T>>, es: seq<ListHead<T>>, i: nat,
                             pos: ListHead?<T>, n: ListHead?<T>)
    reads [head]`next, [head]`prev, done`next, done`prev, es`next, es`prev
  {
    && i <= |es| && IsList(head, done + es[i..])
    && pos == NodeAt(head, es, i) && (i < |es| ==> n == NodeAt(head, es, i + 1))
  }

  method SafeFirst<T>(head: ListHead<T>, ghost es: seq<ListHead<T>>) returns (pos: ListHead<T>, n: ListHead<T>)
    requires IsList(head, es)
    ensures Walking(head, [], es, 0, pos, n)
  {
    HeadNotEntry(head, es);
    WalkStep(head, es, 0);
    assert [] + es[0..] == es;
    pos := head.next;
    n := pos.next;
  }

  method SafeNext<T>(n: ListHead<T>, ghost head: ListHead<T>, ghost done: seq<ListHead<T>>,
                     ghost es: seq<ListHead<T>>, ghost i: nat)
    returns (pos': ListHead<T>, n': ListHead<T>)
    requires i < |es| && IsList(head, done + es[i + 1..]) && n == NodeAt(head, es, i + 1)
    ensures Walking(head, done, es, i + 1, pos', n')
  {
    ghost var s := done + es[i + 1..];
    ghost var k := if i + 1 < |es| then |done| else 0;
    WalkStep(head, s, k);
    assert i + 1 < |es| ==> s[|done|] == es[i + 1] && NodeAt(head, s, |done| + 1) == NodeAt(head, es, i + 2);
    pos' := n;
    n' := n.next;
  }

  /** Stepping past a node without deleting it. */
  lemma KeepOnWalk<T>(head: ListHead<T>, done: seq<ListHead<T>>, es: seq<ListHead<T>>, i: nat)
    requires i < |es| && IsList(head, done + es[i..])
    ensures IsList(head, (done + [es[i]]) + es[i + 1..])
  {
    assert done + es[i..] == (done + [es[i]]) + es[i + 1..];
  }

  /** The step of a walk that may delete the node it stands on: done is what the walk kept of es[..i]. */
  method DelOnWalk<T>(x: ListHead<T>, ghost head: ListHead<T>, ghost done: seq<ListHead<T>>,
                      ghost es: seq<ListHead<T>>, ghost i: nat)
    requires i < |es| && x == es[i] && IsList(head, done + es[i..])
    modifies [head]`next, [head]`prev, done`next, done`prev, es`next, es`prev
    ensures IsList(head, done + es[i + 1..])
    ensures x !in [head] + (done + es[i + 1..])
  {
    ghost var all := done + es[i..];
    assert all[|done|] == x;
    ListDel(x, head, all, |done|);
    assert Without(all, |done|) == done + es[i + 1..];
  }
}
