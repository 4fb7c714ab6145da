/** The search that keeps a list in ascending order of a number: friend.c and call.c share it. */
module SortedInsertion {
  import opened LinkedList
  import opened Sequences

  /** Where a number belongs: before the first greater one. */
  ghost function Slot<T>(xs: seq<T>, key: T -> int, number: int): (k: nat)
    ensures k <= |xs|
  {
    if xs == [] || key(xs[0]) > number then 0 else 1 + Slot(xs[1..], key, number)
  }

  lemma {:induction false} SlotPlace<T>(xs: seq<T>, key: T -> int, number: int)
    ensures forall i :: 0 <= i < Slot(xs, key, number) ==> key(xs[i]) <= number
    ensures Slot(xs, key, number) < |xs| ==> key(xs[Slot(xs, key, number)]) > number
  {
    if xs != [] && key(xs[0]) <= number {
      SlotPlace(xs[1..], key, number);
      assert forall i :: 1 <= i < |xs| ==> xs[i] == xs[1..][i - 1];
    }
  }

  ghost predicate Ascending<T>(xs: seq<T>, key: T -> int) {
    forall i, j :: 0 <= i < j < |xs| ==> key(xs[i]) <= key(xs[j])
  }

  ghost predicate StrictlyAscending<T>(xs: seq<T>, key: T -> int) {
    forall i, j :: 0 <= i < j < |xs| ==> key(xs[i]) < key(xs[j])
  }

  /** Inserting at its slot keeps a list in order, and keeps its numbers distinct if this one is new. */
  lemma InsertSorted<T>(xs: seq<T>, key: T -> int, x: T)
    requires Ascending(xs, key)
    ensures Ascending(Insert(xs, Slot(xs, key, key(x)), x), key)
    ensures StrictlyAscending(xs, key) && (forall y :: y in xs ==> key(y) != key(x)) ==>
      StrictlyAscending(Insert(xs, Slot(xs, key, key(x)), x), key)
  {
    SlotPlace(xs, key, key(x));
    var k := Slot(xs, key, key(x));
    var r := Insert(xs, k, x);
    forall i, j | 0 <= i < j < |r|
      ensures key(r[i]) <= key(r[j])
      ensures StrictlyAscending(xs, key) && (forall y :: y in xs ==> key(y) != key(x)) ==> key(r[i]) < key(r[j])
    {
      if i == k && k < |xs| {
        assert key(xs[k]) <= key(xs[j - 1]);
      } else if j == k {
        assert xs[i] in xs;
      }
    }
  }

  /** The search loop of friend_info_add_entry and of call_tester_add_entry: the node to insert before. */
  method FindSlot<T>(head: ListHead<T>, key: T -> int, number: int, ghost es: seq<ListHead<T>>)
    returns (ptr: ListHead<T>)
    requires IsList(head, es)
    ensures ptr == NodeAt(head, es, Slot(Contents(es), key, number))
  {
    ghost var i: nat, xs := 0, Contents(es);
    HeadNotEntry(head, es);
    WalkStep(head, es, 0);
    ptr := head.next;
    while ptr != head
      invariant 0 <= i <= |es| && ptr == NodeAt(head, es, i)
      invariant Slot(xs, key, number) == i + Slot(xs[i..], key, number)
      decreases |es| - i
    {
      WalkStep(head, es, i);
      assert xs[i..][1..] == xs[i + 1..] && xs[i] == ptr.entry;
      if key(ptr.entry) > number {
        return;
      }
      ptr := ptr.next;
      i := i + 1;
    }
  }
}
