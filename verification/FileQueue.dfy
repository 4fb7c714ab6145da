/** The transfer queues of file.c and the handover between them in tsfiles.c. */
module FileQueue {
  import opened Bytes
  import opened Sequences
  import opened LinkedList
  import opened Friends

  const FILE_ID_LENGTH := 32
  const UINT32_MAX: uint32 := 0xFFFF_FFFF

  /** A shared or transferred file: its name, its 32 byte hash once known, its time and size. */
  datatype FileNode = FileNode(file: Option<CString>, hash: Option<seq<byte>>, mtime: int, length: int64, present: bool)

  /** A queued transfer.  isOpen says whether its FILE pointer is set. */
  datatype FileSender = FileSender(info: FileNode, pathname: Option<CString>, isOpen: bool, fileNumber: uint32,
                                   friendNumber: uint32, kind: uint32, accepted: int, timestamp: int)

  type Sender = ListHead<FileSender>
  type SenderPtr = ListHead?<FileSender>

  const BLANK_INFO := FileNode(None, None, 0, 0, false)
  const BLANK_SENDER := FileSender(BLANK_INFO, None, false, 0, 0, 0, 0, 0)

  /** FileSender_new: a zeroed sender at the front of the queue. */
  method SenderNew(queue: Sender, ghost qs: seq<Sender>) returns (f: Sender)
    requires IsList(queue, qs)
    modifies [queue]`next, [queue]`prev, qs`next, qs`prev
    ensures fresh(f)
    ensures f.entry == FileSender(FileNode(None, None, 0, 0, false), None, false, 0, 0, 0, 0, 0) == BLANK_SENDER
    ensures IsList(queue, [f] + qs)
  {
    f := new ListHead(BLANK_SENDER);
    assert ([queue] + qs)[1..] == qs;
    ListKept([queue] + qs);
    ListAdd(f, queue, queue, qs, 0);
    assert Insert(qs, 0, f) == [f] + qs;
  }

  /** FileSender_destroy, as far as the queue is concerned. */
  method SenderDestroy(f: Sender, ghost queue: Sender, ghost qs: seq<Sender>, ghost k: nat)
    requires IsList(queue, qs) && k < |qs| && f == qs[k]
    modifies [queue]`next, [queue]`prev, qs`next, qs`prev
    ensures IsList(queue, Without(qs, k))
  {
    ListDel(f, queue, qs, k);
  }

  /** FileQueue_size. */
  method QueueSize(queue: Sender, ghost qs: seq<Sender>) returns (n: nat)
    requires IsList(queue, qs)
    ensures n == |qs|
  {
    n := 0;
    HeadNotEntry(queue, qs);
    WalkStep(queue, qs, 0);
    var f := queue.next;
    while f != queue
      invariant 0 <= n <= |qs| && f == NodeAt(queue, qs, n)
      decreases |qs| - n
    {
      WalkStep(queue, qs, n);
      n := n + 1;
      f := f.next;
    }
  }

  /** The position of the first sender with that friend and file number; the length if there is none. */
  ghost function FirstMatch(qs: seq<FileSender>, friendNumber: uint32, fileNumber: uint32): (k: nat)
    ensures k <= |qs|
    ensures k < |qs| ==> qs[k].friendNumber == friendNumber && qs[k].fileNumber == fileNumber
    ensures forall j :: 0 <= j < k ==> qs[j].friendNumber != friendNumber || qs[j].fileNumber != fileNumber
  {
    if qs == [] || (qs[0].friendNumber == friendNumber && qs[0].fileNumber == fileNumber) then 0
    else 1 + FirstMatch(qs[1..], friendNumber, fileNumber)
  }

  /** r is the first of the nodes whose sender has both numbers; null if there is none. */
  ghost predicate IsFirstMatch(r: SenderPtr, qs: seq<Sender>, infos: seq<FileSender>, friendNumber: uint32,
                               fileNumber: uint32)
  {
    var k := FirstMatch(infos, friendNumber, fileNumber);
    |infos| == |qs| && r == if k < |qs| then qs[k] else null
  }

  /** FileSender_get. */
  method SenderGet(queue: Sender, friendNumber: uint32, fileNumber: uint32, ghost qs: seq<Sender>)
    returns (r: SenderPtr)
    requires IsList(queue, qs)
    ensures IsFirstMatch(r, qs, Contents(qs), friendNumber, fileNumber)
  {
    ghost var i, infos := 0, Contents(qs);
    HeadNotEntry(queue, qs);
    WalkStep(queue, qs, 0);
    var f := queue.next;
    while f != queue
      invariant 0 <= i <= |qs| && f == NodeAt(queue, qs, i)
      invariant FirstMatch(infos, friendNumber, fileNumber) == i + FirstMatch(infos[i..], friendNumber, fileNumber)
      decreases |qs| - i
    {
      WalkStep(queue, qs, i);
      assert infos[i] == f.entry && infos[i..][1..] == infos[i + 1..];
      if f.entry.friendNumber == friendNumber && f.entry.fileNumber == fileNumber {
        return f;
      }
      f := f.next;
      i := i + 1;
    }
    r := null;
  }

  // ---- Handing a transfer to toxcore ----

  /** What the file system and toxcore answer when a transfer is offered. */
  datatype Reply = Reply(opens: bool, size: int64, fileNumber: uint32, fileId: seq<byte>)

  /** The offer gets as far as toxcore, which is where the file name is read. */
  predicate Sends(s: FileSender, r: Reply) {
    s.isOpen || (s.pathname.Some? && r.opens)
  }

  /** The state add_filesender leaves a sender in. */
  function Offered(s: FileSender, r: Reply): FileSender {
    if !Sends(s, r) then s
    else s.(isOpen := true, fileNumber := r.fileNumber,
            info := s.info.(length := if s.info.length == 0 then r.size else s.info.length,
                            hash := if s.info.hash.None? then Some(r.fileId) else s.info.hash))
  }

  /** Field by field: an offer that reaches toxcore stores toxcore's number, fills in a length or a hash
      that is missing, and changes nothing else; any other offer changes nothing at all. */
  lemma OfferedFields(s: FileSender, r: Reply)
    ensures !s.isOpen && (s.pathname.None? || !r.opens) ==> Offered(s, r) == s
    ensures s.isOpen || (s.pathname.Some? && r.opens) ==>
      var info := s.info;
      Offered(s, r) == FileSender(
        FileNode(info.file, Some(if info.hash.Some? then info.hash.value else r.fileId), info.mtime,
                 if info.length != 0 then info.length else r.size, info.present),
        s.pathname, true, r.fileNumber, s.friendNumber, s.kind, s.accepted, s.timestamp)
  {
  }

  /** add_filesender.  The file name goes through strlen before it is sent, so there has to be one then. */
  method AddFileSender(f: Sender, r: Reply) returns (number: uint32)
    requires Sends(f.entry, r) ==> f.entry.info.file.Some?
    modifies f`entry
    ensures f.entry == Offered(old(f.entry), r)
    ensures number == if old(f.entry.isOpen || (f.entry.pathname.Some? && r.opens)) then r.fileNumber else 0xFFFF_FFFF
    ensures number == r.fileNumber != 0xFFFF_FFFF ==> f.entry.isOpen && f.entry.fileNumber == number
  {
    if !f.entry.isOpen {
      if f.entry.pathname.None? || !r.opens {
        return UINT32_MAX;
      }
      f.entry := f.entry.(isOpen := true);
    }
    if f.entry.info.length == 0 {
      f.entry := f.entry.(info := f.entry.info.(length := r.size));
    }
    f.entry := f.entry.(fileNumber := r.fileNumber);
    if f.entry.info.hash.None? {
      f.entry := f.entry.(info := f.entry.info.(hash := Some(r.fileId)));
    }
    number := f.entry.fileNumber;
  }

  // ---- resume_send ----

  /** How many senders at the front of the queue belong to the friend. */
  ghost function OwnPrefix(qs: seq<FileSender>, friendNumber: uint32): (k: nat)
    ensures k <= |qs|
  {
    if qs == [] || qs[0].friendNumber != friendNumber then 0 else 1 + OwnPrefix(qs[1..], friendNumber)
  }

  /** It is the longest such front part. */
  lemma {:induction false} OwnPrefixLongest(qs: seq<FileSender>, friendNumber: uint32)
    ensures var k := OwnPrefix(qs, friendNumber);
      && (forall i :: 0 <= i < k ==> qs[i].friendNumber == friendNumber)
      && (k < |qs| ==> qs[k].friendNumber != friendNumber)
  {
    if qs != [] && qs[0].friendNumber == friendNumber {
      OwnPrefixLongest(qs[1..], friendNumber);
      assert forall i :: 1 <= i < |qs| ==> qs[i] == qs[1..][i - 1];
    }
  }

  lemma ApartStep<T>(a: T, m: seq<T>, b: T, x: T, r: seq<T>)
    requires Distinct([a] + m + ([b] + ([x] + r)))
    ensures Distinct([a] + ([x] + m) + ([b] + r))
    ensures x != a && x !in m && forall y :: y in [a] + m ==> y !in [b] + ([x] + r)
    ensures forall y :: y in [b] + r ==> y != x && y != a && y !in m
  {
    var am, bxr := [a] + m, [b] + ([x] + r);
    DistinctParts(am, bxr);
    assert bxr == [b] + [x] + r;
    DistinctParts([b] + [x], r);
    DistinctParts([b], [x]);
    DistinctParts([a], m);
    assert x in bxr && b in bxr && x in [b] + [x] && b in [b] + [x] && x in [x] && b in [b] && a in am && a in [a];
    assert forall y :: y in r ==> y in bxr;
    DistinctJoin([x], m);
    DistinctJoin([a], [x] + m);
    DistinctJoin([b], r);
    DistinctJoin([a] + ([x] + m), [b] + r);
  }

  /** All nodes of the two queues are different.  Folded, with a trigger of its own. */
  ghost predicate Separate(send: Sender, moved: seq<Sender>, load: Sender, rest: seq<Sender>) {
    forall u {:trigger UnfoldSeparate(u)} :: UnfoldSeparate(u) ==> Distinct([send] + moved + ([load] + rest))
  }

  ghost predicate UnfoldSeparate(u: bool) {
    true
  }

  lemma SeparateAtStart(send: Sender, ss: seq<Sender>, load: Sender, ls: seq<Sender>)
    requires Distinct([send] + ss + ([load] + ls))
    ensures Separate(send, ss, load, ls[0..])
  {
    assert ls[0..] == ls;
  }

  lemma SeparateStep(send: Sender, moved: seq<Sender>, load: Sender, x: Sender, r: seq<Sender>)
    requires Separate(send, moved, load, [x] + r)
    ensures Separate(send, [x] + moved, load, r)
    ensures x != send && x !in moved && forall y :: y in [send] + moved ==> y !in [load] + ([x] + r)
    ensures forall y :: y in [load] + r ==> y != x && y != send && y !in moved
  {
    assert UnfoldSeparate(true);
    ApartStep(send, moved, load, x, r);
  }

  /** list_del of the first entry of load; send is another list. */
  method TakeOut(f: Sender, ghost load: Sender, ghost rest: seq<Sender>, ghost send: Sender, ghost moved: seq<Sender>)
    requires IsList(load, [f] + rest) && IsList(send, moved)
    requires forall y :: y in [send] + moved ==> y !in [load] + ([f] + rest)
    modifies [load]`next, [load]`prev, ([f] + rest)`next, ([f] + rest)`prev
    ensures IsList(load, rest) && IsList(send, moved)
  {
    assert Without([f] + rest, 0) == rest;
    ListDel(f, load, [f] + rest, 0);
    assert ([send] + moved)[1..] == moved;
    ListKept([send] + moved);
  }

  /** list_add to the front of send; load is another list. */
  method PutInFront(f: Sender, send: Sender, ghost moved: seq<Sender>, ghost load: Sender, ghost rest: seq<Sender>)
    requires IsList(send, moved) && IsList(load, rest) && f != send && f !in moved
    requires forall y :: y in [load] + rest ==> y != f && y != send && y !in moved
    modifies f`next, f`prev, [send]`next, [send]`prev, moved`next, moved`prev
    ensures IsList(send, [f] + moved) && IsList(load, rest)
  {
    assert Insert(moved, 0, f) == [f] + moved;
    ListAdd(f, send, send, moved, 0);
    assert ([load] + rest)[1..] == rest;
    ListKept([load] + rest);
  }

  lemma ReversedFront<T>(ls: seq<T>, i: nat, ss: seq<T>)
    requires i < |ls|
    ensures [ls[i]] + (Reverse(ls[..i]) + ss) == Reverse(ls[..i + 1]) + ss
  {
    assert ls[..i + 1] == ls[..i] + [ls[i]];
    ReverseSnoc(ls[..i], ls[i]);
  }

  /** The links during resume_send: load holds what the walk has not passed, send holds moved. */
  ghost predicate Resuming(load: Sender, ls: seq<Sender>, i: nat, f: SenderPtr, n: SenderPtr, send: Sender,
                           moved: seq<Sender>)
    reads [load]`next, [load]`prev, ls`next, ls`prev, [send]`next, [send]`prev, moved`next, moved`prev
  {
    && Walking(load, [], ls, i, f, n)
    && IsList(send, moved) && Separate(send, moved, load, ls[i..])
  }

  /** The send queue after i senders: they are in front of it, reversed.  Folded like IsList. */
  ghost predicate MovedIs(moved: seq<Sender>, ls: seq<Sender>, i: nat, ss: seq<Sender>) {
    i <= |ls| && forall u {:trigger Unfold(u)} :: Unfold(u) ==> moved == Reverse(ls[..i]) + ss
  }

  lemma MovedNone(ls: seq<Sender>, ss: seq<Sender>)
    ensures MovedIs(ss, ls, 0, ss)
  {
    assert Reverse(ls[..0]) + ss == ss;
  }

  lemma MovedOne(moved: seq<Sender>, ls: seq<Sender>, i: nat, ss: seq<Sender>)
    requires i < |ls| && MovedIs(moved, ls, i, ss)
    ensures MovedIs([ls[i]] + moved, ls, i + 1, ss)
  {
    assert Unfold(true);
    ReversedFront(ls, i, ss);
  }

  lemma MovedAll(moved: seq<Sender>, ls: seq<Sender>, i: nat, ss: seq<Sender>)
    requires MovedIs(moved, ls, i, ss)
    ensures moved == Reverse(ls[..i]) + ss
  {
    assert Unfold(true);
  }

  lemma {:induction false} ReverseAmong<T>(s: seq<T>)
    ensures forall j {:trigger Reverse(s)[j]} :: 0 <= j < |s| ==> Reverse(s)[j] in s
  {
    if s != [] {
      ReverseAmong(s[1..]);
      assert forall x :: x in s[1..] ==> x in s;
    }
  }

  lemma MovedAmong(moved: seq<Sender>, ls: seq<Sender>, i: nat, ss: seq<Sender>)
    requires MovedIs(moved, ls, i, ss)
    ensures forall j {:trigger moved[j]} :: 0 <= j < |moved| ==> moved[j] in ls || moved[j] in ss
  {
    var front := ls[..i];
    MovedAll(moved, ls, i, ss);
    ReverseAmong(front);
    assert forall x :: x in front ==> x in ls;
    assert forall j {:trigger moved[j]} :: 0 <= j < |moved| ==>
      moved[j] == if j < i then Reverse(front)[j] else ss[j - i];
  }

  /** The senders during resume_send: the first i have been offered, the k-th offer being answered by
      tox(k), and the others are as before. */
  ghost predicate Offering(tox: nat -> Reply, ls: seq<Sender>, infos: seq<FileSender>, i: nat)
    requires |infos| == |ls|
    reads ls`entry
  {
    && i <= |ls|
    && (forall j {:trigger ls[j]} :: 0 <= j < i ==> ls[j].entry == Offered(infos[j], tox(j)))
    && (forall j {:trigger ls[j]} :: i <= j < |ls| ==> ls[j].entry == infos[j])
  }

  /** The first k senders that get as far as toxcore have a file name. */
  ghost predicate Named(tox: nat -> Reply, infos: seq<FileSender>, k: nat) {
    forall j :: 0 <= j < k && j < |infos| && Sends(infos[j], tox(j)) ==> infos[j].info.file.Some?
  }

  /** list_del then list_add: the entry under the cursor leaves load for the front of send. */
  method HandOver(f: Sender, send: Sender, ghost load: Sender, ghost ls: seq<Sender>, ghost i: nat,
                  ghost moved: seq<Sender>, ghost ss: seq<Sender>)
    requires i < |ls| && f == ls[i] && IsList(load, [] + ls[i..]) && IsList(send, moved)
    requires Separate(send, moved, load, ls[i..]) && MovedIs(moved, ls, i, ss)
    modifies [load]`next, [load]`prev, ls`next, ls`prev, [send]`next, [send]`prev, ss`next, ss`prev
    ensures IsList(load, [] + ls[i + 1..]) && IsList(send, [f] + moved)
    ensures Separate(send, [f] + moved, load, ls[i + 1..])
  {
    ghost var rest := ls[i + 1..];
    assert ls[i..] == [f] + rest && [] + ls[i..] == ls[i..] && [] + rest == rest;
    SeparateStep(send, moved, load, f, rest);
    MovedAmong(moved, ls, i, ss);
    TakeOut(f, load, rest, send, moved);
    PutInFront(f, send, moved, load, rest);
  }

  /** add_filesender for the sender whose turn it is; no link of the two queues changes. */
  method OfferNext(tox: nat -> Reply, f: Sender, i: nat, ghost ls: seq<Sender>, ghost infos: seq<FileSender>,
                   ghost load: Sender, ghost rest: seq<Sender>, ghost send: Sender, ghost moved: seq<Sender>)
    requires i < |ls| == |infos| && f == ls[i] && Distinct(ls) && Offering(tox, ls, infos, i)
    requires Sends(infos[i], tox(i)) ==> infos[i].info.file.Some?
    requires IsList(load, rest) && IsList(send, moved)
    modifies f`entry
    ensures Offering(tox, ls, infos, i + 1)
    ensures IsList(load, rest) && IsList(send, moved)
  {
    var number := AddFileSender(f, tox(i));
  }

  /** list_del, list_add and add_filesender for the sender whose turn it is. */
  method HandOverAndOffer(tox: nat -> Reply, f: Sender, i: nat, send: Sender, ghost load: Sender, ghost ls: seq<Sender>,
                          ghost moved: seq<Sender>, ghost ss: seq<Sender>, ghost infos: seq<FileSender>)
    requires i < |ls| == |infos| && f == ls[i] && IsList(load, [] + ls[i..]) && IsList(send, moved)
    requires Separate(send, moved, load, ls[i..]) && MovedIs(moved, ls, i, ss)
    requires Distinct(ls) && Offering(tox, ls, infos, i)
    requires Sends(infos[i], tox(i)) ==> infos[i].info.file.Some?
    modifies [load]`next, [load]`prev, ls`next, ls`prev, f`entry, [send]`next, [send]`prev, ss`next, ss`prev
    ensures IsList(load, [] + ls[i + 1..]) && IsList(send, [f] + moved)
    ensures Separate(send, [f] + moved, load, ls[i + 1..])
    ensures Offering(tox, ls, infos, i + 1)
  {
    HandOver(f, send, load, ls, i, moved, ss);
    OfferNext(tox, f, i, ls, infos, load, [] + ls[i + 1..], send, [f] + moved);
  }

  /** The body of the resume_send loop and the step to the saved successor. */
  method ResumeOne(tox: nat -> Reply, f: Sender, n: Sender, i: nat, send: Sender, ghost load: Sender,
                   ghost ls: seq<Sender>, ghost moved: seq<Sender>, ghost ss: seq<Sender>, ghost infos: seq<FileSender>)
    returns (f': Sender, n': Sender)
    requires i < |ls| == |infos| && Resuming(load, ls, i, f, n, send, moved) && MovedIs(moved, ls, i, ss)
    requires Distinct(ls) && Offering(tox, ls, infos, i)
    requires Sends(infos[i], tox(i)) ==> infos[i].info.file.Some?
    modifies [load]`next, [load]`prev, ls`next, ls`prev, ls`entry, [send]`next, [send]`prev, ss`next, ss`prev
    ensures f == ls[i] && Resuming(load, ls, i + 1, f', n', send, [f] + moved)
    ensures Offering(tox, ls, infos, i + 1)
  {
    HandOverAndOffer(tox, f, i, send, load, ls, moved, ss, infos);
    f', n' := SafeNext(n, load, [], ls, i);
  }

  lemma OwnPrefixAt(infos: seq<FileSender>, friendNumber: uint32, k: nat)
    requires k <= OwnPrefix(infos, friendNumber) && k < |infos|
    ensures infos[k].friendNumber == friendNumber <==> k < OwnPrefix(infos, friendNumber)
  {
    OwnPrefixLongest(infos, friendNumber);
  }

  /** The loop of resume_send; k counts the offers. */
  method ResumeLoop(tox: nat -> Reply, send: Sender, load: Sender, friendNumber: uint32, first: Sender, second: Sender,
                    ghost ss: seq<Sender>, ghost ls: seq<Sender>, ghost infos: seq<FileSender>) returns (k: nat)
    requires load !in ls && Distinct(ls) && |infos| == |ls| && Offering(tox, ls, infos, 0)
    requires Resuming(load, ls, 0, first, second, send, ss)
    requires Named(tox, infos, OwnPrefix(infos, friendNumber))
    modifies [load]`next, [load]`prev, ls`next, ls`prev, ls`entry, [send]`next, [send]`prev, ss`next, ss`prev
    ensures k == OwnPrefix(infos, friendNumber) && Offering(tox, ls, infos, k)
    ensures IsList(load, [] + ls[k..]) && IsList(send, Reverse(ls[..k]) + ss)
  {
    ghost var moved := ss;
    k := 0;
    MovedNone(ls, ss);
    var f, n := first, second;
    while f != load
      invariant Resuming(load, ls, k, f, n, send, moved) && MovedIs(moved, ls, k, ss)
      invariant k <= OwnPrefix(infos, friendNumber)
      invariant Offering(tox, ls, infos, k)
      decreases |ls| - k
    {
      assert f.entry == infos[k];
      OwnPrefixAt(infos, friendNumber, k);
      if f.entry.friendNumber != friendNumber {
        break;
      }
      MovedOne(moved, ls, k, ss);
      ghost var now := [f] + moved;
      f, n := ResumeOne(tox, f, n, k, send, load, ls, moved, ss, infos);
      moved := now;
      k := k + 1;
    }
    MovedAll(moved, ls, k, ss);
  }

  /** resume_send: the longest front part of load that belongs to the friend, k senders, ends up,
      reversed, at the front of send; the rest of load stays as it is, and so does every sender that
      is not offered.  No sender is lost or doubled. */
  method ResumeSend(tox: nat -> Reply, send: Sender, load: Sender, friendNumber: uint32,
                    ghost ss: seq<Sender>, ghost ls: seq<Sender>) returns (k: nat)
    requires IsList(send, ss) && IsList(load, ls) && Distinct([send] + ss + ([load] + ls))
    requires Named(tox, Contents(ls), OwnPrefix(Contents(ls), friendNumber))
    modifies [load]`next, [load]`prev, ls`next, ls`prev, ls`entry, [send]`next, [send]`prev, ss`next, ss`prev
    ensures k == OwnPrefix(old(Contents(ls)), friendNumber)
    ensures IsList(load, ls[k..]) && IsList(send, Reverse(ls[..k]) + ss)
    ensures Offering(tox, ls, old(Contents(ls)), k)
    ensures multiset(Reverse(ls[..k]) + ss) + multiset(ls[k..]) == multiset(ss) + multiset(ls)
  {
    HeadNotEntry(load, ls);
    var f, n := SafeFirst(load, ls);
    SeparateAtStart(send, ss, load, ls);
    k := ResumeLoop(tox, send, load, friendNumber, f, n, ss, ls, Contents(ls));
    assert [] + ls[k..] == ls[k..];
    Conserved(ls, k, ss);
  }

  lemma Conserved<T>(ls: seq<T>, k: nat, ss: seq<T>)
    requires k <= |ls|
    ensures multiset(Reverse(ls[..k]) + ss) + multiset(ls[k..]) == multiset(ss) + multiset(ls)
  {
    ReverseMultiset(ls[..k]);
    assert ls == ls[..k] + ls[k..];
  }

  // ---- Finding what was resumed ----

  /** The file number of a sender after an offer. */
  ghost function NumberAfter(s: FileSender, r: Reply): uint32 {
    if s.isOpen || (s.pathname.Some? && r.opens) then r.fileNumber else s.fileNumber
  }

  /** No sender that was handed over after position j has this number. */
  ghost predicate NoneLater(tox: nat -> Reply, infos: seq<FileSender>, j: nat, k: nat, number: uint32)
    requires k <= |infos|
  {
    forall i :: j < i < k ==> NumberAfter(infos[i], tox(i)) != number
  }

  lemma MovedAt(tox: nat -> Reply, ls: seq<Sender>, infos: seq<FileSender>, k: nat, ss: seq<Sender>, j: nat)
    requires j < k <= |ls| == |infos| && Offering(tox, ls, infos, k)
    ensures var moved := Reverse(ls[..k]) + ss;
      var s := Contents(moved)[k - 1 - j];
      && moved[k - 1 - j] == ls[j] && s.friendNumber == infos[j].friendNumber
      && s.fileNumber == NumberAfter(infos[j], tox(j))
  {
    ReverseAt(ls[..k], k - 1 - j);
    OfferedFields(infos[j], tox(j));
  }

  /** A lookup in the send queue finds the sender handed over from position j, unless one handed over later
      has the same number. */
  lemma FirstIsMoved(tox: nat -> Reply, ls: seq<Sender>, infos: seq<FileSender>, k: nat, ss: seq<Sender>, j: nat,
                     friendNumber: uint32)
    requires j < k <= |ls| == |infos| && Offering(tox, ls, infos, k)
    requires forall i :: 0 <= i < k ==> infos[i].friendNumber == friendNumber
    ensures FirstMatch(Contents(Reverse(ls[..k]) + ss), friendNumber, NumberAfter(infos[j], tox(j))) == k - 1 - j
      <==> NoneLater(tox, infos, j, k, NumberAfter(infos[j], tox(j)))
    ensures FirstMatch(Contents(Reverse(ls[..k]) + ss), friendNumber, NumberAfter(infos[j], tox(j))) <= k - 1 - j
  {
    var number := NumberAfter(infos[j], tox(j));
    var moved := Contents(Reverse(ls[..k]) + ss);
    MovedAt(tox, ls, infos, k, ss, j);
    forall i | j < i < k
      ensures moved[k - 1 - i].friendNumber == friendNumber
      ensures moved[k - 1 - i].fileNumber == NumberAfter(infos[i], tox(i))
    {
      MovedAt(tox, ls, infos, k, ss, i);
    }
    var m := FirstMatch(moved, friendNumber, number);
    if m < k - 1 - j {
      assert NumberAfter(infos[k - 1 - m], tox(k - 1 - m)) == number;
    }
  }

  lemma FoundIsResumed(tox: nat -> Reply, ls: seq<Sender>, infos: seq<FileSender>, k: nat, ss: seq<Sender>, j: nat,
                       friendNumber: uint32, moved: seq<Sender>, r: SenderPtr)
    requires |ls| == |infos| && j < k == OwnPrefix(infos, friendNumber) && Offering(tox, ls, infos, k)
    requires Distinct(moved) && moved == Reverse(ls[..k]) + ss && Sends(infos[j], tox(j))
    requires IsFirstMatch(r, moved, Contents(moved), friendNumber, tox(j).fileNumber)
    ensures r == ls[j] <==> NoneLater(tox, infos, j, k, tox(j).fileNumber)
  {
    OwnPrefixLongest(infos, friendNumber);
    FirstIsMoved(tox, ls, infos, k, ss, j, friendNumber);
    MovedAt(tox, ls, infos, k, ss, j);
  }

  /** resume_send, and then a chunk request for the j-th of the senders handed over: the lookup returns
      that very node, unless one offered later got the same number. */
  method ResumeThenGet(tox: nat -> Reply, send: Sender, load: Sender, friendNumber: uint32, j: nat,
                       ghost ss: seq<Sender>, ghost ls: seq<Sender>) returns (k: nat, r: SenderPtr)
    requires IsList(send, ss) && IsList(load, ls) && Distinct([send] + ss + ([load] + ls))
    requires Named(tox, Contents(ls), OwnPrefix(Contents(ls), friendNumber))
    requires j < OwnPrefix(Contents(ls), friendNumber)
    requires ls[j].entry.isOpen || (ls[j].entry.pathname.Some? && tox(j).opens)
    modifies [load]`next, [load]`prev, ls`next, ls`prev, ls`entry, [send]`next, [send]`prev, ss`next, ss`prev
    ensures j < k <= |ls|
    ensures r == ls[j] <==> NoneLater(tox, old(Contents(ls)), j, k, tox(j).fileNumber)
  {
    ghost var infos := Contents(ls);
    k := ResumeSend(tox, send, load, friendNumber, ss, ls);
    ghost var moved := Reverse(ls[..k]) + ss;
    HeadNotEntry(send, moved);
    r := SenderGet(send, friendNumber, tox(j).fileNumber, moved);
    FoundIsResumed(tox, ls, infos, k, ss, j, friendNumber, moved, r);
  }
}
