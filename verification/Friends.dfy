/** The friend list of friend.c: sorted insertion, lookups, and removal during a walk. */
module Friends {
  import opened Bytes
  import opened LinkedList
  import opened Sequences
  import opened SortedInsertion

  const PUBLIC_KEY_SIZE := 32
  const UINT64_MAX := 0xFFFF_FFFF_FFFF_FFFF

  type uint32 = i: int | 0 <= i < 0x1_0000_0000
  type uint64 = i: int | 0 <= i <= UINT64_MAX

  type PublicKey = k: seq<byte> | |k| == PUBLIC_KEY_SIZE witness seq(32, _ => 0)

  datatype FriendInfo = FriendInfo(friendNumber: uint32, key: PublicKey, lastOnline: uint64)

  type Friend = ListHead<FriendInfo>
  type FriendPtr = ListHead?<FriendInfo>

  // ---- Lookups ----

  function FindByNumber(fs: seq<FriendInfo>, number: uint32): Option<FriendInfo>
  {
    if fs == [] then None else if fs[0].friendNumber == number then Some(fs[0]) else FindByNumber(fs[1..], number)
  }

  function FindByKey(fs: seq<FriendInfo>, key: PublicKey): Option<FriendInfo>
  {
    if fs == [] then None else if fs[0].key == key then Some(fs[0]) else FindByKey(fs[1..], key)
  }

  lemma {:induction false} FindByNumberFirst(fs: seq<FriendInfo>, number: uint32)
    ensures match FindByNumber(fs, number)
      case None => forall f :: f in fs ==> f.friendNumber != number
      case Some(f) =>
        f.friendNumber == number
        && exists k :: 0 <= k < |fs| && fs[k] == f && forall j :: 0 <= j < k ==> fs[j].friendNumber != number
  {
    if fs != [] && fs[0].friendNumber != number {
      FindByNumberFirst(fs[1..], number);
      assert fs == [fs[0]] + fs[1..];
      match FindByNumber(fs, number) {
        case None =>
        case Some(f) =>
          var k :| 0 <= k < |fs[1..]| && fs[1..][k] == f && forall j :: 0 <= j < k ==>
              fs[1..][j].friendNumber != number;
          assert fs[k + 1] == f;
      }
    }
  }

  lemma {:induction false} FindByKeyFirst(fs: seq<FriendInfo>, key: PublicKey)
    ensures match FindByKey(fs, key)
      case None => forall f :: f in fs ==> f.key != key
      case Some(f) =>
        f.key == key && exists k :: 0 <= k < |fs| && fs[k] == f && forall j :: 0 <= j < k ==> fs[j].key != key
  {
    if fs != [] && fs[0].key != key {
      FindByKeyFirst(fs[1..], key);
      assert fs == [fs[0]] + fs[1..];
      match FindByKey(fs, key) {
        case None =>
        case Some(f) =>
          var k :| 0 <= k < |fs[1..]| && fs[1..][k] == f && forall j :: 0 <= j < k ==> fs[1..][j].key != key;
          assert fs[k + 1] == f;
      }
    }
  }

  ghost function Found(f: FriendPtr): Option<FriendInfo>
    reads f
  {
    if f == null then None else Some(f.entry)
  }

  /** friend_info_by_friend_number: the first friend with that number. */
  method ByFriendNumber(friends: Friend, number: uint32, ghost fs: seq<Friend>) returns (r: FriendPtr)
    requires IsList(friends, fs)
    ensures r != null ==> r in fs
    ensures Found(r) == FindByNumber(Contents(fs), number)
  {
    ghost var i, infos := 0, Contents(fs);
    HeadNotEntry(friends, fs);
    WalkStep(friends, fs, 0);
    var f := friends.next;
    while f != friends
      invariant 0 <= i <= |fs| && f == NodeAt(friends, fs, i)
      invariant FindByNumber(infos, number) == FindByNumber(infos[i..], number)
      decreases |fs| - i
    {
      WalkStep(friends, fs, i);
      assert infos[i..][1..] == infos[i + 1..] && infos[i] == f.entry;
      if f.entry.friendNumber == number {
        return f;
      }
      f := f.next;
      i := i + 1;
    }
    r := null;
  }

  /** friend_info_by_public_keybin: the first friend with that key. */
  method ByPublicKeyBin(friends: Friend, key: PublicKey, ghost fs: seq<Friend>) returns (r: FriendPtr)
    requires IsList(friends, fs)
    ensures r != null ==> r in fs
    ensures Found(r) == FindByKey(Contents(fs), key)
  {
    ghost var i, infos := 0, Contents(fs);
    HeadNotEntry(friends, fs);
    WalkStep(friends, fs, 0);
    var f := friends.next;
    while f != friends
      invariant 0 <= i <= |fs| && f == NodeAt(friends, fs, i)
      invariant FindByKey(infos, key) == FindByKey(infos[i..], key)
      decreases |fs| - i
    {
      WalkStep(friends, fs, i);
      assert infos[i..][1..] == infos[i + 1..] && infos[i] == f.entry;
      if f.entry.key == key {
        return f;
      }
      f := f.next;
      i := i + 1;
    }
    r := null;
  }

  // ---- Sorted insertion ----

  function NumberOf(f: FriendInfo): int {
    f.friendNumber
  }

  /** friend_info_add_entry.  The key and last_online that malloc leaves undefined are parameters. */
  method AddEntry(friends: Friend, friendNumber: uint32, undefinedKey: PublicKey, undefinedOnline: uint64,
                  ghost fs: seq<Friend>)
    returns (friend: Friend)
    requires IsList(friends, fs)
    modifies [friends]`next, [friends]`prev, fs`next, fs`prev
    ensures fresh(friend) && friend.entry == FriendInfo(friendNumber, undefinedKey, undefinedOnline)
    ensures IsList(friends, Insert(fs, Slot(old(Contents(fs)), NumberOf, friendNumber), friend))
  {
    ghost var k := Slot(Contents(fs), NumberOf, friendNumber);
    var ptr := FindSlot(friends, NumberOf, friendNumber, fs);
    friend := new ListHead(FriendInfo(friendNumber, undefinedKey, undefinedOnline));
    assert ([friends] + fs)[1..] == fs;
    ListKept([friends] + fs);
    ListAddTail(friend, ptr, friends, fs, k);
  }

  // ---- Removal during a walk ----

  /** Whether friend_cleanup removes a friend; the difference is unsigned and wraps. */
  predicate Expired(f: FriendInfo, timeout: uint64, currentTime: uint64) {
    f.lastOnline != UINT64_MAX && (currentTime - f.lastOnline) % (UINT64_MAX + 1) >= timeout
  }

  /** Which friends friend_cleanup keeps. */
  ghost function Keepers(fs: seq<FriendInfo>, timeout: uint64, currentTime: uint64): (r: seq<bool>)
    ensures |r| == |fs|
  {
    seq(|fs|, i requires 0 <= i < |fs| => !Expired(fs[i], timeout, currentTime))
  }

  /** The nodes that friend_cleanup keeps are those of friends never seen and of friends seen within the
      timeout, in their old order. */
  lemma KeptFriends(fs: seq<Friend>, infos: seq<FriendInfo>, timeout: uint64, currentTime: uint64)
    requires Distinct(fs) && |infos| == |fs|
    ensures var kept := Select(fs, Keepers(infos, timeout, currentTime));
      && Subsequence(kept, fs)
      && forall i :: 0 <= i < |fs| ==>
        (fs[i] in kept <==>
          || infos[i].lastOnline == 0xFFFF_FFFF_FFFF_FFFF
          || (currentTime - infos[i].lastOnline) % 0x1_0000_0000_0000_0000 < timeout)
  {
    SelectMembers(fs, Keepers(infos, timeout, currentTime));
  }

  /** The loop body of friend_cleanup: keeps the node under the cursor or destroys it. */
  method CleanupOne(timeout: uint64, currentTime: uint64, f: Friend, friends: Friend,
                    ghost kept: seq<Friend>, ghost fs: seq<Friend>, ghost i: nat) returns (ghost kept': seq<Friend>)
    requires i < |fs| && f == fs[i] && IsList(friends, kept + fs[i..])
    modifies [friends]`next, [friends]`prev, kept`next, kept`prev, fs`next, fs`prev
    ensures kept' == if Expired(f.entry, timeout, currentTime) then kept else kept + [f]
    ensures IsList(friends, kept' + fs[i + 1..])
  {
    kept' := kept;
    if f.entry.lastOnline == UINT64_MAX || (currentTime - f.entry.lastOnline) % (UINT64_MAX + 1) < timeout {
      KeepOnWalk(friends, kept, fs, i);
      kept' := kept + [f];
    } else {
      DelOnWalk(f, friends, kept, fs, i);
    }
  }

  /** What friend_cleanup has kept of the friends behind it, and what it will keep.  Folded like IsList. */
  ghost predicate Cleaning(fs: seq<Friend>, flags: seq<bool>, kept: seq<Friend>, i: nat)
    requires |flags| == |fs|
  {
    && i <= |fs|
    && forall u {:trigger Unfold(u)} :: Unfold(u) ==> Select(fs, flags) == kept + Select(fs[i..], flags[i..])
  }

  lemma CleaningStarts(fs: seq<Friend>, flags: seq<bool>)
    requires |flags| == |fs|
    ensures Cleaning(fs, flags, [], 0)
  {
    assert fs[0..] == fs && flags[0..] == flags && [] + Select(fs, flags) == Select(fs, flags);
  }

  lemma CleaningStep(fs: seq<Friend>, flags: seq<bool>, kept: seq<Friend>, i: nat)
    requires i < |fs| == |flags| && Cleaning(fs, flags, kept, i)
    ensures Cleaning(fs, flags, if flags[i] then kept + [fs[i]] else kept, i + 1)
  {
    assert Unfold(true);
    SelectOn(kept, fs, flags, i);
  }

  lemma CleaningEnds(fs: seq<Friend>, flags: seq<bool>, kept: seq<Friend>)
    requires |flags| == |fs| && Cleaning(fs, flags, kept, |fs|)
    ensures kept == Select(fs, flags) && kept + fs[|fs|..] == kept
  {
    assert Unfold(true);
    assert fs[|fs|..] == [] && kept + [] == kept;
  }

  /** friend_cleanup: the walk deletes the node it stands on and goes on at the saved successor. */
  method Cleanup(timeout: uint64, currentTime: uint64, friends: Friend, ghost fs: seq<Friend>)
    requires IsList(friends, fs)
    modifies [friends]`next, [friends]`prev, fs`next, fs`prev
    ensures IsList(friends, Select(fs, Keepers(old(Contents(fs)), timeout, currentTime)))
  {
    ghost var kept: seq<Friend>, flags := [], Keepers(Contents(fs), timeout, currentTime);
    ghost var i := 0;
    CleaningStarts(fs, flags);
    HeadNotEntry(friends, fs);
    var f, n := SafeFirst(friends, fs);
    while f != friends
      invariant Walking(friends, kept, fs, i, f, n) && Cleaning(fs, flags, kept, i)
      invariant forall k {:trigger kept[k]} :: 0 <= k < |kept| ==> kept[k] in fs
      decreases |fs| - i
    {
      CleaningStep(fs, flags, kept, i);
      kept := CleanupOne(timeout, currentTime, f, friends, kept, fs, i);
      f, n := SafeNext(n, friends, kept, fs, i);
      i := i + 1;
    }
    CleaningEnds(fs, flags, kept);
  }
}
