/** Saving the transfer queue to a file and loading it back, as in tsfiles.c. */
module Persistence {
  import opened Bytes
  import opened Bencode
  import opened BencodeLaws
  import opened BencodeGrammar
  import opened BencodeIO
  import opened BencodeTree
  import opened LinkedList
  import opened Sequences
  import opened Friends
  import opened FileQueue
  import opened Numerals

  const NAME: CString := [110, 97, 109, 101]
  const LENGTH: CString := [108, 101, 110, 103, 116, 104]
  const HASH: CString := [104, 97, 115, 104]
  const TOXID: CString := [116, 111, 120, 105, 100]
  const PATH: CString := [112, 97, 116, 104]
  const INFO: CString := [105, 110, 102, 111]

  // ---- FileNode <-> tree ----

  /** What the encoder reads of a file node: a name and a 32 byte hash. */
  predicate HasNameAndHash(fn: FileNode) {
    fn.file.Some? && fn.hash.Some? && |fn.hash.value| == FILE_ID_LENGTH
  }

  function FileNodeEntries(fn: FileNode): seq<Entry>
    requires HasNameAndHash(fn)
  {
    [Entry(NAME, Str(Some(fn.file.value))), Entry(LENGTH, Int(fn.length)), Entry(HASH, Str(Some(fn.hash.value)))]
  }

  /** encode_FileNode. */
  method EncodeFileNode(info: NodeRef, fn: FileNode)
    requires info.node.Dict? && HasNameAndHash(fn)
    modifies info
    ensures info.node == Dict(old(info.node).entries + FileNodeEntries(fn))
  {
    ghost var before := info.node.entries;
    var name := CreateStrWlen(fn.file.value, |fn.file.value|);
    var length := Int(fn.length);
    var hash := CreateStrWlen(fn.hash.value, FILE_ID_LENGTH);
    assert fn.file.value[..|fn.file.value|] == fn.file.value && fn.hash.value[..FILE_ID_LENGTH] == fn.hash.value;
    var added := AddKeypair(info, NAME, name);
    added := AddKeypair(info, LENGTH, length);
    added := AddKeypair(info, HASH, hash);
    assert info.node.entries == before + FileNodeEntries(fn);
  }

  /** The first 32 bytes at the text pointer of a string; the text is followed by a NUL. */
  function First32(t: Node): (r: seq<byte>)
    requires t.Str? && t.s.Some? && |t.s.value| >= FILE_ID_LENGTH - 1
    ensures |r| == FILE_ID_LENGTH
  {
    (t.s.value + [NUL])[..FILE_ID_LENGTH]
  }

  predicate IsText(t: Node) {
    t.Str? && t.s.Some?
  }

  predicate Is32Bytes(t: Node) {
    IsText(t) && |t.s.value| >= FILE_ID_LENGTH - 1
  }

  /** What decode_FileNode takes for granted about the types of the values it knows. */
  predicate InfoTyped(entries: seq<Entry>) {
    forall i :: 0 <= i < |entries| ==>
      && (CStr(entries[i].key) == NAME ==> IsText(entries[i].val))
      && (CStr(entries[i].key) == LENGTH ==> entries[i].val.Int?)
      && (CStr(entries[i].key) == HASH ==> Is32Bytes(entries[i].val))
  }

  /** Reading one dictionary slot into a file node; unknown keys are ignored. */
  function ReadInfoEntry(f: FileNode, e: Entry): FileNode
    requires InfoTyped([e])
  {
    assert [e][0] == e;
    if CStr(e.key) == NAME then f.(file := Some(CStr(e.val.s.value)))
    else if CStr(e.key) == LENGTH then f.(length := e.val.i)
    else if CStr(e.key) == HASH then f.(hash := Some(First32(e.val)))
    else f
  }

  /** Later slots override earlier ones. */
  function ReadInfo(f: FileNode, entries: seq<Entry>): FileNode
    requires InfoTyped(entries)
    decreases |entries|
  {
    if entries == [] then f
    else
      assert [entries[0]][0] == entries[0];
      ReadInfo(ReadInfoEntry(f, entries[0]), entries[1..])
  }

  /** Entry i is the last one with this key. */
  ghost predicate LastWith(entries: seq<Entry>, key: CString, i: nat) {
    i < |entries| && CStr(entries[i].key) == key && NoSlot(entries[i + 1..], key)
  }

  ghost predicate NoSlot(entries: seq<Entry>, key: CString) {
    forall j :: 0 <= j < |entries| ==> CStr(entries[j].key) != key
  }

  /** A slot that does not occur leaves its field alone; time and presence are never read. */
  lemma {:induction false} ReadInfoKeeps(f: FileNode, entries: seq<Entry>)
    requires InfoTyped(entries)
    ensures var r := ReadInfo(f, entries);
      && (NoSlot(entries, NAME) ==> r.file == f.file) && (NoSlot(entries, LENGTH) ==> r.length == f.length)
      && (NoSlot(entries, HASH) ==> r.hash == f.hash) && r.mtime == f.mtime && r.present == f.present
    decreases |entries|
  {
    if entries != [] {
      assert [entries[0]][0] == entries[0];
      NoSlotRest(entries);
      ReadInfoKeeps(ReadInfoEntry(f, entries[0]), entries[1..]);
    }
  }

  lemma NoSlotRest(entries: seq<Entry>)
    requires entries != []
    ensures forall key :: NoSlot(entries, key) ==> CStr(entries[0].key) != key && NoSlot(entries[1..], key)
  {
  }

  /** The last slot of a name gives its field, whatever else is in the dictionary. */
  lemma {:induction false} LastSlotIsRead(f: FileNode, entries: seq<Entry>, i: nat)
    requires InfoTyped(entries)
    ensures var r := ReadInfo(f, entries);
      && (LastWith(entries, NAME, i) ==> r.file == Some(CStr(entries[i].val.s.value)))
      && (LastWith(entries, LENGTH, i) ==> r.length == entries[i].val.i)
      && (LastWith(entries, HASH, i) ==> r.hash == Some((entries[i].val.s.value + [0])[..32]))
    decreases |entries|
  {
    if i < |entries| {
      assert [entries[0]][0] == entries[0];
      var f' := ReadInfoEntry(f, entries[0]);
      if i == 0 {
        InfoKeys();
        ReadInfoKeeps(f', entries[1..]);
      } else {
        assert entries[1..][i - 1] == entries[i] && entries[1..][i..] == entries[i + 1..];
        LastSlotIsRead(f', entries[1..], i - 1);
      }
    }
  }

  /** decode_FileNode. */
  method DecodeFileNode(f: FileNode, entries: seq<Entry>) returns (r: FileNode)
    requires InfoTyped(entries)
    ensures r == ReadInfo(f, entries)
  {
    r := f;
    var j := 0;
    while j < |entries|
      invariant 0 <= j <= |entries|
      invariant ReadInfo(f, entries) == ReadInfo(r, entries[j..])
    {
      var e := entries[j];
      assert entries[j..][1..] == entries[j + 1..] && [e][0] == e;
      if CStr(e.key) == NAME {
        r := r.(file := Some(CStr(e.val.s.value)));
      } else if CStr(e.key) == LENGTH {
        r := r.(length := e.val.i);
      } else if CStr(e.key) == HASH {
        r := r.(hash := Some(First32(e.val)));
      }
      j := j + 1;
    }
  }

  /** Name, length and hash survive; time and presence are not stored. */
  lemma FileNodeRoundTrip(f: FileNode, fn: FileNode)
    requires HasNameAndHash(fn)
    ensures InfoTyped(FileNodeEntries(fn))
    ensures ReadInfo(f, FileNodeEntries(fn)) == f.(file := fn.file, length := fn.length, hash := fn.hash)
  {
    var es := FileNodeEntries(fn);
    FileNodeEntry(f, fn);
    FileNodeEntry(f.(file := fn.file), fn);
    FileNodeEntry(f.(file := fn.file, length := fn.length), fn);
    ReadInfoCons(f.(file := fn.file, length := fn.length), es[2], []);
    ReadInfoCons(f.(file := fn.file), es[1], [es[2]]);
    ReadInfoCons(f, es[0], [es[1], es[2]]);
    assert es == [es[0]] + [es[1], es[2]] && [es[1], es[2]] == [es[1]] + [es[2]] && [es[2]] == [es[2]] + [];
  }

  lemma FileNodeEntry(f: FileNode, fn: FileNode)
    requires HasNameAndHash(fn)
    ensures var es := FileNodeEntries(fn);
      && |es| == 3 && InfoTyped([es[0]]) && InfoTyped([es[1]]) && InfoTyped([es[2]])
      && ReadInfoEntry(f, es[0]) == f.(file := fn.file)
      && ReadInfoEntry(f, es[1]) == f.(length := fn.length)
      && ReadInfoEntry(f, es[2]) == f.(hash := fn.hash)
  {
    InfoKeys();
    CStrIdentity(fn.file.value);
    assert First32(FileNodeEntries(fn)[2].val) == fn.hash.value;
  }

  lemma ReadInfoCons(f: FileNode, e: Entry, es: seq<Entry>)
    requires InfoTyped([e]) && InfoTyped(es)
    ensures InfoTyped([e] + es) && ReadInfo(f, [e] + es) == ReadInfo(ReadInfoEntry(f, e), es)
  {
    assert [e][0] == e && ([e] + es)[1..] == es;
  }

  lemma InfoKeys()
    ensures CStr(NAME) == NAME && CStr(LENGTH) == LENGTH && CStr(HASH) == HASH
    ensures NAME != LENGTH && NAME != HASH && LENGTH != HASH
  {
    CStrIdentity(NAME);
    CStrIdentity(LENGTH);
    CStrIdentity(HASH);
    assert NAME[0] == 110 && LENGTH[0] == 108 && HASH[0] == 104;
  }

  lemma SenderKeys()
    ensures CStr(TOXID) == TOXID && CStr(PATH) == PATH && CStr(INFO) == INFO
    ensures TOXID != PATH && TOXID != INFO && PATH != INFO
  {
    CStrIdentity(TOXID);
    CStrIdentity(PATH);
    CStrIdentity(INFO);
    assert TOXID[0] == 116 && PATH[0] == 112 && INFO[0] == 105;
  }

  /** The tree of a sender, spelled out. */
  lemma SenderSpelled(s: FileSender, key: PublicKey)
    requires s.pathname.Some? && HasNameAndHash(s.info)
    ensures SenderEntries(s, key) ==
      [Entry(Ascii("toxid"), Str(Some(key))), Entry(Ascii("path"), Str(s.pathname)),
       Entry(Ascii("info"), Dict([Entry(Ascii("name"), Str(s.info.file)), Entry(Ascii("length"), Int(s.info.length)),
                                  Entry(Ascii("hash"), Str(s.info.hash))]))]
  {
    KeysSpelled();
  }

  lemma KeysSpelled()
    ensures NAME == Ascii("name") && LENGTH == Ascii("length") && HASH == Ascii("hash")
    ensures TOXID == Ascii("toxid") && PATH == Ascii("path") && INFO == Ascii("info")
  {
  }

  // ---- save_senders ----

  /** How many senders are saved: the loop stops at the first one without a path or a known friend. */
  ghost function SavedCount(senders: seq<FileSender>, friends: seq<FriendInfo>): (k: nat)
    ensures k <= |senders|
  {
    if senders == [] || senders[0].pathname.None? || FindByNumber(friends, senders[0].friendNumber).None? then 0
    else 1 + SavedCount(senders[1..], friends)
  }

  /** It is the longest front part of savable senders. */
  lemma {:induction false} SavedCountLongest(senders: seq<FileSender>, friends: seq<FriendInfo>)
    ensures var k := SavedCount(senders, friends);
      && (forall i :: 0 <= i < k ==> senders[i].pathname.Some? && FindByNumber(friends, senders[i].friendNumber).Some?)
      && (k < |senders| ==> senders[k].pathname.None? || FindByNumber(friends, senders[k].friendNumber).None?)
  {
    if senders != [] && senders[0].pathname.Some? && FindByNumber(friends, senders[0].friendNumber).Some? {
      SavedCountLongest(senders[1..], friends);
      assert forall i :: 1 <= i < |senders| ==> senders[i] == senders[1..][i - 1];
    }
  }

  /** The saved senders' files have a name and a hash; the encoder would read through null otherwise. */
  ghost predicate Savable(senders: seq<FileSender>, friends: seq<FriendInfo>) {
    forall i :: 0 <= i < SavedCount(senders, friends) ==> HasNameAndHash(senders[i].info)
  }

  function SenderEntries(s: FileSender, key: PublicKey): seq<Entry>
    requires s.pathname.Some? && HasNameAndHash(s.info)
  {
    [Entry(TOXID, Str(Some(key))), Entry(PATH, Str(Some(s.pathname.value))), Entry(INFO, Dict(FileNodeEntries(s.info)))]
  }

  ghost function SavedItems(senders: seq<FileSender>, friends: seq<FriendInfo>): (items: seq<Node>)
    requires Savable(senders, friends)
    ensures |items| == SavedCount(senders, friends)
  {
    if SavedCount(senders, friends) == 0 then []
    else
      var key := FindByNumber(friends, senders[0].friendNumber).value.key;
      SavableTail(senders, friends);
      [Dict(SenderEntries(senders[0], key))] + SavedItems(senders[1..], friends)
  }

  lemma SavableTail(senders: seq<FileSender>, friends: seq<FriendInfo>)
    requires Savable(senders, friends) && SavedCount(senders, friends) > 0
    ensures HasNameAndHash(senders[0].info) && Savable(senders[1..], friends)
  {
    assert forall i :: 0 <= i < |senders| - 1 ==> senders[1..][i] == senders[i + 1];
  }

  /** The dictionary of one sender. */
  method SenderTree(s: FileSender, key: PublicKey) returns (t: Node)
    requires s.pathname.Some? && HasNameAndHash(s.info)
    ensures t == Dict(SenderEntries(s, key))
  {
    var filesend := CreateDict();
    var toxid := CreateStrWlen(key, PUBLIC_KEY_SIZE);
    var path := CreateStrWlen(s.pathname.value, |s.pathname.value|);
    assert key[..PUBLIC_KEY_SIZE] == key && s.pathname.value[..|s.pathname.value|] == s.pathname.value;
    var info := CreateDict();
    EncodeFileNode(info, s.info);
    var added := AddKeypair(filesend, TOXID, toxid);
    added := AddKeypair(filesend, PATH, path);
    added := AddKeypair(filesend, INFO, info.node);
    assert [] + FileNodeEntries(s.info) == FileNodeEntries(s.info);
    assert filesend.node.entries == SenderEntries(s, key);
    t := filesend.node;
  }

  /** The trees of the saved senders, spelled out, in the order of the queue. */
  lemma {:induction false} SavedItemAt(senders: seq<FileSender>, friends: seq<FriendInfo>, i: nat)
    requires Savable(senders, friends) && i < SavedCount(senders, friends)
    ensures var s := senders[i];
      FindByNumber(friends, s.friendNumber).Some? &&
      SavedItems(senders, friends)[i] == Dict(
        [Entry(Ascii("toxid"), Str(Some(FindByNumber(friends, s.friendNumber).value.key))),
         Entry(Ascii("path"), Str(s.pathname)),
         Entry(Ascii("info"), Dict([Entry(Ascii("name"), Str(s.info.file)), Entry(Ascii("length"), Int(s.info.length)),
                                    Entry(Ascii("hash"), Str(s.info.hash))]))])
  {
    SavableTail(senders, friends);
    if i > 0 {
      SavedItemAt(senders[1..], friends, i - 1);
    } else {
      SenderSpelled(senders[0], FindByNumber(friends, senders[0].friendNumber).value.key);
    }
  }

  /** What the save loop makes of one sender; None ends the loop. */
  ghost function SavedItem(s: FileSender, friends: seq<FriendInfo>): Option<Node>
    requires HasNameAndHash(s.info) || s.pathname.None? || FindByNumber(friends, s.friendNumber).None?
  {
    if s.pathname.None? then None
    else
      match FindByNumber(friends, s.friendNumber)
      case None => None
      case Some(fr) => Some(Dict(SenderEntries(s, fr.key)))
  }

  method SaveOne(f: Sender, friends: Friend, ghost fs: seq<Friend>) returns (r: Option<Node>)
    requires IsList(friends, fs)
    requires HasNameAndHash(f.entry.info) || f.entry.pathname.None?
        || FindByNumber(Contents(fs), f.entry.friendNumber).None?
    ensures r == SavedItem(old(f.entry), old(Contents(fs)))
  {
    if f.entry.pathname.None? {
      return None;
    }
    var fr := ByFriendNumber(friends, f.entry.friendNumber, fs);
    if fr == null {
      return None;
    }
    var filesend := SenderTree(f.entry, fr.entry.key);
    return Some(filesend);
  }

  lemma SavedItemsStep(infos: seq<FileSender>, known: seq<FriendInfo>, i: nat)
    requires i < |infos| && Savable(infos[i..], known)
    ensures HasNameAndHash(infos[i].info) || infos[i].pathname.None? || FindByNumber(known, infos[i].friendNumber).None?
    ensures match SavedItem(infos[i], known)
      case None => SavedItems(infos[i..], known) == []
      case Some(t) =>
        Savable(infos[i + 1..], known) && SavedItems(infos[i..], known) == [t] + SavedItems(infos[i + 1..], known)
  {
    assert infos[i..][1..] == infos[i + 1..];
    if SavedCount(infos[i..], known) > 0 {
      SavableTail(infos[i..], known);
    }
  }

  /** The queue and the friends as they were, and what the first i senders have added to ROOT. */
  ghost predicate Saving(root: Node, queue: Sender, qs: seq<Sender>, friends: Friend, fs: seq<Friend>,
                         infos: seq<FileSender>, known: seq<FriendInfo>, i: nat)
    reads [queue]`next, [queue]`prev, qs, [friends]`next, [friends]`prev, fs
  {
    && IsList(queue, qs) && IsList(friends, fs) && Contents(qs) == infos && Contents(fs) == known
    && i <= |infos| && root.List? && Savable(infos, known) && Savable(infos[i..], known)
    && SavedItems(infos, known) == root.items + SavedItems(infos[i..], known)
  }

  lemma SavingStep(done: seq<Node>, infos: seq<FileSender>, known: seq<FriendInfo>, i: nat)
    requires i < |infos| && Savable(infos, known) && Savable(infos[i..], known)
    requires SavedItems(infos, known) == done + SavedItems(infos[i..], known)
    ensures HasNameAndHash(infos[i].info) || infos[i].pathname.None? || FindByNumber(known, infos[i].friendNumber).None?
    ensures match SavedItem(infos[i], known)
      case None => SavedItems(infos, known) == done
      case Some(t) =>
        Savable(infos[i + 1..], known) && SavedItems(infos, known) == done + [t] + SavedItems(infos[i + 1..], known)
  {
    SavedItemsStep(infos, known, i);
    assert done + [] == done;
  }

  /** The body of the save_senders loop: appends the sender's dictionary to ROOT, or ends the loop. */
  method SaveStep(ROOT: NodeRef, f: Sender, queue: Sender, friends: Friend, ghost qs: seq<Sender>,
                  ghost fs: seq<Friend>, ghost infos: seq<FileSender>, ghost known: seq<FriendInfo>, ghost i: nat)
    returns (more: bool, f': Sender)
    requires i < |qs| && f == qs[i]
    requires Saving(ROOT.node, queue, qs, friends, fs, infos, known, i)
    modifies ROOT
    ensures if more then Saving(ROOT.node, queue, qs, friends, fs, infos, known, i + 1)
        && f' == NodeAt(queue, qs, i + 1)
      else ROOT.node == List(SavedItems(infos, known))
  {
    SavingStep(ROOT.node.items, infos, known, i);
    assert infos[i] == f.entry;
    WalkStep(queue, qs, i);
    var filesend := SaveOne(f, friends, fs);
    if filesend == None {
      return false, f;
    }
    var added := AddList(ROOT, filesend.value);
    return true, f.next;
  }

  /** The loop of save_senders. */
  method CollectSenders(queue: Sender, friends: Friend, ghost qs: seq<Sender>, ghost fs: seq<Friend>)
    returns (root: Node)
    requires IsList(queue, qs) && IsList(friends, fs) && Savable(Contents(qs), Contents(fs))
    ensures root == List(SavedItems(old(Contents(qs)), old(Contents(fs))))
  {
    ghost var infos, known, i := Contents(qs), Contents(fs), 0;
    assert infos[0..] == infos && [] + SavedItems(infos, known) == SavedItems(infos, known);
    var ROOT := CreateList();
    HeadNotEntry(queue, qs);
    WalkStep(queue, qs, 0);
    var f := queue.next;
    while f != queue
      invariant 0 <= i <= |qs| && f == NodeAt(queue, qs, i) && fresh(ROOT)
      invariant Saving(ROOT.node, queue, qs, friends, fs, infos, known, i)
      decreases |qs| - i
    {
      var more;
      more, f := SaveStep(ROOT, f, queue, friends, qs, fs, infos, known, i);
      if !more {
        return ROOT.node;
      }
      i := i + 1;
    }
    assert SavedItems(infos[i..], known) == [];
    root := ROOT.node;
  }

  /** What becomes of savesender.dat. */
  datatype SaveFile = Removed | Written(bytes: seq<byte>) | NotOpened

  /** save_senders.  canOpen says whether the file can be opened for writing. */
  method SaveSenders(queue: Sender, friends: Friend, canOpen: bool, ghost qs: seq<Sender>, ghost fs: seq<Friend>)
    returns (rc: int, file: SaveFile)
    requires IsList(queue, qs) && IsList(friends, fs) && Savable(Contents(qs), Contents(fs))
    requires |Encoding(List(SavedItems(Contents(qs), Contents(fs))))| < INT_MAX
    ensures rc == if file.NotOpened? then -1 else 0
    ensures var items := SavedItems(old(Contents(qs)), old(Contents(fs)));
      file == if items == [] then Removed else if canOpen then Written(Encoding(List(items))) else NotOpened
  {
    var root := CollectSenders(queue, friends, qs, fs);
    var blen := NodeLen(root);
    blen := blen + 1;
    var msg := new byte[blen];
    blen := Encode(root, msg, 0, blen);
    ListImage(root, msg.Length);
    assert msg[..blen] == Encoding(root) by { assert msg[..][..blen] == Encoding(root); }
    ShortList(root);
    if blen > 2 {
      if !canOpen {
        return -1, NotOpened;
      }
      return 0, Written(msg[..blen]);
    }
    return 0, Removed;
  }

  lemma ListImage(root: Node, len: nat)
    requires root.List? && len == |Encoding(root)| + 1
    ensures Reported(root, len) == |Encoding(root)| && |Image(root, len)| == len
    ensures forall s: seq<byte> {:trigger Overwrite(s, 0, Image(root, len))} ::
      |s| == len ==> Overwrite(s, 0, Image(root, len))[..len - 1] == Encoding(root)
  {
  }

  /** The empty list prints as two bytes, any other as more. */
  lemma ShortList(root: Node)
    requires root.List?
    ensures |Encoding(root)| > 2 <==> root.items != []
  {
  }

  // ---- load_senders ----

  /** What load_senders takes for granted about the slots it gets to read: it stops at a public key
      that no friend has. */
  ghost predicate SenderTyped(entries: seq<Entry>, friends: seq<FriendInfo>) {
    entries != [] ==>
      var key, val := CStr(entries[0].key), entries[0].val;
      && (key == TOXID ==> Is32Bytes(val))
      && (key == PATH ==> IsText(val))
      && (key == INFO ==> val.Dict? && InfoTyped(val.entries))
      && ((key == TOXID && FindByKey(friends, First32(val)).None?) || SenderTyped(entries[1..], friends))
  }

  /** Reading one slot into a sender; None when the sender is dropped. */
  ghost function ReadSenderEntry(s: FileSender, e: Entry, friends: seq<FriendInfo>): Option<FileSender>
    requires SenderTyped([e], friends)
  {
    var key := CStr(e.key);
    assert [e][0] == e;
    if key == TOXID then
      match FindByKey(friends, First32(e.val))
      case None => None
      case Some(fr) => Some(s.(friendNumber := fr.friendNumber))
    else if key == PATH then Some(s.(pathname := Some(CStr(e.val.s.value))))
    else if key == INFO then Some(s.(info := ReadInfo(s.info, e.val.entries)))
    else Some(s)
  }

  ghost function ReadSender(s: FileSender, entries: seq<Entry>, friends: seq<FriendInfo>): Option<FileSender>
    requires SenderTyped(entries, friends)
    decreases |entries|
  {
    if entries == [] then Some(s)
    else
      assert [entries[0]][0] == entries[0] && [entries[0]][1..] == [];
      match ReadSenderEntry(s, entries[0], friends)
      case None => None
      case Some(s') => ReadSender(s', entries[1..], friends)
  }

  /** A public key slot that names no friend. */
  ghost predicate UnknownSlot(e: Entry, friends: seq<FriendInfo>) {
    CStr(e.key) == TOXID && Is32Bytes(e.val) && FindByKey(friends, (e.val.s.value + [0])[..32]).None?
  }

  /** A sender is dropped exactly if one of its public keys is no friend's. */
  lemma {:induction false} DroppedIsUnknown(s: FileSender, entries: seq<Entry>, friends: seq<FriendInfo>)
    requires SenderTyped(entries, friends)
    ensures ReadSender(s, entries, friends).None?
      <==> exists i :: 0 <= i < |entries| && UnknownSlot(entries[i], friends)
    decreases |entries|
  {
    if entries != [] && !UnknownSlot(entries[0], friends) {
      ReadSenderStep(s, entries, friends, 0);
      assert entries[0..] == entries;
      var rest := entries[1..];
      DroppedIsUnknown(ReadSenderEntry(s, entries[0], friends).value, rest, friends);
      assert forall i {:trigger entries[i]} :: 1 <= i < |entries| ==> entries[i] == rest[i - 1];
      assert forall i {:trigger rest[i]} :: 0 <= i < |rest| ==> rest[i] == entries[i + 1];
    }
  }

  /** A slot that does not occur leaves its field of the sender alone, and the fields without a slot stay. */
  lemma {:induction false} ReadSenderKeeps(s: FileSender, entries: seq<Entry>, friends: seq<FriendInfo>)
    requires SenderTyped(entries, friends) && ReadSender(s, entries, friends).Some?
    ensures var r := ReadSender(s, entries, friends).value;
      && (NoSlot(entries, TOXID) ==> r.friendNumber == s.friendNumber)
      && (NoSlot(entries, PATH) ==> r.pathname == s.pathname)
      && (NoSlot(entries, INFO) ==> r.info == s.info)
      && r == s.(friendNumber := r.friendNumber, pathname := r.pathname, info := r.info)
    decreases |entries|
  {
    if entries != [] {
      ReadSenderStep(s, entries, friends, 0);
      assert entries[0..] == entries;
      NoSlotRest(entries);
      ReadSenderKeeps(ReadSenderEntry(s, entries[0], friends).value, entries[1..], friends);
    }
  }

  /** The last slot of a name gives the friend number of today, and the path. */
  lemma {:induction false} LastSenderSlot(s: FileSender, entries: seq<Entry>, friends: seq<FriendInfo>, i: nat)
    requires SenderTyped(entries, friends) && ReadSender(s, entries, friends).Some?
    ensures var r := ReadSender(s, entries, friends).value;
      && (LastWith(entries, TOXID, i) ==>
            Is32Bytes(entries[i].val) &&
            match FindByKey(friends, (entries[i].val.s.value + [0])[..32])
            case None => false
            case Some(fr) => r.friendNumber == fr.friendNumber)
      && (LastWith(entries, PATH, i) ==>
            IsText(entries[i].val) && r.pathname == Some(CStr(entries[i].val.s.value)))
      && (LastWith(entries, INFO, i) && NoSlot(entries[..i], INFO) ==>
            entries[i].val.Dict? && InfoTyped(entries[i].val.entries)
            && r.info == ReadInfo(s.info, entries[i].val.entries))
    decreases |entries|
  {
    if i < |entries| {
      ReadSenderStep(s, entries, friends, 0);
      assert entries[0..] == entries;
      var s' := ReadSenderEntry(s, entries[0], friends).value;
      if i == 0 {
        SenderKeys();
        ReadSenderKeeps(s', entries[1..], friends);
      } else {
        assert entries[1..][i - 1] == entries[i] && entries[1..][i..] == entries[i + 1..];
        if NoSlot(entries[..i], INFO) {
          NoSlotRest(entries[..i]);
          assert entries[..i][1..] == entries[1..][..i - 1] && entries[..i][0] == entries[0];
        }
        LastSenderSlot(s', entries[1..], friends, i - 1);
      }
    }
  }

  /** The items load_senders reads: the dictionaries before the first other node. */
  ghost predicate ItemsTyped(items: seq<Node>, friends: seq<FriendInfo>) {
    items != [] && items[0].Dict? ==> SenderTyped(items[0].entries, friends) && ItemsTyped(items[1..], friends)
  }

  /** The senders load_senders creates, in the order of the file. */
  ghost function ReadItems(items: seq<Node>, friends: seq<FriendInfo>): seq<FileSender>
    requires ItemsTyped(items, friends)
  {
    if items == [] || !items[0].Dict? then []
    else
      (match ReadSender(BLANK_SENDER, items[0].entries, friends) case None => [] case Some(s) => [s])
      + ReadItems(items[1..], friends)
  }

  /** One slot of a saved sender; false if its public key is unknown. */
  method FillSlot(f: Sender, friends: Friend, e: Entry, ghost fs: seq<Friend>) returns (known: bool)
    requires IsList(friends, fs) && SenderTyped([e], Contents(fs))
    modifies f`entry
    ensures var r := ReadSenderEntry(old(f.entry), e, old(Contents(fs)));
      known == r.Some? && (r.Some? ==> f.entry == r.value)
  {
    var key, val := CStr(e.key), e.val;
    assert [e][0] == e;
    if key == TOXID {
      var fr := ByPublicKeyBin(friends, First32(val), fs);
      if fr == null {
        return false;
      }
      f.entry := f.entry.(friendNumber := fr.entry.friendNumber);
    } else if key == PATH {
      f.entry := f.entry.(pathname := Some(CStr(val.s.value)));
    } else if key == INFO {
      var info := DecodeFileNode(f.entry.info, val.entries);
      f.entry := f.entry.(info := info);
    }
    return true;
  }

  lemma ReadSenderStep(s: FileSender, entries: seq<Entry>, friends: seq<FriendInfo>, i: nat)
    requires i < |entries| && SenderTyped(entries[i..], friends)
    ensures SenderTyped([entries[i]], friends)
    ensures match ReadSenderEntry(s, entries[i], friends)
      case None => ReadSender(s, entries[i..], friends) == None
      case Some(s') =>
        SenderTyped(entries[i + 1..], friends)
        && ReadSender(s, entries[i..], friends) == ReadSender(s', entries[i + 1..], friends)
  {
    assert entries[i..][1..] == entries[i + 1..] && [entries[i]][1..] == [];
  }

  /** Destroying the sender just created; the friend list is another list. */
  method DropSender(f: Sender, ghost queue: Sender, ghost qs: seq<Sender>, ghost friends: Friend, ghost fs: seq<Friend>)
    requires IsList(queue, [f] + qs) && IsList(friends, fs)
    modifies [queue]`next, [queue]`prev, ([f] + qs)`next, ([f] + qs)`prev
    ensures IsList(queue, qs)
    ensures IsList(friends, fs) && Contents(fs) == old(Contents(fs))
  {
    assert Without([f] + qs, 0) == qs;
    SenderDestroy(f, queue, [f] + qs, 0);
  }

  /** The inner loop of load_senders: fills the sender at the front of the queue, or destroys it. */
  method FillSender(f: Sender, queue: Sender, friends: Friend, entries: seq<Entry>, ghost qs: seq<Sender>,
                    ghost fs: seq<Friend>)
    returns (kept: bool)
    requires IsList(queue, [f] + qs) && IsList(friends, fs)
    requires SenderTyped(entries, Contents(fs))
    modifies [queue]`next, [queue]`prev, ([f] + qs)`next, ([f] + qs)`prev, f`entry
    ensures var r := ReadSender(old(f.entry), entries, old(Contents(fs)));
      kept == r.Some? && (r.Some? ==> f.entry == r.value)
    ensures IsList(friends, fs) && Contents(fs) == old(Contents(fs))
    ensures IsList(queue, if kept then [f] + qs else qs)
  {
    var i := 0;
    ghost var known, start := Contents(fs), f.entry;
    while i < |entries|
      invariant 0 <= i <= |entries|
      invariant IsList(queue, [f] + qs) && IsList(friends, fs) && Contents(fs) == known
      invariant SenderTyped(entries[i..], known)
      invariant ReadSender(start, entries, known) == ReadSender(f.entry, entries[i..], known)
    {
      ReadSenderStep(f.entry, entries, known, i);
      var ok := FillSlot(f, friends, entries[i], fs);
      if !ok {
        DropSender(f, queue, qs, friends, fs);
        return false;
      }
      i := i + 1;
    }
    return true;
  }

  lemma ReadItemsStep(done: seq<FileSender>, items: seq<Node>, known: seq<FriendInfo>, k: nat)
    requires k < |items| && items[k].Dict? && ItemsTyped(items[k..], known)
    ensures SenderTyped(items[k].entries, known) && ItemsTyped(items[k + 1..], known)
    ensures done + ReadItems(items[k..], known)
        == ReadOne(done, items[k].entries, known) + ReadItems(items[k + 1..], known)
  {
    var rest := ReadItems(items[k + 1..], known);
    assert items[k..][1..] == items[k + 1..];
    match ReadSender(BLANK_SENDER, items[k].entries, known) {
      case None => assert [] + rest == rest;
      case Some(s) => Assoc(done, [s], rest);
    }
  }

  /** The queue ns + qs with the loaded senders in front, the last one read first. */
  ghost predicate Loaded(queue: Sender, ns: seq<Sender>, qs: seq<Sender>, done: seq<FileSender>)
    reads [queue]`next, [queue]`prev, (ns + qs)`next, (ns + qs)`prev, ns`entry
  {
    && IsList(queue, ns + qs)
    && |ns| == |done| && forall j {:trigger ns[j]} :: 0 <= j < |ns| ==> ns[j].entry == Reverse(done)[j]
  }

  /** What the senders read so far become when one more item is read. */
  ghost function ReadOne(done: seq<FileSender>, entries: seq<Entry>, known: seq<FriendInfo>): seq<FileSender>
    requires SenderTyped(entries, known)
  {
    match ReadSender(BLANK_SENDER, entries, known)
    case None => done
    case Some(s) => done + [s]
  }

  /** FileSender_new and the inner loop. */
  method ReadOneSender(queue: Sender, friends: Friend, entries: seq<Entry>, ghost qs: seq<Sender>,
                       ghost fs: seq<Friend>)
    returns (f: Sender, kept: bool)
    requires IsList(queue, qs) && IsList(friends, fs) && SenderTyped(entries, Contents(fs))
    modifies [queue]`next, [queue]`prev, qs`next, qs`prev
    ensures IsList(friends, fs) && Contents(fs) == old(Contents(fs)) && fresh(f)
    ensures var r := ReadSender(BLANK_SENDER, entries, old(Contents(fs)));
      kept == r.Some? && (r.Some? ==> f.entry == r.value)
    ensures IsList(queue, if kept then [f] + qs else qs)
  {
    f := SenderNew(queue, qs);
    kept := FillSender(f, queue, friends, entries, qs, fs);
  }

  /** One turn of the load_senders loop. */
  method LoadOne(queue: Sender, friends: Friend, entries: seq<Entry>, ghost ns: seq<Sender>,
                 ghost done: seq<FileSender>,
                 ghost qs: seq<Sender>, ghost fs: seq<Friend>) returns (ghost ns': seq<Sender>)
    requires Loaded(queue, ns, qs, done) && IsList(friends, fs)
    requires SenderTyped(entries, Contents(fs))
    modifies [queue]`next, [queue]`prev, ns`next, ns`prev, qs`next, qs`prev
    ensures IsList(friends, fs) && Contents(fs) == old(Contents(fs))
    ensures forall j {:trigger ns'[j]} :: 0 <= j < |ns'| ==> fresh(ns'[j]) || ns'[j] in ns
    ensures Loaded(queue, ns', qs, ReadOne(done, entries, old(Contents(fs))))
  {
    var f, kept := ReadOneSender(queue, friends, entries, ns + qs, fs);
    ns' := if kept then [f] + ns else ns;
    if kept {
      assert [f] + (ns + qs) == [f] + ns + qs;
      ReverseSnoc(done, f.entry);
    }
  }

  /** What is loaded so far, and what the items from k on will add.  Folded like IsList. */
  ghost predicate Loading(items: seq<Node>, known: seq<FriendInfo>, done: seq<FileSender>, k: nat) {
    && k <= |items| && ItemsTyped(items, known) && ItemsTyped(items[k..], known)
    && forall u {:trigger Unfold(u)} :: Unfold(u) ==> ReadItems(items, known) == done + ReadItems(items[k..], known)
  }

  lemma LoadingStarts(items: seq<Node>, known: seq<FriendInfo>)
    requires ItemsTyped(items, known)
    ensures Loading(items, known, [], 0)
  {
    assert items[0..] == items && [] + ReadItems(items, known) == ReadItems(items, known);
  }

  lemma LoadingStep(items: seq<Node>, known: seq<FriendInfo>, done: seq<FileSender>, k: nat)
    requires Loading(items, known, done, k) && k < |items| && items[k].Dict?
    ensures SenderTyped(items[k].entries, known)
    ensures Loading(items, known, ReadOne(done, items[k].entries, known), k + 1)
  {
    assert Unfold(true);
    ReadItemsStep(done, items, known, k);
  }

  lemma LoadingEnds(items: seq<Node>, known: seq<FriendInfo>, done: seq<FileSender>, k: nat)
    requires Loading(items, known, done, k) && (k == |items| || !items[k].Dict?)
    ensures done == ReadItems(items, known)
  {
    assert Unfold(true);
    assert ReadItems(items[k..], known) == [] && done + [] == done;
  }

  /** The loop of load_senders over the items of the root. */
  method LoadItems(queue: Sender, friends: Friend, items: seq<Node>, ghost qs: seq<Sender>, ghost fs: seq<Friend>)
    returns (ghost ns: seq<Sender>)
    requires IsList(queue, qs) && IsList(friends, fs) && ItemsTyped(items, Contents(fs))
    modifies [queue]`next, [queue]`prev, qs`next, qs`prev
    ensures Loaded(queue, ns, qs, ReadItems(items, old(Contents(fs))))
    ensures forall j {:trigger ns[j]} :: 0 <= j < |ns| ==> fresh(ns[j])
  {
    ghost var known, done: seq<FileSender> := Contents(fs), [];
    ns := [];
    var k := 0;
    LoadingStarts(items, known);
    assert [] + qs == qs;
    while k < |items| && items[k].Dict?
      invariant Loading(items, known, done, k)
      invariant IsList(friends, fs) && Contents(fs) == known && Loaded(queue, ns, qs, done)
      invariant forall j {:trigger ns[j]} :: 0 <= j < |ns| ==> fresh(ns[j])
    {
      LoadingStep(items, known, done, k);
      ns := LoadOne(queue, friends, items[k].entries, ns, done, qs, fs);
      done := ReadOne(done, items[k].entries, known);
      k := k + 1;
    }
    LoadingEnds(items, known, done, k);
  }

  /** What load_senders decodes: the file's bytes, read into a buffer of their size; `beyond` is the memory
      behind that buffer up to the next NUL.  None if savesender.dat cannot be opened. */
  ghost function Loadable(file: Option<seq<byte>>, beyond: seq<byte>): Option<Node> {
    match file
    case None => None
    case Some(bytes) =>
      if bytes == [] then None
      else match Parse(bytes + beyond, |beyond|) case Reject => None case Accept(root, _) => Some(root)
  }

  /** A file loads as a tree exactly if a front part of it reads as that tree in the language of the decoder. */
  lemma LoadableLanguage(bytes: seq<byte>, beyond: seq<byte>, root: Node)
    ensures Loadable(None, beyond) == None
    ensures Loadable(Some(bytes), beyond) == Some(root) <==> ReadsFront(bytes + beyond, root, |beyond|)
  {
    AcceptedFront(bytes + beyond, root, |beyond|);
    assert [] + beyond == beyond && Parse(beyond, |beyond|) == Reject;
  }

  /** The senders that a file holds, in its order. */
  ghost function FileSenders(file: Option<seq<byte>>, beyond: seq<byte>, friends: seq<FriendInfo>): seq<FileSender>
    requires FileTyped(file, beyond, friends)
  {
    match Loadable(file, beyond)
    case None => []
    case Some(root) => ReadItems(root.items, friends)
  }

  /** What load_senders takes for granted about the file. */
  ghost predicate FileTyped(file: Option<seq<byte>>, beyond: seq<byte>, friends: seq<FriendInfo>) {
    match Loadable(file, beyond)
    case None => true
    case Some(root) => root.List? && ItemsTyped(root.items, friends)
  }

  /** load_senders.  The senders of the file end up, reversed, in front of the queue. */
  method LoadSenders(queue: Sender, friends: Friend, file: Option<seq<byte>>, beyond: seq<byte>,
                     ghost qs: seq<Sender>, ghost fs: seq<Friend>)
    returns (rc: int, ghost ns: seq<Sender>)
    requires IsList(queue, qs) && IsList(friends, fs) && FileTyped(file, beyond, Contents(fs))
    modifies [queue]`next, [queue]`prev, qs`next, qs`prev
    ensures rc == if Loadable(file, beyond).Some? then 0 else -1
    ensures Loaded(queue, ns, qs, FileSenders(file, beyond, old(Contents(fs))))
    ensures forall j {:trigger ns[j]} :: 0 <= j < |ns| ==> fresh(ns[j])
  {
    ns := [];
    assert [] + qs == qs;
    if file == None || file.value == [] {
      return -1, ns;
    }
    var root := DecodeText(file.value + beyond, |file.value|);
    if root == None {
      return -1, ns;
    }
    ns := LoadItems(queue, friends, root.value.items, qs, fs);
    rc := 0;
  }

  // ---- Save, then load ----

  /** What a file can give back of a sender: path, name, length and hash; the friend number is the
      one the friend has now. */
  function Restored(s: FileSender, friendNumber: uint32): FileSender {
    BLANK_SENDER.(friendNumber := friendNumber, pathname := s.pathname,
                  info := BLANK_INFO.(file := s.info.file, length := s.info.length, hash := s.info.hash))
  }

  /** The friend of today with the public key that the sender's friend had when it was saved. */
  ghost function SameFriend(s: FileSender, before: seq<FriendInfo>, now: seq<FriendInfo>): Option<FriendInfo> {
    match FindByNumber(before, s.friendNumber)
    case None => None
    case Some(fr) => FindByKey(now, fr.key)
  }

  ghost function Reloaded(s: FileSender, before: seq<FriendInfo>, now: seq<FriendInfo>): FileSender {
    match SameFriend(s, before, now)
    case None => BLANK_SENDER
    case Some(fr) => Restored(s, fr.friendNumber)
  }

  /** The longest front part of savable senders, without those whose public key is gone. */
  ghost function Survivors(senders: seq<FileSender>, before: seq<FriendInfo>, now: seq<FriendInfo>): seq<FileSender> {
    var k := SavedCount(senders, before);
    Select(seq(k, i requires 0 <= i < k => Reloaded(senders[i], before, now)),
           seq(k, i requires 0 <= i < k => SameFriend(senders[i], before, now).Some?))
  }

  lemma {:induction false} SurvivorsStep(senders: seq<FileSender>, before: seq<FriendInfo>, now: seq<FriendInfo>)
    requires SavedCount(senders, before) > 0
    ensures Survivors(senders, before, now) ==
      (if SameFriend(senders[0], before, now).Some? then [Reloaded(senders[0], before, now)] else [])
      + Survivors(senders[1..], before, now)
  {
    var k := SavedCount(senders, before);
    assert SavedCount(senders[1..], before) == k - 1;
    SelectCons(seq(k, i requires 0 <= i < k => Reloaded(senders[i], before, now)),
               seq(k, i requires 0 <= i < k => SameFriend(senders[i], before, now).Some?),
               seq(k - 1, i requires 0 <= i < k - 1 => Reloaded(senders[1..][i], before, now)),
               seq(k - 1, i requires 0 <= i < k - 1 => SameFriend(senders[1..][i], before, now).Some?));
  }

  /** Spelled out: the first saved sender comes back if a friend of today has the key of its friend of then,
      with path, name, length and hash, with the number of the friend of today, and otherwise blank. */
  lemma SurvivorsSpelled(senders: seq<FileSender>, before: seq<FriendInfo>, now: seq<FriendInfo>)
    ensures SavedCount(senders, before) == 0 ==> Survivors(senders, before, now) == []
    ensures SavedCount(senders, before) > 0 ==>
      var s := senders[0];
      FindByNumber(before, s.friendNumber).Some? &&
      Survivors(senders, before, now) ==
        (match FindByKey(now, FindByNumber(before, s.friendNumber).value.key)
         case None => []
         case Some(fr) => [FileSender(FileNode(s.info.file, s.info.hash, 0, s.info.length, false), s.pathname, false,
                                      0, fr.friendNumber, 0, 0, 0)])
        + Survivors(senders[1..], before, now)
  {
    if SavedCount(senders, before) > 0 {
      SurvivorsStep(senders, before, now);
    }
  }

  lemma {:induction false} SelectCons<T>(es: seq<T>, flags: seq<bool>, es': seq<T>, flags': seq<bool>)
    requires |es| == |flags| == |es'| + 1 == |flags'| + 1
    requires forall i :: 0 <= i < |es'| ==> es'[i] == es[i + 1] && flags'[i] == flags[i + 1]
    ensures Select(es, flags) == (if flags[0] then [es[0]] else []) + Select(es', flags')
  {
    assert es[1..] == es' && flags[1..] == flags';
  }

  lemma ReadSenderCons(s: FileSender, e: Entry, es: seq<Entry>, friends: seq<FriendInfo>)
    requires SenderTyped([e], friends) && SenderTyped(es, friends)
    ensures SenderTyped([e] + es, friends)
    ensures ReadSender(s, [e] + es, friends) ==
      match ReadSenderEntry(s, e, friends) case None => None case Some(s') => ReadSender(s', es, friends)
  {
    assert [e][0] == e && ([e] + es)[1..] == es && [e][1..] == [];
  }

  lemma {:induction false} SlotsTyped(s: FileSender, key: PublicKey, friends: seq<FriendInfo>)
    requires s.pathname.Some? && HasNameAndHash(s.info)
    ensures var es := SenderEntries(s, key);
      SenderTyped([es[0]], friends) && SenderTyped([es[1]], friends) && SenderTyped([es[2]], friends)
  {
    var es := SenderEntries(s, key);
    SenderKeys();
    FileNodeRoundTrip(BLANK_INFO, s.info);
    assert [es[1]][1..] == [] && [es[2]][1..] == [] && [es[0]][1..] == [];
  }

  lemma {:induction false} ReadSavedSender(s: FileSender, key: PublicKey, friends: seq<FriendInfo>)
    requires s.pathname.Some? && HasNameAndHash(s.info)
    ensures SenderTyped(SenderEntries(s, key), friends)
    ensures ReadSender(BLANK_SENDER, SenderEntries(s, key), friends) ==
      match FindByKey(friends, key) case None => None case Some(fr) => Some(Restored(s, fr.friendNumber))
  {
    var es := SenderEntries(s, key);
    SlotsTyped(s, key, friends);
    ReadSavedSlots(s, key, friends, es);
    assert es == [es[0]] + ([es[1]] + ([es[2]] + []));
  }

  lemma ReadSavedSlots(s: FileSender, key: PublicKey, friends: seq<FriendInfo>, es: seq<Entry>)
    requires s.pathname.Some? && HasNameAndHash(s.info) && es == SenderEntries(s, key)
    requires SenderTyped([es[2]], friends) && SenderTyped([es[1]], friends) && SenderTyped([es[0]], friends)
    ensures SenderTyped([es[0]] + ([es[1]] + ([es[2]] + [])), friends)
    ensures ReadSender(BLANK_SENDER, [es[0]] + ([es[1]] + ([es[2]] + [])), friends) ==
      match FindByKey(friends, key) case None => None case Some(fr) => Some(Restored(s, fr.friendNumber))
  {
    SenderKeys();
    CStrIdentity(s.pathname.value);
    FileNodeRoundTrip(BLANK_INFO, s.info);
    assert First32(es[0].val) == key;
    var number := match FindByKey(friends, key) case None => 0 case Some(fr) => fr.friendNumber;
    var s1 := BLANK_SENDER.(friendNumber := number);
    var s2 := s1.(pathname := s.pathname);
    ReadSenderCons(s2, es[2], [], friends);
    ReadSenderCons(s1, es[1], [es[2]] + [], friends);
    ReadSenderCons(BLANK_SENDER, es[0], [es[1]] + ([es[2]] + []), friends);
  }

  lemma {:induction false} ReadSavedItems(senders: seq<FileSender>, before: seq<FriendInfo>, now: seq<FriendInfo>)
    requires Savable(senders, before)
    ensures ItemsTyped(SavedItems(senders, before), now)
    ensures ReadItems(SavedItems(senders, before), now) == Survivors(senders, before, now)
  {
    if SavedCount(senders, before) > 0 {
      SavableTail(senders, before);
      SurvivorsStep(senders, before, now);
      ReadSavedSender(senders[0], FindByNumber(before, senders[0].friendNumber).value.key, now);
      ReadSavedItems(senders[1..], before, now);
      var items := SavedItems(senders, before);
      assert items[1..] == SavedItems(senders[1..], before);
    }
  }

  lemma {:induction false} SavedItemsClean(senders: seq<FileSender>, friends: seq<FriendInfo>)
    requires Savable(senders, friends)
    ensures CleanItems(SavedItems(senders, friends))
  {
    if SavedCount(senders, friends) > 0 {
      SavableTail(senders, friends);
      SavedItemsClean(senders[1..], friends);
      SenderClean(senders[0], FindByNumber(friends, senders[0].friendNumber).value.key);
      assert SavedItems(senders, friends)[1..] == SavedItems(senders[1..], friends);
    }
  }

  lemma SenderClean(s: FileSender, key: PublicKey)
    requires s.pathname.Some? && HasNameAndHash(s.info)
    ensures Clean(Dict(SenderEntries(s, key)))
  {
    var info, es := FileNodeEntries(s.info), SenderEntries(s, key);
    CleanCons(info[2], []);
    CleanCons(info[1], [info[2]]);
    CleanCons(info[0], [info[1], info[2]]);
    assert info == [info[0]] + [info[1], info[2]] && [info[1], info[2]] == [info[1]] + [info[2]]
        && [info[2]] == [info[2]] + [];
    CleanCons(es[2], []);
    CleanCons(es[1], [es[2]]);
    CleanCons(es[0], [es[1], es[2]]);
    assert es == [es[0]] + [es[1], es[2]] && [es[1], es[2]] == [es[1]] + [es[2]] && [es[2]] == [es[2]] + [];
  }

  lemma CleanCons(e: Entry, es: seq<Entry>)
    requires NulFree(e.key) && Clean(e.val) && CleanEntries(es)
    ensures CleanEntries([e] + es)
  {
    assert ([e] + es)[1..] == es;
  }

  /** What savesender.dat holds after a save: nothing, or the encoding of the saved senders. */
  ghost function SavedFile(senders: seq<FileSender>, friends: seq<FriendInfo>): Option<seq<byte>>
    requires Savable(senders, friends)
  {
    var items := SavedItems(senders, friends);
    if items == [] then None else Some(Encoding(List(items)))
  }

  /** Loading what was saved, with whatever friends there are by then, gives exactly the survivors,
      whatever stands in memory behind the buffer. */
  lemma SaveThenLoad(senders: seq<FileSender>, before: seq<FriendInfo>, now: seq<FriendInfo>, beyond: seq<byte>)
    requires Savable(senders, before) && |Encoding(List(SavedItems(senders, before)))| < INT_MAX
    ensures var file := SavedFile(senders, before);
      FileTyped(file, beyond, now) && FileSenders(file, beyond, now) == Survivors(senders, before, now)
  {
    var items := SavedItems(senders, before);
    ReadSavedItems(senders, before, now);
    SavedItemsClean(senders, before);
    if items != [] {
      RoundTrip(List(items), beyond, |beyond|);
    }
  }

  /** With an unchanged friend list without duplicates every saved sender survives, for the same friend. */
  lemma UnchangedFriends(s: FileSender, friends: seq<FriendInfo>)
    requires forall i, j :: 0 <= i < j < |friends| ==> friends[i].key != friends[j].key
    requires FindByNumber(friends, s.friendNumber).Some?
    ensures SameFriend(s, friends, friends) == FindByNumber(friends, s.friendNumber)
    ensures Reloaded(s, friends, friends) == Restored(s, s.friendNumber)
  {
    FindByNumberFirst(friends, s.friendNumber);
    FindByKeyFirst(friends, FindByNumber(friends, s.friendNumber).value.key);
  }

  /** Loading reverses the queue and resuming reverses it again: what a friend that comes online gets is
      the longest end of the survivors that is its own, in the old order, whoever the others are for. */
  lemma RestartKeepsOrder(w: seq<FileSender>, friendNumber: uint32)
    ensures var k := OwnPrefix(Reverse(w), friendNumber);
      && Reverse(Reverse(w)[..k]) == w[|w| - k..] && Reverse(w)[k..] == Reverse(w[..|w| - k])
      && (forall i :: |w| - k <= i < |w| ==> w[i].friendNumber == friendNumber)
      && (k < |w| ==> w[|w| - k - 1].friendNumber != friendNumber)
  {
    var k := OwnPrefix(Reverse(w), friendNumber);
    ReverseCut(w, k);
    ReverseTwice(w[|w| - k..]);
    OwnPrefixLongest(Reverse(w), friendNumber);
    forall i | |w| - k <= i < |w|
      ensures w[i].friendNumber == friendNumber
    {
      ReverseAt(w, |w| - 1 - i);
    }
    if k < |w| {
      ReverseAt(w, k);
    }
  }

  /** save_senders at the end of one run and load_senders at the start of the next, with the friends of
      today: the queue then holds the survivors, the last one first. */
  method SaveAndReload(queue: Sender, before: Friend, load: Sender, now: Friend, beyond: seq<byte>,
                       ghost qs: seq<Sender>, ghost bs: seq<Friend>, ghost ws: seq<Friend>)
    returns (ghost ns: seq<Sender>)
    requires IsList(queue, qs) && IsList(before, bs) && IsList(load, []) && IsList(now, ws)
    requires Savable(Contents(qs), Contents(bs)) && |Encoding(List(SavedItems(Contents(qs), Contents(bs))))| < INT_MAX
    modifies [load]`next, [load]`prev
    ensures IsList(load, ns)
    ensures Contents(ns) == Reverse(Survivors(old(Contents(qs)), old(Contents(bs)), old(Contents(ws))))
    ensures forall j {:trigger ns[j]} :: 0 <= j < |ns| ==> fresh(ns[j])
  {
    ghost var senders, friends, today := Contents(qs), Contents(bs), Contents(ws);
    SaveThenLoad(senders, friends, today, beyond);
    var rc, saved := SaveSenders(queue, before, true, qs, bs);
    var file := match saved case Written(bytes) => Some(bytes) case _ => None;
    ListKept([load]);
    ListKept([now] + ws);
    rc, ns := LoadSenders(load, now, file, beyond, [], ws);
    assert ns + [] == ns;
  }

  /** Every survivor still has its file name. */
  lemma SurvivorsNamed(senders: seq<FileSender>, before: seq<FriendInfo>, now: seq<FriendInfo>, i: nat)
    requires Savable(senders, before) && i < |Survivors(senders, before, now)|
    ensures Survivors(senders, before, now)[i].info.file.Some?
  {
    if SavedCount(senders, before) > 0 {
      SurvivorsStep(senders, before, now);
      SavableTail(senders, before);
      var head := if SameFriend(senders[0], before, now).Some? then 1 else 0;
      if i >= head {
        SurvivorsNamed(senders[1..], before, now, i - head);
      }
    }
  }

  lemma NewListApart<T>(send: T, ss: seq<T>, load: T, ns: seq<T>)
    requires Distinct([send] + ss + [load]) && Distinct(ns) && load !in ns
    requires forall j {:trigger ns[j]} :: 0 <= j < |ns| ==> ns[j] !in [send] + ss
    ensures Distinct([send] + ss + ([load] + ns))
  {
    var old_ := [send] + ss + [load];
    assert [send] + ss + ([load] + ns) == old_ + ns;
    DistinctJoin(old_, ns);
  }

  /** What resume_send leaves of the loaded queue, in terms of the survivors w. */
  lemma {:induction false} ResumedAt(tox: nat -> Reply, ns: seq<Sender>, w: seq<FileSender>, k: nat, j: nat)
    requires j < k <= |ns| == |w| && Offering(tox, ns, Reverse(w), k)
    ensures Reverse(ns[..k])[j].entry == Offered(w[|w| - k + j], tox(k - 1 - j))
  {
    var i := k - 1 - j;
    ReverseAt(ns[..k], j);
    ReverseAt(w, i);
    assert ns[i].entry == Offered(Reverse(w)[i], tox(i));
  }

  lemma {:induction false} Resumed(tox: nat -> Reply, ns: seq<Sender>, w: seq<FileSender>, k: nat)
    requires k <= |ns| == |w| && Offering(tox, ns, Reverse(w), k)
    ensures Contents(ns[k..]) == Reverse(w)[k..]
    ensures var moved := Reverse(ns[..k]);
      forall j {:trigger moved[j]} :: 0 <= j < k ==> moved[j].entry == Offered(w[|w| - k + j], tox(k - 1 - j))
  {
    forall j | 0 <= j < k
      ensures Reverse(ns[..k])[j].entry == Offered(w[|w| - k + j], tox(k - 1 - j))
    {
      ResumedAt(tox, ns, w, k, j);
    }
    assert forall j {:trigger ns[k..][j]} :: 0 <= j < |ns| - k ==> ns[k..][j].entry == Reverse(w)[k + j];
  }

  /** The loaded queue next to a send queue: as SaveAndReload leaves it, and ready to be resumed. */
  method Reload(queue: Sender, before: Friend, load: Sender, now: Friend, beyond: seq<byte>, send: Sender,
                ghost qs: seq<Sender>, ghost bs: seq<Friend>, ghost ws: seq<Friend>, ghost ss: seq<Sender>)
    returns (ghost ns: seq<Sender>)
    requires IsList(queue, qs) && IsList(before, bs) && IsList(load, []) && IsList(now, ws) && IsList(send, ss)
    requires Distinct([send] + ss + [load])
    requires Savable(Contents(qs), Contents(bs))
    requires |Encoding(List(SavedItems(Contents(qs), Contents(bs))))| < INT_MAX
    modifies [load]`next, [load]`prev
    ensures IsList(send, ss) && IsList(load, ns) && Distinct([send] + ss + ([load] + ns))
    ensures Contents(ns) == Reverse(Survivors(old(Contents(qs)), old(Contents(bs)), old(Contents(ws))))
    ensures forall j {:trigger ns[j]} :: 0 <= j < |ns| ==> fresh(ns[j])
  {
    DistinctParts([send] + ss, [load]);
    assert load in [load];
    ns := SaveAndReload(queue, before, load, now, beyond, qs, bs, ws);
    ListKept([send] + ss);
    assert ([send] + ss)[1..] == ss;
    HeadNotEntry(load, ns);
    NewListApart(send, ss, load, ns);
  }

  /** What becomes of the survivors w in a restart, for the friend that comes online: the longest end of w
      that belongs to it, k senders, is in moved in its old order, each as the answer to its offer leaves it
      (the last one is offered first); all senders before it are in rest, the last one first. */
  ghost predicate Restarted(w: seq<FileSender>, friendNumber: uint32, tox: nat -> Reply, k: nat,
                            moved: seq<Sender>, rest: seq<Sender>)
    reads moved, rest
  {
    && k == |moved| <= |w| && Contents(rest) == Reverse(w[..|w| - k])
    && (forall j {:trigger moved[j]} :: 0 <= j < k ==> moved[j].entry == Offered(w[|w| - k + j], tox(k - 1 - j)))
    && (forall i :: |w| - k <= i < |w| ==> w[i].friendNumber == friendNumber)
    && (k < |w| ==> w[|w| - k - 1].friendNumber != friendNumber)
  }

  lemma OfferedIsRestarted(w: seq<FileSender>, friendNumber: uint32, tox: nat -> Reply, k: nat, ns: seq<Sender>)
    requires |ns| == |w| && k == OwnPrefix(Reverse(w), friendNumber) && Offering(tox, ns, Reverse(w), k)
    ensures Restarted(w, friendNumber, tox, k, Reverse(ns[..k]), ns[k..])
  {
    Resumed(tox, ns, w, k);
    RestartKeepsOrder(w, friendNumber);
  }

  /** A whole restart: save, load with the friends of today, and resume when one of them comes online. */
  method Restart(queue: Sender, before: Friend, load: Sender, now: Friend, beyond: seq<byte>, tox: nat -> Reply,
                 send: Sender, friendNumber: uint32,
                 ghost qs: seq<Sender>, ghost bs: seq<Friend>, ghost ws: seq<Friend>, ghost ss: seq<Sender>)
    returns (k: nat, ghost moved: seq<Sender>, ghost rest: seq<Sender>)
    requires IsList(queue, qs) && IsList(before, bs) && IsList(load, []) && IsList(now, ws) && IsList(send, ss)
    requires Distinct([send] + ss + [load])
    requires Savable(Contents(qs), Contents(bs))
    requires |Encoding(List(SavedItems(Contents(qs), Contents(bs))))| < INT_MAX
    modifies [load]`next, [load]`prev, [send]`next, [send]`prev, ss`next, ss`prev
    ensures IsList(send, moved + ss) && IsList(load, rest)
    ensures var w := Survivors(old(Contents(qs)), old(Contents(bs)), old(Contents(ws)));
      Restarted(w, friendNumber, tox, k, moved, rest)
  {
    ghost var w := Survivors(Contents(qs), Contents(bs), Contents(ws));
    RestartNames(Contents(qs), Contents(bs), Contents(ws), tox, OwnPrefix(Reverse(w), friendNumber));
    ghost var ns := Reload(queue, before, load, now, beyond, send, qs, bs, ws, ss);
    k := ResumeSend(tox, send, load, friendNumber, ss, ns);
    moved, rest := Reverse(ns[..k]), ns[k..];
    OfferedIsRestarted(w, friendNumber, tox, k, ns);
  }

  lemma RestartNames(senders: seq<FileSender>, before: seq<FriendInfo>, now: seq<FriendInfo>, tox: nat -> Reply, k: nat)
    requires Savable(senders, before)
    ensures Named(tox, Reverse(Survivors(senders, before, now)), k)
  {
    var w := Survivors(senders, before, now);
    forall j | 0 <= j < k && j < |w|
      ensures Reverse(w)[j].info.file.Some?
    {
      ReverseAt(w, j);
      SurvivorsNamed(senders, before, now, |w| - 1 - j);
    }
  }
}
