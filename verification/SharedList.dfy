/** The saved list of shared files in tsfiles.c: dump_shrlist and what load_shrlist reads back. */
module SharedList {
  import opened Bytes
  import opened Bencode
  import opened BencodeLaws
  import opened BencodeIO
  import opened BencodeTree
  import opened FileQueue
  import opened Persistence
  import opened Numerals

  ghost predicate Dumpable(fs: seq<FileNode>) {
    forall i :: 0 <= i < |fs| ==> HasNameAndHash(fs[i])
  }

  /** One dictionary for every file. */
  ghost function InfoNodes(fs: seq<FileNode>): (items: seq<Node>)
    requires Dumpable(fs)
    ensures |items| == |fs|
  {
    if fs == [] then [] else [Dict(FileNodeEntries(fs[0]))] + InfoNodes(fs[1..])
  }

  lemma {:induction false} InfoNodesSnoc(fs: seq<FileNode>, f: FileNode)
    requires Dumpable(fs) && HasNameAndHash(f)
    ensures Dumpable(fs + [f]) && InfoNodes(fs + [f]) == InfoNodes(fs) + [Dict(FileNodeEntries(f))]
  {
    if fs == [] {
      assert fs + [f] == [f];
    } else {
      assert (fs + [f])[1..] == fs[1..] + [f];
      InfoNodesSnoc(fs[1..], f);
    }
  }

  lemma {:induction false} InfoNodesClean(fs: seq<FileNode>)
    requires Dumpable(fs)
    ensures CleanItems(InfoNodes(fs))
  {
    if fs != [] {
      var info := FileNodeEntries(fs[0]);
      InfoNodesClean(fs[1..]);
      CleanCons(info[2], []);
      CleanCons(info[1], [info[2]]);
      CleanCons(info[0], [info[1], info[2]]);
      assert info == [info[0]] + [info[1], info[2]] && [info[1], info[2]] == [info[1]] + [info[2]]
          && [info[2]] == [info[2]] + [];
      assert InfoNodes(fs)[1..] == InfoNodes(fs[1..]);
    }
  }

  /** dump_shrlist: what it writes; None if it writes nothing. */
  method DumpShrlist(shrlist: seq<FileNode>, canOpen: bool) returns (file: Option<seq<byte>>)
    requires Dumpable(shrlist) && |Encoding(List(InfoNodes(shrlist)))| < INT_MAX
    ensures file == if shrlist == [] || !canOpen then None else Some(Encoding(List(InfoNodes(shrlist))))
  {
    var ROOT := CreateList();
    var i := 0;
    while i < |shrlist|
      invariant 0 <= i <= |shrlist| && fresh(ROOT)
      invariant ROOT.node == List(InfoNodes(shrlist[..i]))
    {
      var info := CreateDict();
      EncodeFileNode(info, shrlist[i]);
      var added := AddList(ROOT, info.node);
      assert [] + FileNodeEntries(shrlist[i]) == FileNodeEntries(shrlist[i]);
      InfoNodesSnoc(shrlist[..i], shrlist[i]);
      assert shrlist[..i] + [shrlist[i]] == shrlist[..i + 1];
      i := i + 1;
    }
    assert shrlist[..i] == shrlist;
    var root := ROOT.node;
    var blen := NodeLen(root);
    blen := blen + 1;
    var msg := new byte[blen];
    blen := Encode(root, msg, 0, blen);
    ListImage(root, msg.Length);
    assert msg[..blen] == Encoding(root) by { assert msg[..][..blen] == Encoding(root); }
    ShortList(root);
    file := if blen > 2 && canOpen then Some(msg[..blen]) else None;
  }

  /** What load_shrlist takes for granted about the items of the file. */
  predicate InfosTyped(items: seq<Node>) {
    forall i :: 0 <= i < |items| ==> items[i].Dict? && InfoTyped(items[i].entries)
  }

  /** load_shrlist: the list it builds.  undefined is what malloc leaves in the new file nodes. */
  method LoadShrlist(own: seq<FileNode>, file: Option<seq<byte>>, beyond: seq<byte>, undefined: nat -> FileNode)
    returns (rc: int, shrlist: seq<FileNode>)
    requires Loadable(file, beyond).Some? ==>
      Loadable(file, beyond).value.List? && InfosTyped(Loadable(file, beyond).value.items)
    ensures match Loadable(file, beyond)
      case None => rc == -1 && shrlist == own
      case Some(root) =>
        rc == 0 && |shrlist| == |own| + |root.items| && own <= shrlist
        && forall k {:trigger root.items[k]} :: 0 <= k < |root.items| ==>
          shrlist[|own| + k] == ReadInfo(undefined(k), root.items[k].entries)
  {
    shrlist := own;
    if file == None || file.value == [] {
      return -1, shrlist;
    }
    var root := DecodeText(file.value + beyond, |file.value|);
    if root == None {
      return -1, shrlist;
    }
    var items := root.value.items;
    var k := 0;
    while k < |items|
      invariant 0 <= k <= |items| && |shrlist| == |own| + k && own <= shrlist
      invariant forall j {:trigger items[j]} :: 0 <= j < k ==>
          shrlist[|own| + j] == ReadInfo(undefined(j), items[j].entries)
    {
      var f := DecodeFileNode(undefined(k), items[k].entries);
      shrlist := shrlist + [f];
      k := k + 1;
    }
    rc := 0;
  }

  /** The dictionary of a file, spelled out, at the file's place. */
  lemma {:induction false} InfoNodeAt(fs: seq<FileNode>, k: nat)
    requires Dumpable(fs) && k < |fs|
    ensures InfoNodes(fs)[k] == Dict(FileNodeEntries(fs[k])) == Dict(
      [Entry(Ascii("name"), Str(fs[k].file)), Entry(Ascii("length"), Int(fs[k].length)),
       Entry(Ascii("hash"), Str(fs[k].hash))])
  {
    if k > 0 {
      InfoNodeAt(fs[1..], k - 1);
    } else {
      KeysSpelled();
    }
  }

  /** What was dumped is read back file by file: name, length and hash, in the same order. */
  lemma DumpThenLoad(fs: seq<FileNode>, k: nat, f: FileNode, beyond: seq<byte>)
    requires Dumpable(fs) && k < |fs| && |Encoding(List(InfoNodes(fs)))| < INT_MAX
    ensures Loadable(Some(Encoding(List(InfoNodes(fs)))), beyond) == Some(List(InfoNodes(fs)))
    ensures InfosTyped(InfoNodes(fs))
    ensures ReadInfo(f, InfoNodes(fs)[k].entries) == f.(file := fs[k].file, length := fs[k].length, hash := fs[k].hash)
  {
    InfoNodesClean(fs);
    RoundTrip(List(InfoNodes(fs)), beyond, |beyond|);
    forall i | 0 <= i < |fs|
      ensures InfoNodes(fs)[i].Dict? && InfoTyped(InfoNodes(fs)[i].entries)
    {
      InfoNodeAt(fs, i);
      FileNodeRoundTrip(f, fs[i]);
    }
    InfoNodeAt(fs, k);
    FileNodeRoundTrip(f, fs[k]);
  }
}
