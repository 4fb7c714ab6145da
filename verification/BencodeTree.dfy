/** Building bencode trees in place: be_create_* and be_add_*. */
module BencodeTree {
  import opened Bytes
  import opened Bencode
  import opened BencodeIO

  /** A be_node that is still being filled. */
  class NodeRef {
    var node: Node

    constructor (node: Node)
      ensures this.node == node
    {
      this.node := node;
    }
  }

  /** be_create_dict: decodes "de". */
  method CreateDict() returns (n: NodeRef)
    ensures fresh(n) && n.node == Dict([])
  {
    var text: seq<byte> := [DICT, END];
    assert text[1..] == [END] && text[1..][1..] == [];
    assert Parse(text, 0) == Accept(Dict([]), []);
    var r := DecodeText(text, 2);
    n := new NodeRef(r.value);
  }

  /** be_create_list: decodes "le". */
  method CreateList() returns (n: NodeRef)
    ensures fresh(n) && n.node == List([])
  {
    var text: seq<byte> := [LIST, END];
    assert text[1..] == [END] && text[1..][1..] == [];
    assert Parse(text, 0) == Accept(List([]), []);
    var r := DecodeText(text, 2);
    n := new NodeRef(r.value);
  }

  /** be_create_str_wlen: the first len bytes of str, NULs included. */
  function CreateStrWlen(str: seq<byte>, len: nat): Node
    requires len <= |str|
  {
    Str(Some(str[..len]))
  }

  /** be_add_keypair: appends, never replaces; 0 if the node is no dictionary. */
  method AddKeypair(dict: NodeRef, str: CString, child: Node) returns (added: int)
    modifies dict
    ensures old(dict.node).Dict? ==> added == 1 && dict.node == Dict(old(dict.node).entries + [Entry(str, child)])
    ensures !old(dict.node).Dict? ==> added == 0 && dict.node == old(dict.node)
  {
    if !dict.node.Dict? {
      return 0;
    }
    dict.node := Dict(dict.node.entries + [Entry(str, child)]);
    return 1;
  }

  /** be_add_list: appends; 0 if the node is no list. */
  method AddList(list: NodeRef, child: Node) returns (added: int)
    modifies list
    ensures old(list.node).List? ==> added == 1 && list.node == List(old(list.node).items + [child])
    ensures !old(list.node).List? ==> added == 0 && list.node == old(list.node)
  {
    if !list.node.List? {
      return 0;
    }
    list.node := List(list.node.items + [child]);
    return 1;
  }
}
