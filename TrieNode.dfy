/** One state of the keyword automaton. Nodes live in an arena owned by the tree (see TrieTree) and are
    addressed by their index there, so a child or a failure link is an index, not a reference. */
module TrieNode {
  import opened Wrappers

  /** The fields of a trie node: the child for each character, the failure link (null until the
      automaton is compiled, and always null at the root), and the keywords that end exactly here. */
  datatype Node = Node(children: map<char, nat>, fail: Option<nat>, results: set<string>)

  /** A freshly constructed node: no children, no failure link, no results. */
  function NewNode(): (n: Node)
    ensures KeySet(n) == {} && GetFail(n) == None && GetResults(n) == {}
  {
    Node(map[], None, {})
  }

  /** The set of characters for which the node has a child. */
  function KeySet(n: Node): (r: set<char>) {
    n.children.Keys
  }

  /** get(key): the child for key, or null. A lookup; it creates nothing. */
  function Get(n: Node, key: char): (r: Option<nat>)
    ensures r.Some? <==> key in KeySet(n)
  {
    if key in n.children then Some(n.children[key]) else None
  }

  /** put(key, value): key now leads to value; every other child, the failure link and the results
      stay as they were. */
  function Put(n: Node, key: char, value: nat): (r: Node)
    ensures Get(r, key) == Some(value)
    ensures forall k :: k != key ==> Get(r, k) == Get(n, k)
    ensures KeySet(r) == KeySet(n) + {key}
    ensures GetFail(r) == GetFail(n) && GetResults(r) == GetResults(n)
  {
    n.(children := n.children[key := value])
  }

  /** getFail() */
  function GetFail(n: Node): (r: Option<nat>) {
    n.fail
  }

  /** setFail(f): the failure link becomes f; the children and the results stay as they were. */
  function SetFail(n: Node, f: Option<nat>): (r: Node)
    ensures GetFail(r) == f
    ensures r.children == n.children && GetResults(r) == GetResults(n)
  {
    n.(fail := f)
  }

  /** getResults() */
  function GetResults(n: Node): (r: set<string>) {
    n.results
  }

  /** addResult(k): set insertion into the results; children and failure link stay as they were. */
  function AddResult(n: Node, k: string): (r: Node)
    ensures GetResults(r) == GetResults(n) + {k}
    ensures r.children == n.children && GetFail(r) == GetFail(n)
  {
    n.(results := n.results + {k})
  }

  /** Adding the same keyword twice is the same as adding it once. */
  lemma AddResultIdempotent(n: Node, k: string)
    ensures AddResult(AddResult(n, k), k) == AddResult(n, k)
  {
  }

  /** keys(): the characters that have a child, each exactly once, in some order. */
  method Keys(n: Node) returns (ks: seq<char>)
    ensures |ks| == |n.children|
    ensures forall c :: c in ks <==> c in KeySet(n)
    ensures forall a, b :: 0 <= a < b < |ks| ==> ks[a] != ks[b]
  {
    ks := [];
    var rest := n.children.Keys;
    while rest != {}
      invariant forall c :: c in KeySet(n) <==> c in ks || c in rest
      invariant forall c :: c in ks ==> c !in rest
      invariant forall a, b :: 0 <= a < b < |ks| ==> ks[a] != ks[b]
      invariant |ks| + |rest| == |n.children|
      decreases rest
    {
      var c :| c in rest;
      ks := ks + [c];
      rest := rest - {c};
    }
  }
}
