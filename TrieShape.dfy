/** The invariants of the node arena, stated over plain values: the node records, the path of each
    node (the characters on the way from the root) and the node of each path. The tree's methods
    keep these; the lemmas here carry the proofs about them, apart from the heap. */
module TrieShape {
  import opened Wrappers
  import opened TrieNode
  import opened Matching

  /** The index of the root in the node arena. */
  const Root: nat := 0

  /** A non-empty path without its last character: the path of the node's parent. */
  function Parent(s: string): (r: string)
    requires s != []
    ensures |r| == |s| - 1 && r + [s[|s| - 1]] == s
  {
    s[..|s| - 1]
  }

  /** The arena ns is a tree: ps gives each node's path from the root, ix gives the node of each path,
      the two are inverse, a node's child for c is the node of its path followed by c, and every path
      but the root's hangs below the node of its parent path. */
  ghost predicate TreeShape(ns: seq<Node>, ps: seq<string>, ix: map<string, nat>) {
    && |ns| == |ps| >= 1
    && ps[Root] == []
    && (forall i :: 0 <= i < |ps| ==> ps[i] in ix && ix[ps[i]] == i)
    && (forall s :: s in ix ==> ix[s] < |ps| && ps[ix[s]] == s)
    && (forall i, c {:trigger ns[i].children[c]} :: 0 <= i < |ns| && c in ns[i].children ==>
          ps[i] + [c] in ix && ns[i].children[c] == ix[ps[i] + [c]])
    && (forall s {:trigger Parent(s)} :: s in ix && s != [] ==> Parent(s) in ix)
    && (forall s {:trigger Parent(s)} :: s in ix && s != [] ==> s[|s| - 1] in ns[ix[Parent(s)]].children)
  }

  /** The results a node holds: its own path when that path is a keyword, and nothing otherwise
      (results are never propagated along failure links). */
  ghost function ResultsFor(W: set<string>, p: string): (r: set<string>) {
    if p in W then {p} else {}
  }

  /** The arena spells the keyword set W: its paths are exactly the prefixes of the keywords, each
      node holds the results of its path, and the root has no failure link. */
  ghost predicate Spells(ns: seq<Node>, ps: seq<string>, ix: map<string, nat>, W: set<string>) {
    && TreeShape(ns, ps, ix)
    && [] !in W
    && (forall s :: s in ix <==> InTrie(W, s))
    && (forall i :: 0 <= i < |ns| ==> ns[i].results == ResultsFor(W, ps[i]))
    && ns[Root].fail == None
  }

  /** The failure link of node i (not the root) leads to the node of the longest proper suffix of its
      path that is in the trie. */
  ghost predicate LinkedAt(ns: seq<Node>, ps: seq<string>, ix: map<string, nat>, W: set<string>, i: nat) {
    && 0 < i < |ns| == |ps|
    && ps[i] != []
    && LongestTrieSuffix(W, ps[i][1..]) in ix
    && ns[i].fail == Some(ix[LongestTrieSuffix(W, ps[i][1..])])
  }

  /** Two arenas with the same children and results: they differ at most in their failure links. */
  ghost predicate SameTrie(a: seq<Node>, b: seq<Node>) {
    && |a| == |b|
    && (forall n :: 0 <= n < |a| ==> a[n].children == b[n].children && a[n].results == b[n].results)
  }

  // ---------------------------------------------------------------- the tree

  /** The child of node i for c is the node whose path is i's path followed by c. */
  lemma ChildPath(ns: seq<Node>, ps: seq<string>, ix: map<string, nat>, i: nat, c: char)
    requires TreeShape(ns, ps, ix) && i < |ns| && c in ns[i].children
    ensures ns[i].children[c] < |ns| && ps[ns[i].children[c]] == ps[i] + [c]
    ensures 0 < ns[i].children[c]
  {
    var p := ps[i] + [c];
    assert ps[ix[p]] == p;
    assert ix[ps[Root]] == Root;
  }

  /** Only the root has the empty path. */
  lemma NonRootPath(ns: seq<Node>, ps: seq<string>, ix: map<string, nat>, n: nat)
    requires TreeShape(ns, ps, ix) && 0 < n < |ns|
    ensures ps[n] != []
  {
    assert ix[ps[Root]] == Root;
  }

  /** Every node but the root is a child of the node of its parent path, one level up. */
  lemma ParentNode(ns: seq<Node>, ps: seq<string>, ix: map<string, nat>, n: nat)
    requires TreeShape(ns, ps, ix) && 0 < n < |ns|
    ensures ps[n] != [] && Parent(ps[n]) in ix
    ensures var p := ix[Parent(ps[n])];
      && p < |ns| && |ps[p]| + 1 == |ps[n]|
      && ps[n][|ps[n]| - 1] in ns[p].children && ns[p].children[ps[n][|ps[n]| - 1]] == n
  {
    NonRootPath(ns, ps, ix, n);
    var s := ps[n];
    var p := ix[Parent(s)];
    assert ps[p] + [s[|s| - 1]] == s;
  }

  /** A node has a child for c exactly when its path followed by c is a path of the arena. */
  lemma ChildComplete(ns: seq<Node>, ps: seq<string>, ix: map<string, nat>, i: nat, c: char)
    requires TreeShape(ns, ps, ix) && i < |ns|
    ensures c in ns[i].children <==> ps[i] + [c] in ix
  {
    var s := ps[i] + [c];
    if s in ix {
      assert Parent(s) == ps[i];
    }
  }

  /** A fresh child for c below node i, which has none, keeps the arena a tree. */
  lemma GrowShape(ns: seq<Node>, ps: seq<string>, ix: map<string, nat>, i: nat, ch: char)
    requires TreeShape(ns, ps, ix) && i < |ns| && ch !in ns[i].children
    ensures TreeShape(ns[i := Put(ns[i], ch, |ns|)] + [NewNode()], ps + [ps[i] + [ch]], ix[ps[i] + [ch] := |ns|])
  {
    ChildComplete(ns, ps, ix, i, ch);
    GrowParents(ns, ps, ix, i, ch);
    GrowChildren(ns, ps, ix, i, ch);
  }

  /** GrowShape, the parent clause. */
  lemma GrowParents(ns: seq<Node>, ps: seq<string>, ix: map<string, nat>, i: nat, ch: char)
    requires TreeShape(ns, ps, ix) && i < |ns| && ps[i] + [ch] !in ix
    ensures var ns', ix' := ns[i := Put(ns[i], ch, |ns|)] + [NewNode()], ix[ps[i] + [ch] := |ns|];
      forall s {:trigger Parent(s)} :: s in ix' && s != [] ==>
        Parent(s) in ix' && ix'[Parent(s)] < |ns'| && s[|s| - 1] in ns'[ix'[Parent(s)]].children
  {
    var p := ps[i] + [ch];
    var ns' := ns[i := Put(ns[i], ch, |ns|)] + [NewNode()];
    var ix' := ix[p := |ns|];
    forall s | s in ix' && s != []
      ensures Parent(s) in ix' && ix'[Parent(s)] < |ns'| && s[|s| - 1] in ns'[ix'[Parent(s)]].children
    {
      if s == p {
        assert Parent(s) == ps[i];
      } else {
        assert Parent(s) in ix;
      }
    }
  }

  /** GrowShape, the child clause. */
  lemma GrowChildren(ns: seq<Node>, ps: seq<string>, ix: map<string, nat>, i: nat, ch: char)
    requires TreeShape(ns, ps, ix) && i < |ns| && ps[i] + [ch] !in ix
    ensures var ns', ps', ix' := ns[i := Put(ns[i], ch, |ns|)] + [NewNode()], ps + [ps[i] + [ch]], ix[ps[i] + [ch] := |ns|];
      forall j, c :: 0 <= j < |ns'| && c in ns'[j].children ==>
        ps'[j] + [c] in ix' && ns'[j].children[c] == ix'[ps'[j] + [c]]
  {
    var p := ps[i] + [ch];
    var ns' := ns[i := Put(ns[i], ch, |ns|)] + [NewNode()];
    var ps' := ps + [p];
    var ix' := ix[p := |ns|];
    forall j, c | 0 <= j < |ns'| && c in ns'[j].children
      ensures ps'[j] + [c] in ix' && ns'[j].children[c] == ix'[ps'[j] + [c]]
    {
      if j != i || c != ch {
        assert j < |ns|;
        assert ps'[j] + [c] in ix;
      }
    }
  }

  /** Appending a character to a prefix bound. */
  lemma PrefixSnoc(s: string, t: string, c: char)
    ensures s <= t + [c] <==> s <= t || s == t + [c]
  {
    if s <= t + [c] && s != t + [c] {
      assert |s| <= |t|;
      assert s == (t + [c])[..|s|] == t[..|s|];
    }
  }

  /** A slice one character longer. */
  lemma SliceSnoc(base: string, chars: string, i: nat)
    requires i < |chars|
    ensures base + chars[..i + 1] == (base + chars[..i]) + [chars[i]]
  {
    assert chars[..i + 1] == chars[..i] + [chars[i]];
  }

  /** One more step of extend(chars) below the path base: when the paths after the step are those
      before it plus base + chars[..i + 1], the paths added so far are the prefixes of chars[..i + 1]
      below base. */
  lemma PathsGrow(ix0: map<string, nat>, before: map<string, nat>, after: map<string, nat>,
                  base: string, chars: string, i: nat)
    requires i < |chars|
    requires forall s :: s in before <==> s in ix0 || (base <= s && s <= base + chars[..i])
    requires forall s :: s in after <==> s in before || s == base + chars[..i + 1]
    ensures forall s :: s in after <==> s in ix0 || (base <= s && s <= base + chars[..i + 1])
  {
    SliceSnoc(base, chars, i);
    forall s ensures s in after <==> s in ix0 || (base <= s && s <= base + chars[..i + 1]) {
      PrefixSnoc(s, base + chars[..i], chars[i]);
    }
  }

  /** Adding a keyword k to the dictionary adds exactly the prefixes of k to the trie. */
  lemma InTrieAdd(W: set<string>, k: string, s: string)
    ensures InTrie(W + {k}, s) <==> InTrie(W, s) || s <= k
  {
    if InTrie(W + {k}, s) && s != [] && !(s <= k) {
      var k' :| k' in W + {k} && s <= k';
      assert k' in W;
    }
  }

  /** add(k): once the arena has grown along k (new nodes without failure links or results, old nodes
      as they were, new paths exactly the prefixes of k), recording k at the node of k makes it spell
      W + {k}. */
  lemma AddKeyword(ns0: seq<Node>, ps0: seq<string>, ix0: map<string, nat>, W: set<string>,
                   ns1: seq<Node>, ps1: seq<string>, ix1: map<string, nat>, last: nat, k: string)
    requires Spells(ns0, ps0, ix0, W) && TreeShape(ns1, ps1, ix1) && k != []
    requires forall s :: s in ix1 <==> s in ix0 || s <= k
    requires |ns0| <= |ns1| && ps1[..|ns0|] == ps0
    requires forall n :: 0 <= n < |ns0| ==> ns1[n].fail == ns0[n].fail && ns1[n].results == ns0[n].results
    requires forall n :: |ns0| <= n < |ns1| ==> ns1[n].fail == None && ns1[n].results == {}
    requires last < |ns1| && ps1[last] == k
    ensures Spells(ns1[last := AddResult(ns1[last], k)], ps1, ix1, W + {k})
  {
    var ns2 := ns1[last := AddResult(ns1[last], k)];
    ShapeSameChildren(ns1, ns2, ps1, ix1);
    forall s ensures s in ix1 <==> InTrie(W + {k}, s) {
      InTrieAdd(W, k, s);
    }
    AddKeywordResults(ns0, ps0, ix0, W, ns1, ps1, ix1, last, k);
    assert ns2[Root].fail == ns0[Root].fail;
  }

  /** AddKeyword, the results clause: the node of k gains k, every other node keeps the results of
      its path. */
  lemma AddKeywordResults(ns0: seq<Node>, ps0: seq<string>, ix0: map<string, nat>, W: set<string>,
                          ns1: seq<Node>, ps1: seq<string>, ix1: map<string, nat>, last: nat, k: string)
    requires Spells(ns0, ps0, ix0, W) && TreeShape(ns1, ps1, ix1)
    requires |ns0| <= |ns1| && ps1[..|ns0|] == ps0
    requires forall n :: 0 <= n < |ns0| ==> ns1[n].results == ns0[n].results
    requires forall n :: |ns0| <= n < |ns1| ==> ns1[n].results == {}
    requires last < |ns1| && ps1[last] == k
    ensures var ns2 := ns1[last := AddResult(ns1[last], k)];
      forall n :: 0 <= n < |ns2| ==> ns2[n].results == ResultsFor(W + {k}, ps1[n])
  {
    var ns2 := ns1[last := AddResult(ns1[last], k)];
    forall n | 0 <= n < |ns2| ensures ns2[n].results == ResultsFor(W + {k}, ps1[n]) {
      if n < |ns0| {
        assert ps1[n] == ps0[n];
      }
      if n != last {
        assert ps1[n] != k by {
          assert ix1[ps1[n]] == n;
        }
        if |ns0| <= n {
          assert ps1[n] !in ix0 by {
            forall s | s in ix0 ensures ix1[s] < |ns0| {
              assert ps1[ix0[s]] == s;
            }
          }
          assert !InTrie(W, ps1[n]);
        }
      }
    }
  }

  /** An arena with the same children at every node has the same tree shape. */
  lemma ShapeSameChildren(ns: seq<Node>, ns': seq<Node>, ps: seq<string>, ix: map<string, nat>)
    requires TreeShape(ns, ps, ix) && |ns'| == |ns|
    requires forall n :: 0 <= n < |ns| ==> ns'[n].children == ns[n].children
    ensures TreeShape(ns', ps, ix)
  {
    forall s | s in ix && s != []
      ensures Parent(s) in ix && s[|s| - 1] in ns'[ix[Parent(s)]].children
    {
      assert Parent(s) in ix;
    }
  }

  /** Changing only failure links keeps the arena's shape and the keywords it spells. */
  lemma SpellsSameTrie(ns: seq<Node>, ns': seq<Node>, ps: seq<string>, ix: map<string, nat>, W: set<string>)
    requires Spells(ns, ps, ix, W) && SameTrie(ns, ns') && ns'[Root].fail == None
    ensures Spells(ns', ps, ix, W)
  {
    ShapeSameChildren(ns, ns', ps, ix);
  }
}
