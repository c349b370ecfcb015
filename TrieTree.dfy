/** The keyword automaton: a trie of the keywords, its failure links, and the three scans over a text.
    All nodes live in one arena (a sequence of node records); a child or a failure link is an index
    into it. */
module TrieTree {
  import opened Wrappers
  import opened Errors
  import opened Text
  import opened TrieNode
  import opened Matching
  import opened TrieShape
  import opened FailLinks
  import opened Automaton

  class TrieTree {
    /** The node arena; the root is nodes[Root]. */
    var nodes: seq<Node>
    /** Set by compile(); add() is refused afterwards. */
    var compiled: bool
    /** Characters that every scan drops from its input. */
    var skipChars: set<char>

    /** The characters on the way from the root to each node. */
    ghost var paths: seq<string>
    /** The node that each path leads to. */
    ghost var index: map<string, nat>
    /** Every keyword added so far. */
    ghost var keywords: set<string>

    ghost predicate Shape()
      reads this`nodes, this`paths, this`index, this`keywords
    {
      TreeShape(nodes, paths, index)
    }

    /** The trie spells exactly the keywords added so far. */
    ghost predicate Built()
      reads this`nodes, this`paths, this`index, this`keywords
    {
      Spells(nodes, paths, index, keywords)
    }

    /** Every node but the root has its failure link in place. */
    ghost predicate AllLinked()
      reads this`nodes, this`paths, this`index, this`keywords
    {
      forall i :: 0 < i < |nodes| ==> LinkedAt(nodes, paths, index, keywords, i)
    }

    /** The object invariant: a well-formed trie, whose failure links are all in place once compiled. */
    ghost predicate Valid()
      reads this
    {
      Built() && (compiled ==> AllLinked())
    }

    /** new TrieTree(): a lone root, not compiled, no skip characters. */
    constructor ()
      ensures Valid() && !compiled && skipChars == {} && keywords == {} && |nodes| == 1
    {
      nodes := [NewNode()];
      compiled := false;
      skipChars := {};
      paths := [[]];
      index := map[[] := Root];
      keywords := {};
    }

    /** touchChild(ch) on node i: the existing child for ch, or else a fresh node, appended to the
        arena and entered as i's child for ch. */
    method TouchChild(i: nat, ch: char) returns (child: nat)
      requires Shape() && i < |nodes|
      modifies this
      ensures Shape()
      ensures child < |nodes| && paths[child] == old(paths[i]) + [ch]
      ensures old(ch in nodes[i].children) ==>
        child == old(nodes[i].children[ch]) && nodes == old(nodes) && paths == old(paths) && index == old(index)
      ensures old(ch !in nodes[i].children) ==>
        && child == old(|nodes|) == |nodes| - 1
        && nodes[i] == Put(old(nodes[i]), ch, child)
        && nodes[child] == NewNode()
        && index == old(index)[old(paths[i]) + [ch] := child]
      ensures old(|nodes|) <= |nodes| && paths[..old(|nodes|)] == old(paths)
      ensures forall n :: 0 <= n < old(|nodes|) ==>
        nodes[n].fail == old(nodes[n].fail) && nodes[n].results == old(nodes[n].results)
      ensures forall n :: old(|nodes|) <= n < |nodes| ==> nodes[n] == NewNode()
      ensures compiled == old(compiled) && skipChars == old(skipChars) && keywords == old(keywords)
    {
      var existing := Get(nodes[i], ch);
      if existing.Some? {
        assert paths[i] + [ch] in index;
        return existing.value;
      }
      child := |nodes|;
      var next := NewNode();
      GrowShape(nodes, paths, index, i, ch);
      var p := paths[i] + [ch];
      nodes := nodes[i := Put(nodes[i], ch, child)] + [next];
      paths := paths + [p];
      index := index[p := child];
    }

    /** extend(chars) on node from: follows chars one by one, creating the missing children, and ends
        at the node whose path is from's path followed by chars. Every prefix of chars is then a path
        below from; nothing else enters the trie, and no existing failure link or result changes. */
    method Extend(from: nat, chars: string) returns (last: nat)
      requires Shape() && from < |nodes|
      modifies this
      ensures Shape()
      ensures last < |nodes| && paths[last] == old(paths[from]) + chars
      ensures forall j :: 0 <= j <= |chars| ==> old(paths[from]) + chars[..j] in index
      ensures forall s :: s in index <==> s in old(index) || (old(paths[from]) <= s && s <= old(paths[from]) + chars)
      ensures old(|nodes|) <= |nodes| && paths[..old(|nodes|)] == old(paths)
      ensures forall n :: 0 <= n < old(|nodes|) ==>
        nodes[n].fail == old(nodes[n].fail) && nodes[n].results == old(nodes[n].results)
      ensures forall n :: old(|nodes|) <= n < |nodes| ==> nodes[n].fail == None && nodes[n].results == {}
      ensures compiled == old(compiled) && skipChars == old(skipChars) && keywords == old(keywords)
    {
      ghost var base := paths[from];
      last := from;
      assert base + chars[..0] == base;
      forall s ensures s in index <==> s in old(index) || (base <= s && s <= base + chars[..0]) {
        if base <= s && s <= base {
          assert s == base;
        }
      }
      for i := 0 to |chars|
        invariant Shape() && last < |nodes| && paths[last] == base + chars[..i]
        invariant forall s :: s in index <==> s in old(index) || (base <= s && s <= base + chars[..i])
        invariant old(|nodes|) <= |nodes| && paths[..old(|nodes|)] == old(paths)
        invariant forall n :: 0 <= n < old(|nodes|) ==>
          nodes[n].fail == old(nodes[n].fail) && nodes[n].results == old(nodes[n].results)
        invariant forall n :: old(|nodes|) <= n < |nodes| ==> nodes[n].fail == None && nodes[n].results == {}
        invariant compiled == old(compiled) && skipChars == old(skipChars) && keywords == old(keywords)
      {
        ghost var before := index;
        last := TouchChild(last, chars[i]);
        SliceSnoc(base, chars, i);
        assert paths[last] in index;
        PathsGrow(old(index), before, index, base, chars, i);
      }
      assert chars[..|chars|] == chars;
      forall j | 0 <= j <= |chars| ensures base + chars[..j] in index {
        assert base + chars[..j] <= base + chars;
      }
    }

    /** The body of add() for an accepted keyword k: extend the trie along k, record k at its node. */
    method Insert(k: string)
      requires Valid() && !compiled && k != []
      modifies this
      ensures Valid()
      ensures keywords == old(keywords) + {k}
      ensures k in index && k in nodes[index[k]].results
      ensures !compiled && skipChars == old(skipChars)
      ensures old(|nodes|) <= |nodes| && paths[..old(|nodes|)] == old(paths)
      ensures forall n :: 0 <= n < old(|nodes|) && paths[n] != k ==> nodes[n].results == old(nodes[n].results)
      ensures forall n :: 0 <= n < old(|nodes|) ==> nodes[n].fail == old(nodes[n].fail)
    {
      ghost var ns0, ps0, ix0 := nodes, paths, index;
      var last := Extend(Root, k);
      assert paths[last] == k by {
        assert paths[last] == [] + k;
      }
      AddKeyword(ns0, ps0, ix0, keywords, nodes, paths, index, last, k);
      nodes := nodes[last := AddResult(nodes[last], k)];
      keywords := keywords + {k};
    }

    /** add(keyword): a null or blank keyword is refused with IllegalArgument, and any keyword after
        compile() with IllegalState, both leaving the tree as it was; otherwise the trie is extended
        along the keyword and the keyword, untrimmed, is recorded at the node it ends at. */
    method Add(keyword: Option<string>) returns (r: Outcome<Error>)
      requires Valid()
      modifies this
      ensures Valid()
      ensures keyword.None? || IsBlank(keyword.value) ==> r == Fail(IllegalArgument) && unchanged(this)
      ensures keyword.Some? && !IsBlank(keyword.value) && old(compiled) ==> r == Fail(IllegalState) && unchanged(this)
      ensures keyword.Some? && !IsBlank(keyword.value) && !old(compiled) ==>
        && r == Pass
        && keywords == old(keywords) + {keyword.value}
        && keyword.value in index && keyword.value in nodes[index[keyword.value]].results
        && !compiled && skipChars == old(skipChars)
        && old(|nodes|) <= |nodes| && paths[..old(|nodes|)] == old(paths)
        && (forall n :: 0 <= n < old(|nodes|) && paths[n] != keyword.value ==> nodes[n].results == old(nodes[n].results))
        && (forall n :: 0 <= n < old(|nodes|) ==> nodes[n].fail == old(nodes[n].fail))
    {
      if keyword.None? || IsBlank(keyword.value) {
        return Fail(IllegalArgument);
      }
      if compiled {
        return Fail(IllegalState);
      }
      var k := keyword.value;
      assert k != [] by {
        assert Trim([]) == [];
      }
      Insert(k);
      r := Pass;
    }

    /** buildFailPath(): a breadth-first pass that links the root's children to the root and then, for
        each visited node h and each child of h, links the child to the failure target found from h's
        own link. Afterwards every node but the root is linked; the trie itself is unchanged. The pass
        works on a copy of the arena (see LinkAll), written back at the end. */
    method BuildFailPath()
      requires Built()
      modifies this
      ensures Built() && AllLinked()
      ensures SameTrie(old(nodes), nodes)
      ensures paths == old(paths) && index == old(index) && keywords == old(keywords)
      ensures compiled == old(compiled) && skipChars == old(skipChars)
    {
      var ns := LinkAll(nodes, nodes, paths, index, keywords);
      SpellsSameTrie(nodes, ns, paths, index, keywords);
      nodes := ns;
    }

    /** compile(): builds the failure links and marks the tree compiled, so that the scans may run and
        add() is refused from now on. */
    method Compile()
      requires Valid()
      modifies this
      ensures Valid() && compiled
      ensures SameTrie(old(nodes), nodes)
      ensures paths == old(paths) && index == old(index) && keywords == old(keywords) && skipChars == old(skipChars)
    {
      BuildFailPath();
      compiled := true;
    }

    /** addSkipChar(ch): ch joins the characters the scans drop; nothing else changes. */
    method AddSkipChar(ch: char)
      requires Valid()
      modifies this
      ensures Valid() && skipChars == old(skipChars) + {ch}
      ensures nodes == old(nodes) && compiled == old(compiled)
      ensures paths == old(paths) && index == old(index) && keywords == old(keywords)
    {
      skipChars := skipChars + {ch};
    }

    /** addSkipChar(chars): every character of the collection joins the skip characters; a null
        collection changes nothing. */
    method AddSkipChars(chars: Option<seq<char>>)
      requires Valid()
      modifies this
      ensures Valid()
      ensures chars.None? ==> skipChars == old(skipChars)
      ensures chars.Some? ==> skipChars == old(skipChars) + set c | c in chars.value
      ensures nodes == old(nodes) && compiled == old(compiled)
      ensures paths == old(paths) && index == old(index) && keywords == old(keywords)
    {
      if chars.Some? {
        skipChars := skipChars + set c | c in chars.value;
      }
    }

    /** containKeyWord(text): a null text is refused; otherwise the skip characters are dropped, the
        automaton reads the rest from the root, and the answer is whether some step reaches a node
        holding a result. Requires a compiled tree. */
    method ContainKeyWord(text: Option<string>) returns (r: Result<bool, Error>)
      requires Valid() && compiled
      ensures text.None? ==> r == Failure(NullPointer("text"))
      ensures text.Some? ==> r == Success(Detects(keywords, Filter(skipChars, text.value)))
    {
      if text.None? {
        return Failure(NullPointer("text"));
      }
      var b := Contains(nodes, paths, index, keywords, skipChars, text.value);
      return Success(b);
    }

    /** replace(text, s): a null text or strategy is refused; otherwise the skip characters are
        dropped and each keyword completed by the scan, counted from the last restart, is replaced by
        s applied to it, the scan restarting at the root. Requires a compiled tree. */
    method Replace(text: Option<string>, s: Option<string -> string>) returns (r: Result<string, Error>)
      requires Valid() && compiled
      ensures text.None? ==> r == Failure(NullPointer("text"))
      ensures text.Some? && s.None? ==> r == Failure(NullPointer("strategy"))
      ensures text.Some? && s.Some? ==> r == Success(ReplaceFrom(keywords, s.value, [], Filter(skipChars, text.value)))
    {
      if text.None? {
        return Failure(NullPointer("text"));
      }
      if s.None? {
        return Failure(NullPointer("strategy"));
      }
      var out := ReplaceScan(nodes, paths, index, keywords, skipChars, text.value, s.value);
      return Success(out);
    }

    /** replaceOld(text, s): a null text or strategy is refused; otherwise the result of the older
        scan. A transition that reaches a node holding a result records its keyword as pending and
        counts; the pending keyword replaces the output's tail when a later transition reaches a node
        without results, or at once when the character is the last one of the text. The scan never
        restarts at the root. Requires a compiled tree. */
    method ReplaceOld(text: Option<string>, s: Option<string -> string>) returns (r: Result<string, Error>)
      requires Valid() && compiled
      ensures text.None? ==> r == Failure(NullPointer("text"))
      ensures text.Some? && s.None? ==> r == Failure(NullPointer("strategy"))
      ensures text.Some? && s.Some? ==> r == LegacyFrom(keywords, s.value, skipChars, [], [], None, 0, text.value)
    {
      if text.None? {
        return Failure(NullPointer("text"));
      }
      if s.None? {
        return Failure(NullPointer("strategy"));
      }
      r := ReplaceOldScan(nodes, paths, index, keywords, skipChars, text.value, s.value);
    }
  }
}
