/** The compiled automaton and its transition function, shared by the three scans of TrieTree. */
module Automaton {
  import opened Wrappers
  import opened Errors
  import opened Text
  import opened TrieNode
  import opened Matching
  import opened TrieShape

  /** A compiled automaton: the arena spells the keywords W and every node but the root is linked. */
  ghost predicate Compiled(ns: seq<Node>, ps: seq<string>, ix: map<string, nat>, W: set<string>) {
    Spells(ns, ps, ix, W) && forall n :: 0 < n < |ns| ==> LinkedAt(ns, ps, ix, W, n)
  }

  /** In a compiled automaton every child of the root fails to the root. */
  lemma RootChildFailsToRoot(ns: seq<Node>, ps: seq<string>, ix: map<string, nat>, W: set<string>, n: nat)
    requires Compiled(ns, ps, ix, W) && 0 < n < |ns| && |ps[n]| == 1
    ensures GetFail(ns[n]) == Some(Root)
  {
    assert LinkedAt(ns, ps, ix, W, n);
    assert ps[n][1..] == [];
    assert ix[ps[Root]] == Root;
  }

  /** In a compiled automaton every node but the root has a failure link, to a node strictly closer
      to the root, whose path is a proper suffix of the node's own path. */
  lemma FailIsShallower(ns: seq<Node>, ps: seq<string>, ix: map<string, nat>, W: set<string>, n: nat)
    requires Compiled(ns, ps, ix, W) && 0 < n < |ns|
    ensures GetFail(ns[n]).Some? && GetFail(ns[n]).value < |ns|
    ensures var f := GetFail(ns[n]).value; |ps[f]| < |ps[n]| && IsSuffix(ps[f], ps[n])
  {
    assert LinkedAt(ns, ps, ix, W, n);
    var p := ps[n];
    FailureIsShallower(W, p);
    LongestTrieSuffixIsSuffix(W, p[1..]);
    assert IsSuffix(p[1..], p);
    SuffixTransitive(LongestTrieSuffix(W, p[1..]), p[1..], p);
    var f := GetFail(ns[n]).value;
    assert ps[f] == LongestTrieSuffix(W, p[1..]);
  }

  /** The transition on ch from node last, as each scan performs it: while the node has no child for
      ch, follow its failure link, stopping at the root; then take the child for ch, or stay at the
      root when even the root has none. The node reached is the one for the longest suffix of last's
      path followed by ch that is in the trie. */
  method Step(ns: seq<Node>, ghost ps: seq<string>, ghost ix: map<string, nat>, ghost W: set<string>,
              last: nat, ch: char) returns (next: nat)
    requires Compiled(ns, ps, ix, W) && last < |ns|
    ensures next < |ns| && ps[next] == LongestTrieSuffix(W, ps[last] + [ch])
  {
    ghost var target := LongestTrieSuffix(W, ps[last] + [ch]);
    var cur: nat := last;
    while Get(ns[cur], ch).None? && cur != Root
      invariant cur < |ns| == |ps| && LongestTrieSuffix(W, ps[cur] + [ch]) == target
      decreases |ps[cur]|
    {
      ChildComplete(ns, ps, ix, cur, ch);
      NonRootPath(ns, ps, ix, cur);
      assert LinkedAt(ns, ps, ix, W, cur);
      MissFollowsFailure(W, ps[cur], ch);
      FailureIsShallower(W, ps[cur]);
      cur := GetFail(ns[cur]).value;
    }
    var child := Get(ns[cur], ch);
    if child.None? {
      ChildComplete(ns, ps, ix, Root, ch);
      MissAtRoot(W, ch);
      next := Root;
    } else {
      next := child.value;
      ChildPath(ns, ps, ix, cur, ch);
      LongestTrieSuffixOfNode(W, ps[next]);
    }
  }

  /** A node holds results exactly when its path is a keyword, and then that keyword alone. */
  lemma NodeResults(ns: seq<Node>, ps: seq<string>, ix: map<string, nat>, W: set<string>, n: nat)
    requires Spells(ns, ps, ix, W) && n < |ns|
    ensures GetResults(ns[n]) != {} <==> ps[n] in W
    ensures forall k :: k in GetResults(ns[n]) ==> k == ps[n]
  {
  }

  /** A keyword detected in the filtered text up to position i is detected in the whole filtered
      text. */
  lemma DetectsInPrefix(W: set<string>, skip: set<char>, t: string, i: nat)
    requires i <= |t| && Detects(W, Filter(skip, t[..i]))
    ensures Detects(W, Filter(skip, t))
  {
    assert t == t[..i] + t[i..];
    FilterAppend(skip, t[..i], t[i..]);
    DetectsAppend(W, Filter(skip, t[..i]), Filter(skip, t[i..]));
  }

  /** The loop of containKeyWord(text): characters in skip are passed over, every other one is a
      transition, and the scan stops with true at the first node holding a result. */
  method Contains(ns: seq<Node>, ghost ps: seq<string>, ghost ix: map<string, nat>, ghost W: set<string>,
                  skip: set<char>, t: string) returns (b: bool)
    requires Compiled(ns, ps, ix, W)
    ensures b == Detects(W, Filter(skip, t))
  {
    var last: nat := Root;
    for i := 0 to |t|
      invariant last < |ns| && ps[last] == LongestTrieSuffix(W, Filter(skip, t[..i]))
      invariant !Detects(W, Filter(skip, t[..i]))
    {
      var ch := t[i];
      ghost var f := Filter(skip, t[..i]);
      FilterUpTo(skip, t, i);
      if ch in skip {
        continue;
      }
      last := Step(ns, ps, ix, W, last, ch);
      LongestTrieSuffixStep(W, f, ch);
      DetectsSnoc(W, f, ch);
      NodeResults(ns, ps, ix, W, last);
      if GetResults(ns[last]) != {} {
        DetectsInPrefix(W, skip, t, i + 1);
        return true;
      }
    }
    assert t[..|t|] == t;
    return false;
  }

  /** The loop of replace(text, s): every transition that reaches a node holding a result (its
      keyword m) cuts the last |m| - 1 characters of the output, appends s(m) in their place and
      restarts at the root; any other character is copied. cur holds the characters read since the
      last restart, all of them at the end of the output. */
  method ReplaceScan(ns: seq<Node>, ghost ps: seq<string>, ghost ix: map<string, nat>, ghost W: set<string>,
                     skip: set<char>, t: string, S: string -> string) returns (out: string)
    requires Compiled(ns, ps, ix, W)
    ensures out == ReplaceFrom(W, S, [], Filter(skip, t))
  {
    out := [];
    var last: nat := Root;
    ghost var done: string := [];
    ghost var cur: string := [];
    for i := 0 to |t|
      invariant last < |ns| && ps[last] == LongestTrieSuffix(W, cur)
      invariant out == done + cur
      invariant done + ReplaceFrom(W, S, cur, Filter(skip, t[i..])) == ReplaceFrom(W, S, [], Filter(skip, t))
    {
      var ch := t[i];
      FilterFrom(skip, t, i);
      if ch in skip {
        continue;
      }
      last, out, done, cur := ReplaceStep(ns, ps, ix, W, S, last, out, done, cur, ch, Filter(skip, t[i + 1..]));
    }
    assert t[|t|..] == [];
  }

  /** The body of replace's loop for a character that is not skipped: the transition, then either the
      replacement of the keyword m reached (the output loses its last |m| - 1 characters and gains
      s(m), and the scan restarts at the root) or the copy of the character. */
  method ReplaceStep(ns: seq<Node>, ghost ps: seq<string>, ghost ix: map<string, nat>, ghost W: set<string>,
                     S: string -> string, last: nat, out: string, ghost done: string, ghost cur: string,
                     ch: char, ghost rest: string)
    returns (last': nat, out': string, ghost done': string, ghost cur': string)
    requires Compiled(ns, ps, ix, W) && last < |ns| && ps[last] == LongestTrieSuffix(W, cur)
    requires out == done + cur
    ensures last' < |ns| && ps[last'] == LongestTrieSuffix(W, cur') && out' == done' + cur'
    ensures done' + ReplaceFrom(W, S, cur', rest) == done + ReplaceFrom(W, S, cur, [ch] + rest)
  {
    last' := Step(ns, ps, ix, W, last, ch);
    LongestTrieSuffixStep(W, cur, ch);
    NodeResults(ns, ps, ix, W, last');
    if GetResults(ns[last']) != {} {
      var preKeyword :| preKeyword in GetResults(ns[last']);
      out' := ReplaceKeyword(W, S, out, done, cur, ch, rest, preKeyword);
      done', cur' := out', [];
      last' := Root;
    } else {
      ReplaceMissStep(W, S, done, cur, ch, rest);
      out' := out + [ch];
      done', cur' := done, cur + [ch];
      AppendAssociative(done, cur, [ch]);
    }
  }

  /** replace, the keyword m just completed: the output, which ends with all but the last character
      of m, is cut by |m| - 1 characters and s(m) is appended; the result is the output of the scan
      up to this character. */
  method ReplaceKeyword(ghost W: set<string>, S: string -> string, out: string, ghost done: string,
                        ghost cur: string, ghost ch: char, ghost rest: string, m: string) returns (out': string)
    requires out == done + cur && [] !in W && m == LongestTrieSuffix(W, cur + [ch]) && m in W
    ensures out' + ReplaceFrom(W, S, [], rest) == done + ReplaceFrom(W, S, cur, [ch] + rest)
  {
    ReplaceCut(W, S, done, cur, ch, rest, out);
    var cut := SetLength(out, |out| - |m| + 1);
    out' := cut.value + S(m);
  }

  /** The loop of replaceOld(text, s). A transition that reaches a node holding a result records its
      keyword as pending and counts; the pending keyword replaces the output's tail when a later
      transition reaches a node without results, or at once when the character is the last one of
      the text. The state is never reset. A negative length for the output fails. */
  method ReplaceOldScan(ns: seq<Node>, ghost ps: seq<string>, ghost ix: map<string, nat>, ghost W: set<string>,
                        skip: set<char>, t: string, S: string -> string) returns (r: Result<string, Error>)
    requires Compiled(ns, ps, ix, W)
    ensures r == LegacyFrom(W, S, skip, [], [], None, 0, t)
  {
    var out: string := [];
    var last: nat := Root;
    var preKeyword: Option<string> := None;
    var cnt: int := 0;
    for i := 0 to |t|
      invariant last < |ns|
      invariant LegacyFrom(W, S, skip, ps[last], out, preKeyword, cnt, t[i..]) == LegacyFrom(W, S, skip, [], [], None, 0, t)
    {
      var ch := t[i];
      assert t[i..][0] == ch && t[i..][1..] == t[i + 1..];
      if ch in skip {
        continue;
      }
      last := Step(ns, ps, ix, W, last, ch);
      NodeResults(ns, ps, ix, W, last);
      if GetResults(ns[last]) != {} {
        var k :| k in GetResults(ns[last]);
        preKeyword := Some(k);
        cnt := cnt + 1;
        if i == |t| - 1 {
          var cut := SetLength(out, |out| - (|k| - cnt));
          if cut.Failure? {
            return Failure(cut.error);
          }
          out := cut.value + S(k);
        }
      } else if preKeyword.Some? {
        var cut := SetLength(out, |out| - (|preKeyword.value| - cnt));
        if cut.Failure? {
          return Failure(cut.error);
        }
        out := cut.value + S(preKeyword.value) + [ch];
        preKeyword := None;
        cnt := 0;
      } else {
        out := out + [ch];
      }
    }
    assert t[|t|..] == [];
    return Success(out);
  }
}
