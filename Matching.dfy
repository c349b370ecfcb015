/** What the automaton computes, stated over strings and the keyword set alone: trie nodes are the
    prefixes of the keywords, the automaton's state after reading a text is the longest suffix of
    that text that is a trie node, and the three scans are defined on top of that. */
module Matching {
  import opened Wrappers
  import opened Errors
  import opened Text

  /** s spells a node of the trie built from keywords W: the root (the empty string) or a prefix of
      some keyword. */
  ghost predicate InTrie(W: set<string>, s: string) {
    s == [] || exists k :: k in W && s <= k
  }

  /** The trie is closed under prefixes: every node's ancestors are nodes. */
  lemma InTriePrefix(W: set<string>, s: string, t: string)
    requires InTrie(W, s) && t <= s
    ensures InTrie(W, t)
  {
    if t != [] {
      var k :| k in W && s <= k;
      assert k[..|t|] == s[..|t|] == t;
    }
  }

  /** The longest suffix of s that is a node of the trie; the root when there is no other. */
  ghost function LongestTrieSuffix(W: set<string>, s: string): (r: string)
    ensures |r| <= |s| && InTrie(W, r)
    decreases |s|
  {
    if InTrie(W, s) then s else LongestTrieSuffix(W, s[1..])
  }

  /** LongestTrieSuffix(W, s) is indeed a suffix of s. */
  lemma {:induction false} LongestTrieSuffixIsSuffix(W: set<string>, s: string)
    ensures IsSuffix(LongestTrieSuffix(W, s), s)
    decreases |s|
  {
    if !InTrie(W, s) {
      LongestTrieSuffixIsSuffix(W, s[1..]);
      SuffixTransitive(LongestTrieSuffix(W, s[1..]), s[1..], s);
    }
  }

  /** No suffix of s that is a trie node is longer than LongestTrieSuffix(W, s). */
  lemma {:induction false} LongestTrieSuffixIsLongest(W: set<string>, s: string, t: string)
    requires IsSuffix(t, s) && InTrie(W, t)
    ensures |t| <= |LongestTrieSuffix(W, s)|
    decreases |s|
  {
    if !InTrie(W, s) {
      assert |t| < |s|;
      assert s[1..][|s| - 1 - |t|..] == s[|s| - |t|..];
      LongestTrieSuffixIsLongest(W, s[1..], t);
    }
  }

  /** A trie node is its own longest trie suffix. */
  lemma LongestTrieSuffixOfNode(W: set<string>, s: string)
    requires InTrie(W, s)
    ensures LongestTrieSuffix(W, s) == s
  {
  }

  /** A suffix of a suffix is a suffix. */
  lemma SuffixTransitive(a: string, b: string, s: string)
    requires IsSuffix(a, b) && IsSuffix(b, s)
    ensures IsSuffix(a, s)
  {
    assert s[|s| - |a|..] == s[|s| - |b|..][|b| - |a|..];
  }

  /** Of two suffixes of one string, the shorter is a suffix of the longer. */
  lemma SuffixOfLongerSuffix(a: string, b: string, s: string)
    requires IsSuffix(a, s) && IsSuffix(b, s) && |a| <= |b|
    ensures IsSuffix(a, b)
  {
    assert b[|b| - |a|..] == s[|s| - |b|..][|b| - |a|..];
  }

  /** Appending one character on both sides keeps (and reflects) the suffix relation. */
  lemma SuffixSnoc(a: string, s: string, c: char)
    ensures IsSuffix(a, s) <==> IsSuffix(a + [c], s + [c])
  {
    if IsSuffix(a + [c], s + [c]) {
      assert s[|s| - |a|..] == (s + [c])[|s + [c]| - |a + [c]|..][..|a|];
    }
  }

  /** The step that makes Aho-Corasick work: the longest trie suffix of v + [c] can be computed from
      the longest trie suffix of v alone. */
  lemma LongestTrieSuffixStep(W: set<string>, v: string, c: char)
    ensures LongestTrieSuffix(W, v + [c]) == LongestTrieSuffix(W, LongestTrieSuffix(W, v) + [c])
  {
    var f := LongestTrieSuffix(W, v);
    var a := LongestTrieSuffix(W, v + [c]);
    var b := LongestTrieSuffix(W, f + [c]);
    LongestTrieSuffixIsSuffix(W, v);
    LongestTrieSuffixIsSuffix(W, v + [c]);
    LongestTrieSuffixIsSuffix(W, f + [c]);
    SuffixSnoc(f, v, c);
    SuffixTransitive(b, f + [c], v + [c]);
    LongestTrieSuffixIsLongest(W, v + [c], b);
    if a != [] {
      var u := a[..|a| - 1];
      assert a == u + [c];
      SuffixSnoc(u, v, c);
      InTriePrefix(W, a, u);
      LongestTrieSuffixIsLongest(W, v, u);
      SuffixOfLongerSuffix(u, f, v);
      SuffixSnoc(u, f, c);
      LongestTrieSuffixIsLongest(W, f + [c], a);
    }
    SuffixOfLongerSuffix(a, b, v + [c]);
  }

  /** The transition below a node p that has no child c is the transition below its failure target,
      the longest trie suffix of p without its first character. */
  lemma MissFollowsFailure(W: set<string>, p: string, c: char)
    requires p != [] && !InTrie(W, p + [c])
    ensures LongestTrieSuffix(W, p + [c]) == LongestTrieSuffix(W, LongestTrieSuffix(W, p[1..]) + [c])
  {
    assert (p + [c])[1..] == p[1..] + [c];
    LongestTrieSuffixStep(W, p[1..], c);
  }

  /** The transition from the root on a character that has no child there stays at the root. */
  lemma MissAtRoot(W: set<string>, c: char)
    requires !InTrie(W, [c])
    ensures LongestTrieSuffix(W, [] + [c]) == []
  {
    assert ([] + [c])[1..] == [];
  }

  /** The failure target of node p + [c] is the transition on c from the failure target of p. */
  lemma ChildFailure(W: set<string>, p: string, c: char)
    requires p != []
    ensures LongestTrieSuffix(W, (p + [c])[1..]) == LongestTrieSuffix(W, LongestTrieSuffix(W, p[1..]) + [c])
  {
    assert (p + [c])[1..] == p[1..] + [c];
    LongestTrieSuffixStep(W, p[1..], c);
  }

  /** A failure target is strictly shallower than the node it belongs to. */
  lemma FailureIsShallower(W: set<string>, p: string)
    requires p != []
    ensures |LongestTrieSuffix(W, p[1..])| < |p|
  {
  }

  // ---------------------------------------------------------------- presence test

  /** A scan of f from the root reaches, after some character, a node whose own path is a keyword.
      Only that node's own keyword is seen: a shorter keyword ending at the same position is not
      (results are not propagated along failure links). */
  ghost predicate Detects(W: set<string>, f: string) {
    exists j :: 0 < j <= |f| && LongestTrieSuffix(W, f[..j]) in W
  }

  /** Reading one more character detects a keyword exactly when the text before it already did or
      the state reached is itself a keyword. */
  lemma DetectsSnoc(W: set<string>, f: string, c: char)
    ensures Detects(W, f + [c]) <==> Detects(W, f) || LongestTrieSuffix(W, f + [c]) in W
  {
    assert (f + [c])[..|f| + 1] == f + [c];
    forall j | 0 < j <= |f| ensures (f + [c])[..j] == f[..j] {
    }
    if Detects(W, f + [c]) && LongestTrieSuffix(W, f + [c]) !in W {
      var j :| 0 < j <= |f| + 1 && LongestTrieSuffix(W, (f + [c])[..j]) in W;
      assert j <= |f|;
      assert (f + [c])[..j] == f[..j];
    }
  }

  /** A detection in a text is a detection in every extension of it. */
  lemma DetectsAppend(W: set<string>, f: string, g: string)
    requires Detects(W, f)
    ensures Detects(W, f + g)
  {
    var j :| 0 < j <= |f| && LongestTrieSuffix(W, f[..j]) in W;
    assert (f + g)[..j] == f[..j];
  }

  /** Whatever is detected is a real occurrence of a keyword in f. */
  lemma DetectionIsOccurrence(W: set<string>, f: string)
    requires Detects(W, f)
    ensures exists i, j :: 0 <= i <= j <= |f| && f[i..j] in W
  {
    var j :| 0 < j <= |f| && LongestTrieSuffix(W, f[..j]) in W;
    var k := LongestTrieSuffix(W, f[..j]);
    LongestTrieSuffixIsSuffix(W, f[..j]);
    assert f[j - |k|..j] == f[..j][j - |k|..];
  }

  /** The presence test with results propagated along failure links: after some character, some
      keyword is a suffix of the state reached. This is what a node's results would hold if each
      node also took over the results of its failure target. */
  ghost predicate DetectsPropagated(W: set<string>, f: string) {
    exists j, k :: 0 < j <= |f| && k in W && IsSuffix(k, LongestTrieSuffix(W, f[..j]))
  }

  /** The propagated presence test finds a keyword exactly when one occurs in f. */
  lemma PropagatedDetectionIsComplete(W: set<string>, f: string)
    requires [] !in W
    ensures DetectsPropagated(W, f) <==> exists i, j :: 0 <= i < j <= |f| && f[i..j] in W
  {
    if DetectsPropagated(W, f) {
      var j, k :| 0 < j <= |f| && k in W && IsSuffix(k, LongestTrieSuffix(W, f[..j]));
      LongestTrieSuffixIsSuffix(W, f[..j]);
      SuffixTransitive(k, LongestTrieSuffix(W, f[..j]), f[..j]);
      assert f[j - |k|..j] == f[..j][j - |k|..];
    }
    if exists i, j :: 0 <= i < j <= |f| && f[i..j] in W {
      var i, j :| 0 <= i < j <= |f| && f[i..j] in W;
      var k := f[i..j];
      assert f[..j][j - |k|..] == k;
      assert InTrie(W, k) by {
        assert k <= k;
      }
      LongestTrieSuffixIsLongest(W, f[..j], k);
      LongestTrieSuffixIsSuffix(W, f[..j]);
      SuffixOfLongerSuffix(k, LongestTrieSuffix(W, f[..j]), f[..j]);
    }
  }

  /** Every detection of the scan as written is a detection of the propagated test. */
  lemma DetectsIsPropagated(W: set<string>, f: string)
    requires Detects(W, f)
    ensures DetectsPropagated(W, f)
  {
    var j :| 0 < j <= |f| && LongestTrieSuffix(W, f[..j]) in W;
    var m := LongestTrieSuffix(W, f[..j]);
    assert IsSuffix(m, m);
  }

  // ---------------------------------------------------------------- replace

  /** The output of replace for the rest f of the skip-filtered text, when cur holds the characters
      read since the last reset to the root (all of them already in the output): each character
      either extends cur, or completes the keyword m at the current node, in which case the last
      |m| - 1 characters of the output (the start of m) give way to S(m) and the scan restarts at
      the root. */
  ghost function ReplaceFrom(W: set<string>, S: string -> string, cur: string, f: string): (r: string)
    decreases |f|
  {
    if f == [] then cur
    else
      var w := cur + [f[0]];
      var m := LongestTrieSuffix(W, w);
      if m in W then w[..|w| - |m|] + S(m) + ReplaceFrom(W, S, [], f[1..])
      else ReplaceFrom(W, S, w, f[1..])
  }

  /** One step of replace: reading c after cur either completes the keyword m, written out in place
      of its start, with the scan restarting at the root, or extends cur. */
  lemma ReplaceFromCons(W: set<string>, S: string -> string, cur: string, c: char, f: string)
    ensures var w := cur + [c]; var m := LongestTrieSuffix(W, w);
      ReplaceFrom(W, S, cur, [c] + f) ==
        if m in W then w[..|w| - |m|] + S(m) + ReplaceFrom(W, S, [], f) else ReplaceFrom(W, S, w, f)
  {
    assert ([c] + f)[0] == c && ([c] + f)[1..] == f;
  }

  /** The output of replace is the text before cur followed by cur; cutting the last k - 1 characters
      of it, for a keyword of length k ending with c, keeps what precedes the keyword. */
  lemma CutBeforeKeyword(done: string, cur: string, c: char, k: nat)
    requires 1 <= k <= |cur| + 1
    ensures (done + cur)[..|done| + |cur| + 1 - k] == done + (cur + [c])[..|cur| + 1 - k]
  {
    assert (cur + [c])[..|cur| + 1 - k] == cur[..|cur| + 1 - k];
  }

  /** replace, a step that completes the keyword m: the output so far, done + cur, cut by |m| - 1
      characters and followed by S(m), is the output of the scan up to this character. */
  lemma ReplaceMatchStep(W: set<string>, S: string -> string, done: string, cur: string, c: char, f: string)
    requires LongestTrieSuffix(W, cur + [c]) in W && [] !in W
    ensures var m := LongestTrieSuffix(W, cur + [c]);
      && 1 <= |m| <= |cur| + 1
      && (done + cur)[..|done| + |cur| + 1 - |m|] + S(m) + ReplaceFrom(W, S, [], f) == done + ReplaceFrom(W, S, cur, [c] + f)
  {
    var m := LongestTrieSuffix(W, cur + [c]);
    ReplaceFromCons(W, S, cur, c, f);
    CutBeforeKeyword(done, cur, c, |m|);
  }

  /** replace, a step that completes the keyword m, on the output buffer itself: setLength to the
      output's length minus |m| - 1 succeeds, and what it leaves, followed by S(m), is the output of
      the scan up to this character. */
  lemma ReplaceCut(W: set<string>, S: string -> string, done: string, cur: string, c: char, f: string, out: string)
    requires LongestTrieSuffix(W, cur + [c]) in W && [] !in W && out == done + cur
    ensures var m := LongestTrieSuffix(W, cur + [c]);
      var cut := SetLength(out, |out| - |m| + 1);
      && cut.Success? && cut.value <= out
      && cut.value + S(m) + ReplaceFrom(W, S, [], f) == done + ReplaceFrom(W, S, cur, [c] + f)
  {
    ReplaceMatchStep(W, S, done, cur, c, f);
  }

  /** replace, a step that completes no keyword: the character is copied and extends cur. */
  lemma ReplaceMissStep(W: set<string>, S: string -> string, done: string, cur: string, c: char, f: string)
    requires LongestTrieSuffix(W, cur + [c]) !in W
    ensures done + ReplaceFrom(W, S, cur + [c], f) == done + ReplaceFrom(W, S, cur, [c] + f)
  {
    ReplaceFromCons(W, S, cur, c, f);
  }

  /** Moving one character from the front of the unread text to the end of the text read. */
  lemma ShiftPrefix(p: string, c: char, f: string, j: nat)
    requires j <= |f|
    ensures (p + [c]) + f[..j] == p + ([c] + f)[..j + 1]
    ensures (p + [c]) + f == p + ([c] + f)
  {
  }

  /** When no step completes a keyword, replace copies its input. */
  lemma {:induction false} ReplaceFromWithoutMatch(W: set<string>, S: string -> string, cur: string, f: string)
    requires forall j :: 0 < j <= |f| ==> LongestTrieSuffix(W, cur + f[..j]) !in W
    ensures ReplaceFrom(W, S, cur, f) == cur + f
    decreases |f|
  {
    if f != [] {
      var w := cur + [f[0]];
      assert w == cur + f[..1];
      forall j | 0 < j <= |f[1..]|
        ensures LongestTrieSuffix(W, w + f[1..][..j]) !in W
      {
        assert w + f[1..][..j] == cur + f[..j + 1];
      }
      ReplaceFromWithoutMatch(W, S, w, f[1..]);
      assert w + f[1..] == cur + f;
    }
  }

  /** A text in which the presence test finds nothing comes out of replace unchanged. */
  lemma ReplaceWithoutDetection(W: set<string>, S: string -> string, f: string)
    requires !Detects(W, f)
    ensures ReplaceFrom(W, S, [], f) == f
  {
    forall j | 0 < j <= |f| ensures LongestTrieSuffix(W, [] + f[..j]) !in W {
      assert [] + f[..j] == f[..j];
    }
    ReplaceFromWithoutMatch(W, S, [], f);
  }

  /** Concatenation keeps a string free of skip characters. */
  lemma AvoidsConcat(a: string, b: string, skip: set<char>)
    requires Avoids(a, skip) && Avoids(b, skip)
    ensures Avoids(a + b, skip)
  {
  }

  /** replace brings in no skip character that neither its input nor a replacement holds. */
  lemma {:induction false} ReplaceFromAvoids(W: set<string>, S: string -> string, cur: string, f: string, skip: set<char>)
    requires Avoids(cur, skip) && Avoids(f, skip)
    requires forall k :: k in W ==> Avoids(S(k), skip)
    ensures Avoids(ReplaceFrom(W, S, cur, f), skip)
    decreases |f|
  {
    if f != [] {
      var w := cur + [f[0]];
      var m := LongestTrieSuffix(W, w);
      assert Avoids(f[1..], skip);
      if m in W {
        var head := w[..|w| - |m|];
        assert Avoids(head, skip);
        assert Avoids(S(m), skip);
        AvoidsConcat(head, S(m), skip);
        ReplaceFromAvoids(W, S, [], f[1..], skip);
        AvoidsConcat(head + S(m), ReplaceFrom(W, S, [], f[1..]), skip);
      } else {
        AvoidsConcat(cur, [f[0]], skip);
        ReplaceFromAvoids(W, S, w, f[1..], skip);
      }
    }
  }

  // ---------------------------------------------------------------- replaceOld

  /** The output of replaceOld for the rest of the raw text, from automaton state q (the path of the
      current node), output so far out, pending keyword pk and counter cnt. A character whose
      transition reaches a keyword node is held back: it records that keyword and counts. The pending
      keyword is written out, after cutting |pk| - cnt characters, when a later transition reaches a
      node without results (that character follows it) or when the character is the last one of the
      RAW text. The state is never reset to the root. */
  ghost function LegacyFrom(W: set<string>, S: string -> string, skip: set<char>, q: string, out: string,
                            pk: Option<string>, cnt: int, rest: string): (r: Result<string, Error>)
    decreases |rest|
  {
    if rest == [] then Success(out)
    else
      var c := rest[0];
      if c in skip then LegacyFrom(W, S, skip, q, out, pk, cnt, rest[1..])
      else
        var q' := LongestTrieSuffix(W, q + [c]);
        if q' in W then
          if |rest| == 1 then
            match SetLength(out, |out| - (|q'| - (cnt + 1)))
            case Failure(e) => Failure(e)
            case Success(o) => Success(o + S(q'))
          else LegacyFrom(W, S, skip, q', out, Some(q'), cnt + 1, rest[1..])
        else if pk.Some? then
          match SetLength(out, |out| - (|pk.value| - cnt))
          case Failure(e) => Failure(e)
          case Success(o) => LegacyFrom(W, S, skip, q', o + S(pk.value) + [c], None, 0, rest[1..])
        else LegacyFrom(W, S, skip, q', out + [c], pk, cnt, rest[1..])
  }

  /** When no step completes a keyword, replaceOld copies the skip-filtered input. */
  lemma {:induction false} LegacyFromWithoutMatch(W: set<string>, S: string -> string, skip: set<char>,
                                                 p: string, out: string, rest: string)
    requires forall j :: 0 < j <= |Filter(skip, rest)| ==> LongestTrieSuffix(W, p + Filter(skip, rest)[..j]) !in W
    ensures LegacyFrom(W, S, skip, LongestTrieSuffix(W, p), out, None, 0, rest) == Success(out + Filter(skip, rest))
    decreases |rest|
  {
    var q := LongestTrieSuffix(W, p);
    if rest == [] {
      assert out + Filter(skip, rest) == out;
    } else {
      var c := rest[0];
      FilterCons(skip, rest);
      var f := Filter(skip, rest);
      var f' := Filter(skip, rest[1..]);
      if c in skip {
        assert f == f';
        LegacyFromWithoutMatch(W, S, skip, p, out, rest[1..]);
        assert LegacyFrom(W, S, skip, q, out, None, 0, rest) == LegacyFrom(W, S, skip, q, out, None, 0, rest[1..]);
      } else {
        assert f == [c] + f';
        var q' := LongestTrieSuffix(W, q + [c]);
        LongestTrieSuffixStep(W, p, c);
        assert q' == LongestTrieSuffix(W, p + [c]);
        assert p + f[..1] == p + [c];
        assert q' !in W;
        assert LegacyFrom(W, S, skip, q, out, None, 0, rest) == LegacyFrom(W, S, skip, q', out + [c], None, 0, rest[1..]);
        forall j | 0 < j <= |f'|
          ensures LongestTrieSuffix(W, (p + [c]) + f'[..j]) !in W
        {
          ShiftPrefix(p, c, f', j);
        }
        LegacyFromWithoutMatch(W, S, skip, p + [c], out + [c], rest[1..]);
        ShiftPrefix(out, c, f', |f'|);
      }
    }
  }

  /** A text in which the presence test finds nothing comes out of replaceOld filtered but otherwise
      unchanged, exactly as it comes out of replace. */
  lemma LegacyWithoutDetection(W: set<string>, S: string -> string, skip: set<char>, text: string)
    requires !Detects(W, Filter(skip, text))
    ensures LegacyFrom(W, S, skip, [], [], None, 0, text) == Success(Filter(skip, text))
    ensures ReplaceFrom(W, S, [], Filter(skip, text)) == Filter(skip, text)
  {
    var f := Filter(skip, text);
    forall j | 0 < j <= |f| ensures LongestTrieSuffix(W, [] + f[..j]) !in W {
      assert [] + f[..j] == f[..j];
    }
    assert InTrie(W, []);
    LegacyFromWithoutMatch(W, S, skip, [], [], text);
    assert [] + f == f;
    ReplaceWithoutDetection(W, S, f);
  }
}
