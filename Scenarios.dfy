/** Concrete runs of the two replacement scans on small keyword sets, worked out from their
    specifications. */
module Scenarios {
  import opened Wrappers
  import opened Errors
  import opened Text
  import opened Matching

  /** A replacement strategy that deletes the keyword. */
  function Erase(k: string): (r: string) {
    []
  }

  /** Two keywords where the second starts inside the first. */
  const Overlapping: set<string> := {"ab", "bcd"}

  /** Two strings whose first characters differ are not prefixes of one another. */
  lemma FirstCharDiffers(s: string, t: string)
    requires s != [] && t != [] && s[0] != t[0]
    ensures !(s <= t)
  {
  }

  /** The trie nodes the scans below pass through, and the texts that are not nodes. */
  lemma OverlappingNodes()
    ensures InTrie(Overlapping, "a") && InTrie(Overlapping, "ab")
    ensures InTrie(Overlapping, "bc") && InTrie(Overlapping, "bcd")
    ensures !InTrie(Overlapping, "abc") && !InTrie(Overlapping, "c")
    ensures !InTrie(Overlapping, "cd") && !InTrie(Overlapping, "d")
  {
    assert "a" <= "ab" && "ab" <= "ab" && "bc" <= "bcd" && "bcd" <= "bcd";
    assert "ab" in Overlapping && "bcd" in Overlapping;
    forall k | k in Overlapping
      ensures !("abc" <= k) && !("c" <= k) && !("cd" <= k) && !("d" <= k)
    {
      assert k == "ab" || k == "bcd";
      assert k[0] == 'a' || k[0] == 'b';
      FirstCharDiffers("c", k);
      FirstCharDiffers("cd", k);
      FirstCharDiffers("d", k);
      if k == "bcd" {
        FirstCharDiffers("abc", k);
      }
    }
  }

  lemma OverlappingTrie()
    ensures LongestTrieSuffix(Overlapping, "a") == "a"
    ensures LongestTrieSuffix(Overlapping, "ab") == "ab"
    ensures LongestTrieSuffix(Overlapping, "abc") == "bc"
    ensures LongestTrieSuffix(Overlapping, "bcd") == "bcd"
    ensures LongestTrieSuffix(Overlapping, "c") == []
    ensures LongestTrieSuffix(Overlapping, "cd") == []
  {
    OverlappingNodes();
    assert "abc"[1..] == "bc" && "c"[1..] == [] && "cd"[1..] == "d" && "d"[1..] == [];
  }

  /** replaceOld on "abcd" with the keywords ab and bcd and the erasing strategy: after ab is
      written out, the pending bcd asks StringBuilder.setLength for the length -1, which throws. */
  lemma ReplaceOldOverlapFails()
    ensures LegacyFrom(Overlapping, Erase, {}, [], [], None, 0, "abcd") == Failure(StringIndexOutOfBounds(-1))
  {
    OverlappingTrie();
    LegacyOnOverlap(Overlapping, Erase, {});
  }

  /** The run of replaceOld above, over any keyword set that the text sees as it sees ab and bcd. */
  lemma LegacyOnOverlap(W: set<string>, S: string -> string, skip: set<char>)
    requires skip == {} && S("ab") == []
    requires LongestTrieSuffix(W, "a") == "a" && "a" !in W
    requires LongestTrieSuffix(W, "ab") == "ab" && "ab" in W
    requires LongestTrieSuffix(W, "abc") == "bc" && "bc" !in W
    requires LongestTrieSuffix(W, "bcd") == "bcd" && "bcd" in W
    ensures LegacyFrom(W, S, skip, [], [], None, 0, "abcd") == Failure(StringIndexOutOfBounds(-1))
  {
    LegacyOnOverlapHold(W, S, skip);
    LegacyOnOverlapFlush(W, S, skip);
  }

  /** LegacyOnOverlap, first half: a is copied, and ab is held back with the count 1. */
  lemma LegacyOnOverlapHold(W: set<string>, S: string -> string, skip: set<char>)
    requires skip == {}
    requires LongestTrieSuffix(W, "a") == "a" && "a" !in W
    requires LongestTrieSuffix(W, "ab") == "ab" && "ab" in W
    ensures LegacyFrom(W, S, skip, [], [], None, 0, "abcd") == LegacyFrom(W, S, skip, "ab", "a", Some("ab"), 1, "cd")
  {
    assert "abcd"[0] == 'a' && "abcd"[1..] == "bcd" && [] + ['a'] == "a";
    assert LegacyFrom(W, S, skip, [], [], None, 0, "abcd") == LegacyFrom(W, S, skip, "a", "a", None, 0, "bcd");
    assert "bcd"[0] == 'b' && "bcd"[1..] == "cd" && "a" + ['b'] == "ab";
  }

  /** LegacyOnOverlap, second half: c writes ab out, leaving c; bcd then asks for the length -1. */
  lemma LegacyOnOverlapFlush(W: set<string>, S: string -> string, skip: set<char>)
    requires skip == {} && S("ab") == []
    requires LongestTrieSuffix(W, "abc") == "bc" && "bc" !in W
    requires LongestTrieSuffix(W, "bcd") == "bcd" && "bcd" in W
    ensures LegacyFrom(W, S, skip, "ab", "a", Some("ab"), 1, "cd") == Failure(StringIndexOutOfBounds(-1))
  {
    assert "cd"[0] == 'c' && "cd"[1..] == "d" && "ab" + ['c'] == "abc";
    assert SetLength("a", 0) == Success([]) && [] + S("ab") + ['c'] == "c";
    assert LegacyFrom(W, S, skip, "ab", "a", Some("ab"), 1, "cd") == LegacyFrom(W, S, skip, "bc", "c", None, 0, "d");
    assert "d"[0] == 'd' && "bc" + ['d'] == "bcd" && |"d"| == 1;
  }

  /** replace on the same input cuts ab at once, restarts at the root and copies the rest. */
  lemma ReplaceOverlapSucceeds()
    ensures ReplaceFrom(Overlapping, Erase, [], "abcd") == "cd"
  {
    OverlappingTrie();
    ReplaceOnOverlap(Overlapping, Erase);
  }

  /** The run of replace above, over any keyword set that the text sees as it sees ab and bcd. */
  lemma ReplaceOnOverlap(W: set<string>, S: string -> string)
    requires S("ab") == []
    requires LongestTrieSuffix(W, "a") == "a" && "a" !in W
    requires LongestTrieSuffix(W, "ab") == "ab" && "ab" in W
    requires LongestTrieSuffix(W, "c") == [] && [] !in W
    requires LongestTrieSuffix(W, "cd") == []
    ensures ReplaceFrom(W, S, [], "abcd") == "cd"
  {
    assert "abcd"[0] == 'a' && "abcd"[1..] == "bcd" && [] + ['a'] == "a";
    assert ReplaceFrom(W, S, [], "abcd") == ReplaceFrom(W, S, "a", "bcd");
    assert "bcd"[0] == 'b' && "bcd"[1..] == "cd" && "a" + ['b'] == "ab";
    assert "ab"[..|"ab"| - |"ab"|] + S("ab") == [];
    assert ReplaceFrom(W, S, "a", "bcd") == ReplaceFrom(W, S, [], "cd");
    assert "cd"[0] == 'c' && "cd"[1..] == "d" && [] + ['c'] == "c";
    assert ReplaceFrom(W, S, [], "cd") == ReplaceFrom(W, S, "c", "d");
    assert "d"[0] == 'd' && "d"[1..] == [] && "c" + ['d'] == "cd";
  }

  // ---------------------------------------------------------------- a keyword read twice in a row

  /** A replacement strategy that masks a keyword with a single asterisk. */
  function Mask(k: string): (r: string)
    ensures |r| == 1
  {
    "*"
  }

  /** The single keyword a: every a is a keyword, and aa is not a node. */
  lemma SingleTrie()
    ensures LongestTrieSuffix({"a"}, "a") == "a" && LongestTrieSuffix({"a"}, "aa") == "a"
  {
    assert "a" <= "a" && InTrie({"a"}, "a");
    assert !("aa" <= "a");
    assert "aa"[1..] == "a";
  }

  /** replaceOld on "aaa" with the keyword a: the three matches are counted against one pending a, so
      StringBuilder.setLength lengthens the empty output to two U+0000 characters before one mask. */
  lemma ReplaceOldRepeatPads()
    ensures LegacyFrom({"a"}, Mask, {}, [], [], None, 0, "aaa") == Success("\0\0*")
  {
    SingleTrie();
    LegacyOnRepeat({"a"}, Mask, {});
    assert "\0\0" + Mask("a") == "\0\0*";
  }

  lemma LegacyOnRepeat(W: set<string>, S: string -> string, skip: set<char>)
    requires skip == {} && "a" in W
    requires LongestTrieSuffix(W, "a") == "a" && LongestTrieSuffix(W, "aa") == "a"
    ensures LegacyFrom(W, S, skip, [], [], None, 0, "aaa") == Success("\0\0" + S("a"))
  {
    assert "aaa"[0] == 'a' && "aaa"[1..] == "aa" && [] + ['a'] == "a";
    assert LegacyFrom(W, S, skip, [], [], None, 0, "aaa") == LegacyFrom(W, S, skip, "a", [], Some("a"), 1, "aa");
    assert "aa"[0] == 'a' && "aa"[1..] == "a" && "a" + ['a'] == "aa";
    assert LegacyFrom(W, S, skip, "a", [], Some("a"), 1, "aa") == LegacyFrom(W, S, skip, "a", [], Some("a"), 2, "a");
    assert "a"[0] == 'a' && |"a"| == 1;
    var pad := seq(2, _ => '\0');
    assert pad == "\0\0" by {
      assert |pad| == 2 && pad[0] == '\0' && pad[1] == '\0';
    }
    assert [] + pad == pad;
    assert SetLength([], 2) == Success(pad);
    assert LegacyFrom(W, S, skip, "a", [], Some("a"), 2, "a") == Success(pad + S("a"));
  }

  /** replace on the same input masks each a. */
  lemma ReplaceRepeatMasks()
    ensures ReplaceFrom({"a"}, Mask, [], "aaa") == "***"
  {
    SingleTrie();
    assert ['a'] == "a" && ['a', 'a', 'a'] == "aaa";
    ReplaceOnRepeat({"a"}, Mask, 'a');
  }

  /** The run of replace above, for any one-character keyword c read three times. */
  lemma ReplaceOnRepeat(W: set<string>, S: string -> string, c: char)
    requires [c] in W && LongestTrieSuffix(W, [c]) == [c]
    ensures ReplaceFrom(W, S, [], [c, c, c]) == S([c]) + S([c]) + S([c])
  {
    ReplaceOnSingle(W, S, c, []);
    ReplaceOnSingle(W, S, c, [c]);
    ReplaceOnSingle(W, S, c, [c, c]);
    assert [c] + [] == [c] && [c] + [c] == [c, c] && [c] + [c, c] == [c, c, c];
  }

  /** ReplaceOnRepeat, the step that repeats: a leading c is replaced at once and the scan restarts. */
  lemma ReplaceOnSingle(W: set<string>, S: string -> string, c: char, f: string)
    requires [c] in W && LongestTrieSuffix(W, [c]) == [c]
    ensures ReplaceFrom(W, S, [], [c] + f) == S([c]) + ReplaceFrom(W, S, [], f)
  {
    ReplaceFromCons(W, S, [], c, f);
    assert [] + [c] == [c];
    assert [c][..0] == [];
  }

  // ---------------------------------------------------------------- a skip character at the end

  /** The single keyword ab. */
  lemma PairTrie()
    ensures LongestTrieSuffix({"ab"}, "a") == "a" && LongestTrieSuffix({"ab"}, "ab") == "ab"
  {
    assert "a" <= "ab" && "ab" <= "ab";
    assert InTrie({"ab"}, "a") && InTrie({"ab"}, "ab");
  }

  /** replaceOld with the keyword ab and the skip character ',': "ab" comes out masked, but "ab,"
      comes out as "a", because the keyword is written out only when its last character is the
      last character of the raw text. */
  lemma ReplaceOldTrailingSkipLoses()
    ensures LegacyFrom({"ab"}, Mask, {','}, [], [], None, 0, "ab") == Success("*")
    ensures LegacyFrom({"ab"}, Mask, {','}, [], [], None, 0, "ab,") == Success("a")
  {
    PairTrie();
    LegacyOnPair({"ab"}, Mask, {','});
  }

  lemma LegacyOnPair(W: set<string>, S: string -> string, skip: set<char>)
    requires skip == {','} && "a" !in W && "ab" in W
    requires LongestTrieSuffix(W, "a") == "a" && LongestTrieSuffix(W, "ab") == "ab"
    ensures LegacyFrom(W, S, skip, [], [], None, 0, "ab") == Success(S("ab"))
    ensures LegacyFrom(W, S, skip, [], [], None, 0, "ab,") == Success("a")
  {
    LegacyOnPairAtEnd(W, S, skip);
    LegacyOnPairBeforeSkip(W, S, skip);
  }

  /** LegacyOnPair on "ab": the keyword ends on the last character and is written out. */
  lemma LegacyOnPairAtEnd(W: set<string>, S: string -> string, skip: set<char>)
    requires skip == {','} && "a" !in W && "ab" in W
    requires LongestTrieSuffix(W, "a") == "a" && LongestTrieSuffix(W, "ab") == "ab"
    ensures LegacyFrom(W, S, skip, [], [], None, 0, "ab") == Success(S("ab"))
  {
    assert "ab"[0] == 'a' && "ab"[1..] == "b" && [] + ['a'] == "a";
    assert LegacyFrom(W, S, skip, [], [], None, 0, "ab") == LegacyFrom(W, S, skip, "a", "a", None, 0, "b");
    assert "b"[0] == 'b' && |"b"| == 1 && "a" + ['b'] == "ab";
    assert SetLength("a", 0) == Success([]) && [] + S("ab") == S("ab");
  }

  /** LegacyOnPair on "ab,": the keyword is held back at b and the trailing skip character ends the
      text without writing it out. */
  lemma LegacyOnPairBeforeSkip(W: set<string>, S: string -> string, skip: set<char>)
    requires skip == {','} && "a" !in W && "ab" in W
    requires LongestTrieSuffix(W, "a") == "a" && LongestTrieSuffix(W, "ab") == "ab"
    ensures LegacyFrom(W, S, skip, [], [], None, 0, "ab,") == Success("a")
  {
    assert "ab,"[0] == 'a' && "ab,"[1..] == "b," && [] + ['a'] == "a";
    assert LegacyFrom(W, S, skip, [], [], None, 0, "ab,") == LegacyFrom(W, S, skip, "a", "a", None, 0, "b,");
    assert "b,"[0] == 'b' && "b,"[1..] == "," && "a" + ['b'] == "ab" && |"b,"| == 2;
    assert LegacyFrom(W, S, skip, "a", "a", None, 0, "b,") == LegacyFrom(W, S, skip, "ab", "a", Some("ab"), 1, ",");
    assert ","[0] == ',' && ","[1..] == [];
    assert LegacyFrom(W, S, skip, "ab", "a", Some("ab"), 1, ",") == LegacyFrom(W, S, skip, "ab", "a", Some("ab"), 1, []);
  }

  /** replace on the same input filters the skip character away first and masks ab either way. */
  lemma ReplaceTrailingSkipMasks()
    ensures ReplaceFrom({"ab"}, Mask, [], Filter({','}, "ab,")) == "*"
    ensures ReplaceFrom({"ab"}, Mask, [], Filter({','}, "ab")) == "*"
  {
    PairTrie();
    assert "ab,"[..2] == "ab" && "ab"[..1] == "a" && "a"[..0] == [];
    assert Filter({','}, "ab,") == "ab" && Filter({','}, "ab") == "ab";
    ReplaceOnPair({"ab"}, Mask);
  }

  lemma ReplaceOnPair(W: set<string>, S: string -> string)
    requires "a" !in W && "ab" in W
    requires LongestTrieSuffix(W, "a") == "a" && LongestTrieSuffix(W, "ab") == "ab"
    ensures ReplaceFrom(W, S, [], "ab") == S("ab")
  {
    assert "ab"[0] == 'a' && "ab"[1..] == "b" && [] + ['a'] == "a";
    assert ReplaceFrom(W, S, [], "ab") == ReplaceFrom(W, S, "a", "b");
    assert "b"[0] == 'b' && "b"[1..] == [] && "a" + ['b'] == "ab";
    assert "ab"[..|"ab"| - |"ab"|] == [] && [] + S("ab") + [] == S("ab");
  }

  // ---------------------------------------------------------------- a keyword inside another

  /** Two keywords, the second inside the first. */
  const Nested: set<string> := {"abc", "b"}

  /** The nodes the scan of "ab" passes through. */
  lemma NestedTrie()
    ensures [] !in Nested && "a" !in Nested && "ab" !in Nested && "b" in Nested
    ensures LongestTrieSuffix(Nested, "a") == "a" && LongestTrieSuffix(Nested, "ab") == "ab"
  {
    assert "abc" in Nested;
    assert "a" <= "abc" && "ab" <= "abc";
  }

  /** containKeyWord with the keywords abc and b on "ab": the scan reaches a, then ab, and neither
      node holds a result, so the answer is false although b occurs in the text, and replace leaves
      the text as it is. The presence test with propagated results does find b. */
  lemma ContainMissesInnerKeyword()
    ensures "ab"[1..2] in Nested
    ensures !Detects(Nested, "ab")
    ensures ReplaceFrom(Nested, Mask, [], "ab") == "ab"
    ensures DetectsPropagated(Nested, "ab")
  {
    NestedTrie();
    assert "ab"[1..2] == "b";
    NestedMisses(Nested);
    ReplaceWithoutDetection(Nested, Mask, "ab");
    PropagatedDetectionIsComplete(Nested, "ab");
  }

  /** The scan of "ab" over any keyword set in which a and ab are nodes but not keywords. */
  lemma NestedMisses(W: set<string>)
    requires "a" !in W && "ab" !in W
    requires LongestTrieSuffix(W, "a") == "a" && LongestTrieSuffix(W, "ab") == "ab"
    ensures !Detects(W, "ab")
  {
    assert "ab"[..1] == "a" && "ab"[..2] == "ab";
  }

  // ---------------------------------------------------------------- a keyword and its extension

  /** A keyword and a longer keyword that starts with it. */
  const Prefixed: set<string> := {"ab", "abc"}

  /** The nodes of the trie of ab and abc, and the texts around them that are not nodes. */
  lemma PrefixedNodes()
    ensures [] !in Prefixed && "a" !in Prefixed && "ab" in Prefixed && "abc" in Prefixed
    ensures InTrie(Prefixed, "a") && InTrie(Prefixed, "ab") && InTrie(Prefixed, "abc")
    ensures !InTrie(Prefixed, "x") && !InTrie(Prefixed, "xa") && !InTrie(Prefixed, "xab")
    ensures !InTrie(Prefixed, "c") && !InTrie(Prefixed, "cx") && !InTrie(Prefixed, "bcx")
    ensures !InTrie(Prefixed, "abcx")
  {
    assert "a" <= "abc" && "ab" <= "abc" && "abc" <= "abc";
    forall k | k in Prefixed
      ensures !("x" <= k) && !("xa" <= k) && !("xab" <= k) && !("c" <= k) && !("cx" <= k)
      ensures !("bcx" <= k) && !("abcx" <= k)
    {
      assert k == "ab" || k == "abc";
      assert k[0] == 'a' && |k| <= 3;
      FirstCharDiffers("x", k);
      FirstCharDiffers("xa", k);
      FirstCharDiffers("xab", k);
      FirstCharDiffers("c", k);
      FirstCharDiffers("cx", k);
      FirstCharDiffers("bcx", k);
    }
  }

  /** The states the two scans of "xabcx" reach. */
  lemma PrefixedTrie()
    ensures [] !in Prefixed && "a" !in Prefixed && "ab" in Prefixed && "abc" in Prefixed
    ensures LongestTrieSuffix(Prefixed, "x") == [] && LongestTrieSuffix(Prefixed, "a") == "a"
    ensures LongestTrieSuffix(Prefixed, "ab") == "ab" && LongestTrieSuffix(Prefixed, "abc") == "abc"
    ensures LongestTrieSuffix(Prefixed, "abcx") == []
    ensures LongestTrieSuffix(Prefixed, "xa") == "a" && LongestTrieSuffix(Prefixed, "xab") == "ab"
    ensures LongestTrieSuffix(Prefixed, "c") == [] && LongestTrieSuffix(Prefixed, "cx") == []
  {
    PrefixedNodes();
    assert "x"[1..] == [] && "xa"[1..] == "a" && "xab"[1..] == "ab" && "c"[1..] == [];
    assert "cx"[1..] == "x" && "abcx"[1..] == "bcx" && "bcx"[1..] == "cx";
  }

  /** replaceOld with the keywords ab and abc on "xabcx": ab is held back, abc replaces it as the
      longer match, and the x that follows writes abc out, giving "x*x". */
  lemma ReplaceOldPrefersLongest()
    ensures LegacyFrom(Prefixed, Mask, {}, [], [], None, 0, "xabcx") == Success("x*x")
  {
    PrefixedTrie();
    LegacyOnPrefixedHold(Prefixed, Mask, {});
    LegacyOnPrefixedFlush(Prefixed, Mask, {});
    assert Mask("abc") == "*";
    assert "x" + "*" == "x*" && "x*" + ['x'] == "x*x";
  }

  /** The run of replaceOld above, up to the match of ab. */
  lemma LegacyOnPrefixedHold(W: set<string>, S: string -> string, skip: set<char>)
    requires skip == {} && [] !in W && "a" !in W && "ab" in W
    requires LongestTrieSuffix(W, "x") == [] && LongestTrieSuffix(W, "a") == "a"
    requires LongestTrieSuffix(W, "ab") == "ab"
    ensures LegacyFrom(W, S, skip, [], [], None, 0, "xabcx") == LegacyFrom(W, S, skip, "ab", "xa", Some("ab"), 1, "cx")
  {
    assert "xabcx"[0] == 'x' && "xabcx"[1..] == "abcx" && [] + ['x'] == "x";
    assert LegacyFrom(W, S, skip, [], [], None, 0, "xabcx") == LegacyFrom(W, S, skip, [], "x", None, 0, "abcx");
    assert "abcx"[0] == 'a' && "abcx"[1..] == "bcx" && [] + ['a'] == "a" && "x" + ['a'] == "xa";
    assert LegacyFrom(W, S, skip, [], "x", None, 0, "abcx") == LegacyFrom(W, S, skip, "a", "xa", None, 0, "bcx");
    assert "bcx"[0] == 'b' && "bcx"[1..] == "cx" && "a" + ['b'] == "ab";
  }

  /** The run of replaceOld above, from the match of ab to the end. */
  lemma LegacyOnPrefixedFlush(W: set<string>, S: string -> string, skip: set<char>)
    requires skip == {} && "abc" in W
    requires LongestTrieSuffix(W, "abc") == "abc" && LongestTrieSuffix(W, "abcx") == [] && [] !in W
    ensures LegacyFrom(W, S, skip, "ab", "xa", Some("ab"), 1, "cx") == Success("x" + S("abc") + ['x'])
  {
    assert "cx"[0] == 'c' && "cx"[1..] == "x" && "ab" + ['c'] == "abc";
    assert LegacyFrom(W, S, skip, "ab", "xa", Some("ab"), 1, "cx") == LegacyFrom(W, S, skip, "abc", "xa", Some("abc"), 2, "x");
    assert "x"[0] == 'x' && "x"[1..] == [] && "abc" + ['x'] == "abcx";
    assert "xa"[..1] == "x";
    assert SetLength("xa", 1) == Success("x");
  }

  /** replace on the same input replaces ab as soon as it is read and restarts at the root, so the c
      of abc is copied: "x*cx". */
  lemma ReplacePrefersShortest()
    ensures ReplaceFrom(Prefixed, Mask, [], "xabcx") == "x*cx"
  {
    PrefixedTrie();
    ReplaceOnPrefixed(Prefixed, Mask);
    assert Mask("ab") == "*";
    assert "x" + "*" == "x*" && "x*" + "cx" == "x*cx";
  }

  /** The run of replace above, over any keyword set that the text sees as it sees ab and abc. */
  lemma ReplaceOnPrefixed(W: set<string>, S: string -> string)
    requires [] !in W && "ab" in W
    requires LongestTrieSuffix(W, "x") == [] && LongestTrieSuffix(W, "xa") == "a" && "a" !in W
    requires LongestTrieSuffix(W, "xab") == "ab"
    requires LongestTrieSuffix(W, "c") == [] && LongestTrieSuffix(W, "cx") == []
    ensures ReplaceFrom(W, S, [], "xabcx") == "x" + S("ab") + "cx"
  {
    ReplacePrefixedHead(W, S);
    assert "cx"[0] == 'c' && "cx"[1..] == "x" && [] + ['c'] == "c";
    assert ReplaceFrom(W, S, [], "cx") == ReplaceFrom(W, S, "c", "x");
    assert "x"[0] == 'x' && "x"[1..] == [] && "c" + ['x'] == "cx";
  }

  /** ReplaceOnPrefixed, up to the match of ab. */
  lemma ReplacePrefixedHead(W: set<string>, S: string -> string)
    requires [] !in W && "ab" in W
    requires LongestTrieSuffix(W, "x") == [] && LongestTrieSuffix(W, "xa") == "a" && "a" !in W
    requires LongestTrieSuffix(W, "xab") == "ab"
    ensures ReplaceFrom(W, S, [], "xabcx") == "x" + S("ab") + ReplaceFrom(W, S, [], "cx")
  {
    assert "xabcx"[0] == 'x' && "xabcx"[1..] == "abcx" && [] + ['x'] == "x";
    assert ReplaceFrom(W, S, [], "xabcx") == ReplaceFrom(W, S, "x", "abcx");
    assert "abcx"[0] == 'a' && "abcx"[1..] == "bcx" && "x" + ['a'] == "xa";
    assert ReplaceFrom(W, S, "x", "abcx") == ReplaceFrom(W, S, "xa", "bcx");
    assert "bcx"[0] == 'b' && "bcx"[1..] == "cx" && "xa" + ['b'] == "xab";
    assert "xab"[..|"xab"| - |"ab"|] == "x";
  }
}
