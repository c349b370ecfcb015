# Aho-Corasick keyword automaton (TrieTree / TrieNode), modelled in Dafny

The repository filters banned words with an Aho-Corasick automaton. `TrieTree` works in two phases:

- **Build.** `add(keyword)` grows a character trie of `TrieNode`s along the keyword and records the keyword at the node where it ends. `compile()` then runs `buildFailPath()`, a breadth-first pass that gives every node but the root a failure link.
- **Query.** Three scans read a text character by character. Characters in `skipChars` are dropped. The others drive the goto-plus-failure transition:
  - `containKeyWord` asks whether some step reaches a node holding a keyword.
  - `replace` replaces each completed keyword as soon as it is seen, then restarts at the root.
  - `replaceOld` is the older replacement. It holds a completed keyword back, counting the keywords reached since then.

This project models those two classes and proves what they compute.

- **Nodes** (`TrieNode.dfy`): a node is a record `Node(children, fail, results)`. `get`, `put`, `keys`, `getFail`/`setFail` and `addResult`/`getResults` are functions or a method over that record.
- **Tree** (`TrieTree.dfy`): `TrieTree` is a class whose fields are updated in place:
  - the node arena `nodes: seq<Node>`, with the root at index 0;
  - `compiled` and `skipChars`.

  Children and failure links are indices into the arena. Three ghost fields say what the arena means: the path of every node, the node of every path, and the keywords added so far.
- **Specifications** (`Matching.dfy`): everything is stated over strings and the keyword set W alone.
  - The trie nodes are the prefixes of the keywords.
  - The automaton's state after a text is the longest suffix of that text that is a trie node.
  - Each scan is a function of W, the strategy and the skip-filtered text.
- **Failure links** (`TrieShape.dfy`, `FailLinks.dfy`):
  - `TrieShape.dfy` states the arena invariants.
  - `FailLinks.dfy` holds the breadth-first pass as loops over the arena, with its queue invariant.
- **Scans** (`Automaton.dfy`): the transition and the three scan loops. Each is proved equal to its specification.
- **Concrete runs** (`Scenarios.dfy`): inputs that exhibit the defects listed under Findings, and an input on which `replace` and `replaceOld` choose different matches.

Java `null` arguments are `Option` values, and exceptions are `Result`/`Outcome` values carrying an `Error`. `ReplaceStrategy` is a plain function `string -> string`.

## Model

| member | source | states |
|---|---|---|
| TrieNode.NewNode | ubb.trie/TrieNode.java:29-31 | a new node has no children, no failure link and no results |
| TrieNode.Get | ubb.trie/TrieNode.java:58-60 | get(key) finds a child exactly when key is one of the node's keys; it is a pure lookup |
| TrieNode.Put | ubb.trie/TrieNode.java:62-64 | after put(key, v), get(key) is v, every other key's child is unchanged, the key set gains key, failure link and results are untouched |
| TrieNode.Keys | ubb.trie/TrieNode.java:66-74 | keys() has length children.size(), holds exactly the child keys, each once |
| TrieNode.SetFail | ubb.trie/TrieNode.java:76-82 | getFail() after setFail(f) is f; children and results are untouched |
| TrieNode.AddResult | ubb.trie/TrieNode.java:84-90 | addResult is set insertion into getResults(); children and failure link are untouched |
| TrieNode.AddResultIdempotent | ubb.trie/TrieNode.java:27 | adding the same keyword twice leaves the node as adding it once |
| TrieTree.TrieTree.constructor | ubb.trie/TrieTree.java:33-41 | a new tree is a lone root, not compiled, with no skip characters and no keywords, and satisfies the invariant |
| TrieTree.TrieTree.TouchChild | ubb.trie/TrieNode.java:47-56 | an existing child is returned with the arena unchanged; otherwise exactly one fresh node is appended and entered as the child for ch; the result's path is the node's path plus ch |
| TrieTree.TrieTree.Extend | ubb.trie/TrieNode.java:36-42 | the node reached has path from's path + chars; every prefix of chars below from is now a path; the paths added are exactly those prefixes; no existing failure link or result changes |
| TrieTree.TrieTree.Insert | ubb.trie/TrieTree.java:56-57 | the keyword joins the keyword set, is recorded at the node of its path, and no other existing node's results change; no existing failure link changes; the trie still spells exactly the keywords |
| TrieTree.TrieTree.Add | ubb.trie/TrieTree.java:49-58 | a null or blank (after trim) keyword fails with IllegalArgument, any keyword after compile fails with IllegalState, both with the tree unchanged; otherwise as Insert (existing failure links and other results kept), the keyword recorded untrimmed |
| Text.BlankIffControlOrSpace | ubb.trie/TrieTree.java:50 | keyword.trim().isEmpty() holds exactly when every character is at most U+0020 |
| Text.TrimStart | ubb.trie/TrieTree.java:50 | the leading part of trim(): a suffix of the input, starting above U+0020, having dropped only characters at most U+0020 |
| Text.TrimEnd | ubb.trie/TrieTree.java:50 | the trailing part of trim(): a prefix of the input, ending above U+0020, having dropped only characters at most U+0020 |
| TrieTree.TrieTree.AddSkipChar | ubb.trie/TrieTree.java:60-62 | the character joins skipChars; nothing else changes |
| TrieTree.TrieTree.AddSkipChars | ubb.trie/TrieTree.java:64-68 | a null collection changes nothing; otherwise all its characters join skipChars |
| TrieTree.TrieTree.BuildFailPath | ubb.trie/TrieTree.java:226-258 | afterwards every non-root node is linked to the node of the longest proper suffix of its path in the trie; children, results and the trie's meaning are unchanged |
| TrieTree.TrieTree.Compile | ubb.trie/TrieTree.java:73-76 | compile builds the failure links and sets compiled; the invariant then includes "all linked" |
| FailLinks.LinkAll | ubb.trie/TrieTree.java:226-258 | the breadth-first pass over a copy of the arena links every non-root node and changes only failure links |
| FailLinks.LinkRootChildren | ubb.trie/TrieTree.java:229-233 | every child of the root is linked to the root and enqueued, in keys() order |
| FailLinks.LinkChildren | ubb.trie/TrieTree.java:236-256 | visiting h links every child of h and enqueues them in keys() order; nodes already linked stay linked |
| FailLinks.LinkChild | ubb.trie/TrieTree.java:239-254 | the child of h for ch gets its failure link; everything linked before stays linked |
| FailLinks.FailOf | ubb.trie/TrieTree.java:245-254 | the walk along failure links from h's link ends at the node of the longest proper suffix of the child's path that is in the trie (the root when the walk runs off the root) |
| FailLinks.FrontierStep | ubb.trie/TrieTree.java:235-243 | popping the queue head and appending its children keeps the queue invariant: non-root nodes, each once, ordered by depth over at most two levels, parents visited, all children of visited nodes reached |
| FailLinks.FrontierCovers | ubb.trie/TrieTree.java:235-257 | every node not yet reached is strictly deeper than the queue head, so when the queue empties every node has been visited |
| FailLinks.ShallowLinked | ubb.trie/TrieTree.java:245-248 | when h is popped, every node no deeper than h is already linked, so the failure walk from h only reads finished links |
| FailLinks.Relink | ubb.trie/TrieTree.java:250-252 | setting one node's failure link to its target links that node and disturbs no other |
| TrieShape.AddKeyword | ubb.trie/TrieTree.java:56-57 | growing the trie along k and recording k at its node makes the arena spell W + {k}: paths are exactly the prefixes of the keywords, and each node's results are its own path if that is a keyword, else empty |
| TrieShape.InTrieAdd | ubb.trie/TrieNode.java:36-42 | adding k to the keywords adds exactly the prefixes of k to the trie |
| TrieShape.SpellsSameTrie | ubb.trie/TrieTree.java:226-258 | changing only failure links keeps the arena spelling the same keywords |
| Automaton.RootChildFailsToRoot | ubb.trie/TrieTree.java:229-233 | in a compiled tree every child of the root fails to the root |
| Automaton.FailIsShallower | ubb.trie/TrieTree.java:235-257 | in a compiled tree every non-root node has a failure link, to a strictly shallower node whose path is a suffix of its own |
| Automaton.NodeResults | ubb.trie/TrieTree.java:112-113 | a node holds results exactly when its path is a keyword, and then only that keyword; results are not propagated along failure links |
| Automaton.Step | ubb.trie/TrieTree.java:199-208 | the transition never yields null and reaches the node of the longest suffix of (state path + ch) in the trie |
| Matching.LongestTrieSuffixStep | ubb.trie/TrieTree.java:199-208 | the longest trie suffix of v + c is the longest trie suffix of (longest trie suffix of v) + c, the fact that makes the transition correct |
| Matching.LongestTrieSuffixIsSuffix | ubb.trie/TrieTree.java:199-208 | the automaton state is a suffix of the text read |
| Matching.LongestTrieSuffixIsLongest | ubb.trie/TrieTree.java:199-208 | no longer suffix of the text read is a trie node |
| Matching.MissFollowsFailure | ubb.trie/TrieTree.java:102-107 | a node without a child for c makes the same transition as its failure target |
| Matching.FailureIsShallower | ubb.trie/TrieTree.java:245-248 | a failure target is strictly shorter than the node's path |
| Automaton.Contains | ubb.trie/TrieTree.java:190-214 | the scan returns true iff some transition over the skip-filtered text lands on a node holding a keyword |
| TrieTree.TrieTree.ContainKeyWord | ubb.trie/TrieTree.java:187-215 | a null text fails with NullPointer; otherwise the answer is Detects(keywords, filtered text) |
| Matching.DetectsSnoc | ubb.trie/TrieTree.java:209-211 | one more character is detected exactly when the text before it was, or the state reached is a keyword |
| Matching.DetectionIsOccurrence | ubb.trie/TrieTree.java:187-215 | whatever containKeyWord detects is a real occurrence of a keyword in the filtered text |
| Matching.DetectsIsPropagated | ubb.trie/TrieTree.java:209-211 | every detection of the scan as written is also a detection of the test with results propagated along failure links |
| Matching.PropagatedDetectionIsComplete | ubb.trie/TrieTree.java:253 | if each node also held the results of its failure target (which no line of the source does), the presence test would hold exactly when some keyword occurs in the text |
| Automaton.ReplaceScan | ubb.trie/TrieTree.java:146-178 | the loop's output is the replace specification of the skip-filtered text |
| Automaton.ReplaceStep | ubb.trie/TrieTree.java:157-175 | one non-skip character: the output stays "text before the last restart + characters since", and the rest of the run is unchanged |
| Automaton.ReplaceKeyword | ubb.trie/TrieTree.java:170-171 | cutting the keyword m, less its last character, from the output and appending s(m) yields the output of the scan up to this character |
| Matching.ReplaceCut | ubb.trie/TrieTree.java:170 | in replace, setLength never receives a negative length and only shortens the output |
| TrieTree.TrieTree.Replace | ubb.trie/TrieTree.java:142-179 | a null text or strategy fails with NullPointer; otherwise the output is ReplaceFrom over the skip-filtered text |
| Matching.ReplaceWithoutDetection | ubb.trie/TrieTree.java:152-176 | if no transition reaches a keyword node, replace returns the text with skip characters removed |
| Matching.ReplaceFromAvoids | ubb.trie/TrieTree.java:152-176 | skip characters never appear in replace's output unless a replacement introduces them |
| Automaton.ReplaceOldScan | ubb.trie/TrieTree.java:89-132 | the loop's result is the replaceOld specification over the raw text, including the StringIndexOutOfBounds failure of setLength |
| TrieTree.TrieTree.ReplaceOld | ubb.trie/TrieTree.java:85-133 | a null text or strategy fails with NullPointer; otherwise the result is LegacyFrom over the raw text |
| Matching.LegacyWithoutDetection | ubb.trie/TrieTree.java:97-130 | if no transition reaches a keyword node, replaceOld returns the filtered text, as replace does |
| Text.SetLength | ubb.trie/TrieTree.java:117 | StringBuilder.setLength fails on a negative length, truncates to a shorter one, pads with U+0000 to a longer one |
| Text.Filter | ubb.trie/TrieTree.java:99-101 | the skip filter keeps no skip character and never lengthens the text |
| Text.FilterAppend | ubb.trie/TrieTree.java:99-101 | filtering distributes over concatenation |
| Scenarios.ReplaceOldOverlapFails | ubb.trie/TrieTree.java:116-122 | replaceOld with keywords ab, bcd on "abcd" fails with StringIndexOutOfBounds(-1) |
| Scenarios.ReplaceOverlapSucceeds | ubb.trie/TrieTree.java:167-172 | replace on the same input yields "cd" |
| Scenarios.ReplaceOldRepeatPads | ubb.trie/TrieTree.java:112-119 | replaceOld with keyword a on "aaa" yields two U+0000 characters and one mask |
| Scenarios.ReplaceRepeatMasks | ubb.trie/TrieTree.java:167-172 | replace on the same input masks every a |
| Scenarios.ReplaceOldTrailingSkipLoses | ubb.trie/TrieTree.java:116 | replaceOld with keyword ab and skip ',' masks "ab" but turns "ab," into "a" |
| Scenarios.ReplaceTrailingSkipMasks | ubb.trie/TrieTree.java:152-176 | replace masks ab in both texts |
| Scenarios.ContainMissesInnerKeyword | ubb.trie/TrieTree.java:199-211 | with keywords abc and b, containKeyWord on "ab" is false and replace returns "ab", although b occurs; the propagated test finds it |
| Scenarios.ReplaceOldPrefersLongest | ubb.trie/TrieTree.java:112-126 | replaceOld with keywords ab and abc on "xabcx" yields "x*x": the longer match wins |
| Scenarios.ReplacePrefersShortest | ubb.trie/TrieTree.java:167-174 | replace on the same input yields "x*cx": ab is replaced at once and the c is copied |

## Findings

| source | as written | input that shows it | evidently intended | confidence | as-written member | corrected member |
|---|---|---|---|---|---|---|
| ubb.trie/TrieTree.java:116-122 | the pending keyword is cut with `setLength(length - (preKeyword.length() - cnt))`, where cnt is the number of keyword nodes reached since the last flush, not the number of its characters held back | keywords ab and bcd, a strategy returning "", text "abcd": ab is flushed at c, then bcd asks for length -1 and StringIndexOutOfBoundsException is thrown | no exception; `replace`, which line 79 recommends, gives "cd" | not executed | Scenarios.ReplaceOldOverlapFails | Matching.ReplaceCut |
| ubb.trie/TrieTree.java:112-119 | each repeated match of the same pending keyword increments cnt, so the cut length grows past the output | keyword a, a strategy returning "*", text "aaa": the output is two U+0000 characters followed by one "*" | every a masked: "***" | not executed | Scenarios.ReplaceOldRepeatPads | Scenarios.ReplaceRepeatMasks |
| ubb.trie/TrieTree.java:116 | the pending keyword is written out at the end only when `i` is the raw text's last index, so trailing skip characters lose it | keyword ab, skip character ',', a strategy returning "*", text "ab,": the output is "a" (for "ab" it is "*") | "*" for both texts | not executed | Scenarios.ReplaceOldTrailingSkipLoses | Scenarios.ReplaceTrailingSkipMasks |
| ubb.trie/TrieTree.java:253 | no line passes results along failure links, so a step only sees the keyword that is the node's own path, not a shorter keyword ending at the same character; the textbook line would be `child.getResults().addAll(r.get(ch).getResults())`, but the commented-out line 253 names `r` instead of `child`, so it would copy the results into the node on the failure walk and uncommenting it would not close the gap | keywords abc and b, text "ab": the scan reaches a, then ab, neither holding a result, so containKeyWord returns false and replace returns "ab", although b occurs | containKeyWord true exactly when some keyword occurs in the skip-filtered text | not executed | Scenarios.ContainMissesInnerKeyword | Matching.PropagatedDetectionIsComplete |

`replaceOld` stays modelled as written: `TrieTree.ReplaceOld` equals `Matching.LegacyFrom`, because it is an operation of the source.

For the three `replaceOld` rows, the corrected behaviour is the source's own `replace`.

- `Automaton.ReplaceScan` proves that `replace` equals `Matching.ReplaceFrom` over the skip-filtered text, so trailing skip characters cannot change its result.
- `Matching.ReplaceCut` proves that `replace` never passes `setLength` a negative length and never pads.

The last row is a gap in both `containKeyWord` and `replace`. `Matching.DetectionIsOccurrence` proves the scan sound, but it is not complete. `Matching.PropagatedDetectionIsComplete` proves that propagating results along failure links would make the test complete. The scans stay modelled as written: `Automaton.Contains` and `Automaton.ReplaceScan` do not propagate.

## Left out

- `TrieService.java` (Spring wiring, timer refresh, synchronized swap, external word supplier, logging), `Test.java` (a printing driver) and `TrieTree.trace` (printing to stdout) are I/O and concurrency. `getRoot()` is a plain accessor; the root is arena index 0.
- `ReplaceStrategy` is a function parameter. A strategy that returns null, or that has side effects, is not modelled.
- Object identity and aliasing: nodes are records in an arena and are replaced rather than mutated. `buildFailPath` runs on a copy of the arena that is written back at the end; the final state is the same.
- Iteration order of `LinkedHashMap.keySet()`: `TrieNode.Keys` returns the keys in some order. The failure-link proofs hold for every order.
- `HashSet.iterator().next()`: modelled as an arbitrary choice from the result set. `Automaton.NodeResults` shows that the set has at most one element.
- Null elements inside the skip-character collection are not modelled; the collection is a `seq<char>`.
- The 32-bit wrap-around of `cnt` in `replaceOld` is not modelled: cnt is an unbounded integer. It would need more than 2^31 matches.
- The exception messages of `checkNotNull` and `add` are abstracted to the parameter name, or to the exception kind alone.
- TrieTree.TrieTree.ContainKeyWord, TrieTree.TrieTree.Replace and TrieTree.TrieTree.ReplaceOld require a compiled tree. Before `compile()` the source throws a NullPointerException as soon as a transition misses below the root, because failure links are still null. That path is not modelled.
- Automaton.Contains, Automaton.ReplaceScan and Automaton.ReplaceOldScan likewise require a compiled automaton.
- Java `char` is a UTF-16 code unit and Dafny `char` a Unicode scalar. Matching is exact and case-sensitive in both, and nothing here depends on surrogates.
