/** The breadth-first construction of the failure links: the invariant of its work queue, and the
    walk that finds the failure target of one child. */
module FailLinks {
  import opened Wrappers
  import opened TrieNode
  import opened Matching
  import opened TrieShape

  /** Node n has been visited, or waits in the queue. */
  ghost predicate Reached(n: nat, queue: seq<nat>, done: set<nat>) {
    n in done || n in queue
  }

  /** The state of the breadth-first traversal of arena tr, with queue still to visit and done
      visited. */
  ghost predicate Frontier(tr: seq<Node>, ps: seq<string>, ix: map<string, nat>, queue: seq<nat>, done: set<nat>) {
    && 0 < |tr| == |ps|
    && QueueHolds(|tr|, queue, done)
    && DepthOrdered(ps, queue, done)
    && ParentsVisited(ps, ix, queue, done)
    && ChildrenReached(tr, queue, done)
  }

  /** Queue and visited set hold non-root nodes of an arena of the given size; the queue holds each
      node once and none that is visited. */
  ghost predicate QueueHolds(size: nat, queue: seq<nat>, done: set<nat>) {
    && (forall a :: 0 <= a < |queue| ==> 0 < queue[a] < size)
    && (forall n :: n in done ==> 0 < n < size)
    && (forall a, b :: 0 <= a < b < |queue| ==> queue[a] != queue[b])
    && (forall a :: 0 <= a < |queue| ==> queue[a] !in done)
  }

  /** The queue is ordered by depth and spans at most two consecutive depths, and nothing visited is
      deeper than its head. */
  ghost predicate DepthOrdered(ps: seq<string>, queue: seq<nat>, done: set<nat>) {
    && (forall a :: 0 <= a < |queue| ==> queue[a] < |ps|)
    && (forall n :: n in done ==> n < |ps|)
    && (forall a, b :: 0 <= a <= b < |queue| ==> |ps[queue[a]]| <= |ps[queue[b]]|)
    && (forall a :: 0 <= a < |queue| ==> |ps[queue[a]]| <= |ps[queue[0]]| + 1)
    && (forall n :: n in done && queue != [] ==> |ps[n]| <= |ps[queue[0]]|)
  }

  /** The parent of every queued node below depth one has been visited. */
  ghost predicate ParentsVisited(ps: seq<string>, ix: map<string, nat>, queue: seq<nat>, done: set<nat>) {
    forall a :: 0 <= a < |queue| && queue[a] < |ps| && |ps[queue[a]]| >= 2 ==>
      Parent(ps[queue[a]]) in ix && ix[Parent(ps[queue[a]])] in done
  }

  /** The root's children and the children of every visited node have been reached. */
  ghost predicate ChildrenReached(tr: seq<Node>, queue: seq<nat>, done: set<nat>) {
    && 0 < |tr|
    && (forall c :: c in tr[Root].children ==> Reached(tr[Root].children[c], queue, done))
    && (forall n, c :: n in done && n < |tr| && c in tr[n].children ==> Reached(tr[n].children[c], queue, done))
  }

  /** ks lists the characters of node h's children, each once, and kids the children in that order. */
  ghost predicate ChildrenListed(tr: seq<Node>, h: nat, ks: seq<char>, kids: seq<nat>)
    requires h < |tr|
  {
    && |kids| == |ks|
    && (forall c :: c in tr[h].children <==> c in ks)
    && (forall a, b :: 0 <= a < b < |ks| ==> ks[a] != ks[b])
    && (forall a :: 0 <= a < |ks| ==> ks[a] in tr[h].children && kids[a] == tr[h].children[ks[a]])
  }

  /** Children listed for distinct characters are distinct nodes, one level below their parent. */
  lemma ListedChildren(tr: seq<Node>, ps: seq<string>, ix: map<string, nat>, h: nat, ks: seq<char>, kids: seq<nat>)
    requires TreeShape(tr, ps, ix) && h < |tr| && ChildrenListed(tr, h, ks, kids)
    ensures forall a :: 0 <= a < |kids| ==> 0 < kids[a] < |tr| && ps[kids[a]] == ps[h] + [ks[a]]
    ensures forall a, b :: 0 <= a < b < |kids| ==> kids[a] != kids[b]
  {
    forall a | 0 <= a < |kids| ensures 0 < kids[a] < |tr| && ps[kids[a]] == ps[h] + [ks[a]] {
      ChildPath(tr, ps, ix, h, ks[a]);
    }
    forall a, b | 0 <= a < b < |kids| ensures kids[a] != kids[b] {
      assert (ps[h] + [ks[a]])[|ps[h]|] == ks[a];
      assert (ps[h] + [ks[b]])[|ps[h]|] == ks[b];
    }
  }

  /** The queue right after the root's children have been enqueued. */
  lemma FrontierStart(tr: seq<Node>, ps: seq<string>, ix: map<string, nat>, ks: seq<char>, kids: seq<nat>)
    requires TreeShape(tr, ps, ix) && ChildrenListed(tr, Root, ks, kids)
    ensures Frontier(tr, ps, ix, kids, {})
  {
    ListedChildren(tr, ps, ix, Root, ks, kids);
    forall c | c in tr[Root].children ensures Reached(tr[Root].children[c], kids, {}) {
      var a :| 0 <= a < |ks| && ks[a] == c;
      assert kids[a] == tr[Root].children[c];
    }
  }

  /** Visiting the head h of the queue: h is done and its children join the end of the queue. */
  lemma FrontierStep(tr: seq<Node>, ps: seq<string>, ix: map<string, nat>, queue: seq<nat>, done: set<nat>,
                     ks: seq<char>, kids: seq<nat>)
    requires TreeShape(tr, ps, ix) && Frontier(tr, ps, ix, queue, done) && queue != []
    requires ChildrenListed(tr, queue[0], ks, kids)
    ensures Frontier(tr, ps, ix, queue[1..] + kids, done + {queue[0]})
  {
    ListedKids(tr, ps, ix, queue[0], ks, kids);
    FrontierAdvance(tr, ps, ix, queue, done, ks, kids);
  }

  /** The children of a non-root node h: distinct non-root nodes one level below h, whose parent path
      leads back to h. */
  lemma ListedKids(tr: seq<Node>, ps: seq<string>, ix: map<string, nat>, h: nat, ks: seq<char>, kids: seq<nat>)
    requires TreeShape(tr, ps, ix) && 0 < h < |tr| && ChildrenListed(tr, h, ks, kids)
    ensures ps[h] != []
    ensures forall a :: 0 <= a < |kids| ==> 0 < kids[a] < |tr| && |ps[kids[a]]| == |ps[h]| + 1
    ensures forall a :: 0 <= a < |kids| ==> Parent(ps[kids[a]]) in ix && ix[Parent(ps[kids[a]])] == h
    ensures forall a, b :: 0 <= a < b < |kids| ==> kids[a] != kids[b]
  {
    ListedChildren(tr, ps, ix, h, ks, kids);
    NonRootPath(tr, ps, ix, h);
    forall a | 0 <= a < |kids| ensures Parent(ps[kids[a]]) in ix && ix[Parent(ps[kids[a]])] == h {
      assert Parent(ps[kids[a]]) == ps[h];
    }
  }

  /** FrontierStep, on the facts about h's children alone. */
  lemma FrontierAdvance(tr: seq<Node>, ps: seq<string>, ix: map<string, nat>, queue: seq<nat>, done: set<nat>,
                        ks: seq<char>, kids: seq<nat>)
    requires Frontier(tr, ps, ix, queue, done) && queue != [] && ps[queue[0]] != []
    requires ChildrenListed(tr, queue[0], ks, kids)
    requires forall a :: 0 <= a < |kids| ==> 0 < kids[a] < |tr| && |ps[kids[a]]| == |ps[queue[0]]| + 1
    requires forall a :: 0 <= a < |kids| ==> Parent(ps[kids[a]]) in ix && ix[Parent(ps[kids[a]])] == queue[0]
    requires forall a, b :: 0 <= a < b < |kids| ==> kids[a] != kids[b]
    ensures Frontier(tr, ps, ix, queue[1..] + kids, done + {queue[0]})
  {
    FrontierStepQueue(tr, ps, ix, queue, done, kids);
    FrontierStepOrder(tr, ps, ix, queue, done, kids, queue[1..] + kids);
    FrontierStepParents(tr, ps, ix, queue, done, kids, queue[1..] + kids);
    FrontierStepReach(tr, ps, ix, queue, done, ks, kids);
  }

  /** FrontierStep: the new queue holds non-root nodes, each once, none of them visited. */
  lemma FrontierStepQueue(tr: seq<Node>, ps: seq<string>, ix: map<string, nat>, queue: seq<nat>, done: set<nat>,
                          kids: seq<nat>)
    requires Frontier(tr, ps, ix, queue, done) && queue != [] && ps[queue[0]] != []
    requires forall a :: 0 <= a < |kids| ==> 0 < kids[a] < |tr| && |ps[kids[a]]| == |ps[queue[0]]| + 1
    requires forall a :: 0 <= a < |kids| ==> Parent(ps[kids[a]]) in ix && ix[Parent(ps[kids[a]])] == queue[0]
    requires forall a, b :: 0 <= a < b < |kids| ==> kids[a] != kids[b]
    ensures QueueHolds(|tr|, queue[1..] + kids, done + {queue[0]})
  {
    var q := queue[1..] + kids;
    var m := |queue| - 1;
    assert forall a :: 0 <= a < m ==> q[a] == queue[a + 1];
    assert forall a :: m <= a < |q| ==> q[a] == kids[a - m];
    forall a, b | 0 <= a < b < |q| ensures q[a] != q[b] {
      if a < m && m <= b {
        QueuedIsNotKid(tr, ps, ix, queue, done, kids, a + 1, b - m);
      }
    }
  }

  /** A node still queued behind the head is not one of the head's children: a child's parent is the
      head, which is not yet visited, while every queued node deeper than one has a visited parent. */
  lemma QueuedIsNotKid(tr: seq<Node>, ps: seq<string>, ix: map<string, nat>, queue: seq<nat>, done: set<nat>,
                       kids: seq<nat>, a: nat, b: nat)
    requires Frontier(tr, ps, ix, queue, done) && queue != [] && ps[queue[0]] != []
    requires 0 < a < |queue| && b < |kids|
    requires 0 < kids[b] < |tr| && |ps[kids[b]]| == |ps[queue[0]]| + 1
    requires Parent(ps[kids[b]]) in ix && ix[Parent(ps[kids[b]])] == queue[0]
    ensures queue[a] != kids[b]
  {
    assert |ps[kids[b]]| >= 2;
  }

  /** FrontierStep: the new queue q is ordered by depth and spans at most two consecutive depths, and
      nothing visited is deeper than its head. */
  lemma FrontierStepOrder(tr: seq<Node>, ps: seq<string>, ix: map<string, nat>, queue: seq<nat>, done: set<nat>,
                          kids: seq<nat>, q: seq<nat>)
    requires Frontier(tr, ps, ix, queue, done) && queue != [] && q == queue[1..] + kids
    requires forall a :: 0 <= a < |kids| ==> 0 < kids[a] < |tr| && |ps[kids[a]]| == |ps[queue[0]]| + 1
    ensures DepthOrdered(ps, q, done + {queue[0]})
  {
    var m := |queue| - 1;
    assert forall a :: 0 <= a < m ==> q[a] == queue[a + 1];
    assert forall a :: m <= a < |q| ==> q[a] == kids[a - m];
  }

  /** FrontierStep: the parent of every node in the new queue q below depth one has been visited. */
  lemma FrontierStepParents(tr: seq<Node>, ps: seq<string>, ix: map<string, nat>, queue: seq<nat>, done: set<nat>,
                            kids: seq<nat>, q: seq<nat>)
    requires Frontier(tr, ps, ix, queue, done) && queue != [] && q == queue[1..] + kids
    requires forall a :: 0 <= a < |kids| ==> 0 < kids[a] < |tr| && |ps[kids[a]]| == |ps[queue[0]]| + 1
    requires forall a :: 0 <= a < |kids| ==> Parent(ps[kids[a]]) in ix && ix[Parent(ps[kids[a]])] == queue[0]
    ensures ParentsVisited(ps, ix, q, done + {queue[0]})
  {
    var m := |queue| - 1;
    assert forall a :: 0 <= a < m ==> q[a] == queue[a + 1];
    assert forall a :: m <= a < |q| ==> q[a] == kids[a - m];
  }

  /** FrontierStep: the root's children and the children of every visited node, h included, have
      been reached. */
  lemma FrontierStepReach(tr: seq<Node>, ps: seq<string>, ix: map<string, nat>, queue: seq<nat>, done: set<nat>,
                          ks: seq<char>, kids: seq<nat>)
    requires Frontier(tr, ps, ix, queue, done) && queue != []
    requires ChildrenListed(tr, queue[0], ks, kids)
    ensures ChildrenReached(tr, queue[1..] + kids, done + {queue[0]})
  {
    var h := queue[0];
    var q := queue[1..] + kids;
    var d := done + {h};
    forall n, c | n in d && n < |tr| && c in tr[n].children ensures Reached(tr[n].children[c], q, d) {
      if n == h {
        var a :| 0 <= a < |ks| && ks[a] == c;
        assert q[|queue| - 1 + a] == kids[a];
      } else {
        assert Reached(tr[n].children[c], queue, done);
        if tr[n].children[c] in queue && tr[n].children[c] != h {
          var a :| 0 <= a < |queue| && queue[a] == tr[n].children[c];
          assert q[a - 1] == queue[a];
        }
      }
    }
    forall c | c in tr[Root].children ensures Reached(tr[Root].children[c], q, d) {
      if tr[Root].children[c] in queue && tr[Root].children[c] != h {
        var a :| 0 <= a < |queue| && queue[a] == tr[Root].children[c];
        assert q[a - 1] == queue[a];
      }
    }
  }

  /** Every node the traversal has not reached lies deeper than the head of the queue; in particular,
      once the queue is empty every node but the root has been visited. */
  lemma {:induction false} FrontierCovers(tr: seq<Node>, ps: seq<string>, ix: map<string, nat>,
                                          queue: seq<nat>, done: set<nat>, n: nat)
    requires TreeShape(tr, ps, ix) && Frontier(tr, ps, ix, queue, done)
    requires 0 < n < |tr| && !Reached(n, queue, done)
    ensures queue != [] && |ps[n]| > |ps[queue[0]]|
    decreases |ps[n]|
  {
    ParentNode(tr, ps, ix, n);
    var p := ix[Parent(ps[n])];
    var c := ps[n][|ps[n]| - 1];
    assert tr[p].children[c] == n;
    if p == Root {
      assert false;
    } else if p in done {
      assert false;
    } else if p in queue {
      var a :| 0 <= a < |queue| && queue[a] == p;
      assert |ps[queue[0]]| <= |ps[queue[a]]|;
    } else {
      FrontierCovers(tr, ps, ix, queue, done, p);
    }
  }

  // ---------------------------------------------------------------- linked nodes

  /** The nodes waiting in the queue. */
  ghost function Queued(queue: seq<nat>): (r: set<nat>) {
    set n | n in queue
  }

  /** Appending one node to the queue. */
  lemma QueuedSnoc(queue: seq<nat>, n: nat)
    ensures Queued(queue + [n]) == Queued(queue) + {n}
  {
  }

  /** Popping the head of the queue and appending kids. */
  lemma QueuedStep(queue: seq<nat>, kids: seq<nat>)
    requires queue != []
    ensures {queue[0]} + Queued(queue[1..] + kids) == Queued(queue) + Queued(kids)
  {
    assert queue == [queue[0]] + queue[1..];
  }

  /** The non-root nodes of an arena of the given size not yet visited. */
  ghost function Unvisited(size: nat, done: set<nat>): (r: set<nat>) {
    set n | 0 < n < size && n !in done
  }

  /** Visiting one more node leaves strictly fewer unvisited. */
  lemma UnvisitedShrinks(size: nat, done: set<nat>, h: nat)
    requires 0 < h < size && h !in done
    ensures Unvisited(size, done + {h}) < Unvisited(size, done)
  {
    assert h in Unvisited(size, done);
  }

  /** The non-root nodes no deeper than d. */
  ghost function Shallow(ps: seq<string>, d: nat): (r: set<nat>) {
    set n | 0 < n < |ps| && |ps[n]| <= d
  }

  /** Every node of S has its failure link in place. */
  ghost predicate LinkedIn(ns: seq<Node>, ps: seq<string>, ix: map<string, nat>, W: set<string>, S: set<nat>) {
    forall n :: n in S ==> LinkedAt(ns, ps, ix, W, n)
  }

  /** Pointing the failure link of node k at f, the node of the longest proper suffix of k's path in
      the trie, links k and leaves every other node as it was. */
  lemma Relink(ns: seq<Node>, ps: seq<string>, ix: map<string, nat>, W: set<string>, S: set<nat>, k: nat, f: nat)
    requires LinkedIn(ns, ps, ix, W, S)
    requires 0 < k < |ns| == |ps| && ps[k] != []
    requires f < |ps| && ps[f] == LongestTrieSuffix(W, ps[k][1..]) && ps[f] in ix && ix[ps[f]] == f
    ensures LinkedIn(ns[k := SetFail(ns[k], Some(f))], ps, ix, W, S + {k})
  {
    var ns' := ns[k := SetFail(ns[k], Some(f))];
    forall n | n in S + {k} ensures LinkedAt(ns', ps, ix, W, n) {
      if n != k {
        assert LinkedAt(ns, ps, ix, W, n);
        assert ns'[n] == ns[n];
      }
    }
  }

  /** At the head h of the queue, every node no deeper than h has been reached, hence linked. */
  lemma ShallowLinked(tr: seq<Node>, ns: seq<Node>, ps: seq<string>, ix: map<string, nat>, W: set<string>,
                      queue: seq<nat>, done: set<nat>)
    requires TreeShape(tr, ps, ix) && Frontier(tr, ps, ix, queue, done) && queue != []
    requires LinkedIn(ns, ps, ix, W, done + Queued(queue))
    ensures LinkedIn(ns, ps, ix, W, Shallow(ps, |ps[queue[0]]|))
  {
    forall n | n in Shallow(ps, |ps[queue[0]]|) ensures LinkedAt(ns, ps, ix, W, n) {
      if !Reached(n, queue, done) {
        FrontierCovers(tr, ps, ix, queue, done, n);
      }
      assert n in done + Queued(queue);
    }
  }

  /** Once the queue is empty, every node but the root has been visited. */
  lemma FrontierDone(tr: seq<Node>, ps: seq<string>, ix: map<string, nat>, done: set<nat>)
    requires TreeShape(tr, ps, ix) && Frontier(tr, ps, ix, [], done)
    ensures forall n :: 0 < n < |tr| ==> n in done
  {
    forall n | 0 < n < |tr| ensures n in done {
      if n !in done {
        FrontierCovers(tr, ps, ix, [], done, n);
      }
    }
  }

  // ---------------------------------------------------------------- one level, one visit

  /** buildFailPath() on the arena ns, a copy of the trie tr: the root's children are linked and
      queued; then, until the queue is empty, its head is visited, which links its children and
      queues them. Every node but the root ends up linked, and only failure links change. */
  method LinkAll(ghost tr: seq<Node>, ns: seq<Node>, ghost ps: seq<string>, ghost ix: map<string, nat>,
                 ghost W: set<string>) returns (ns': seq<Node>)
    requires Spells(tr, ps, ix, W) && SameTrie(tr, ns) && ns[Root].fail == None
    ensures SameTrie(tr, ns') && ns'[Root].fail == None
    ensures forall n :: 0 < n < |ns'| ==> LinkedAt(ns', ps, ix, W, n)
  {
    var ks, queue;
    ns', ks, queue := LinkRootChildren(tr, ns, ps, ix, W);
    FrontierStart(tr, ps, ix, ks, queue);
    ghost var done: set<nat> := {};
    assert done + Queued(queue) == Queued(queue);
    while queue != []
      invariant SameTrie(tr, ns') && ns'[Root].fail == None
      invariant Frontier(tr, ps, ix, queue, done)
      invariant LinkedIn(ns', ps, ix, W, done + Queued(queue))
      decreases Unvisited(|tr|, done)
    {
      ghost var queue0 := queue;
      ShallowLinked(tr, ns', ps, ix, W, queue, done);
      var h := queue[0];
      queue := queue[1..];
      var hks, kids;
      ns', hks, kids := LinkChildren(tr, ns', ps, ix, W, done + Queued(queue0), h);
      FrontierStep(tr, ps, ix, queue0, done, hks, kids);
      QueuedStep(queue0, kids);
      UnvisitedShrinks(|tr|, done, h);
      done := done + {h};
      queue := queue + kids;
    }
    FrontierDone(tr, ps, ix, done);
  }

  /** buildFailPath(), first level: every child of the root is linked to the root and listed, in the
      order of the root's keys, as the initial queue. */
  method LinkRootChildren(ghost tr: seq<Node>, ns: seq<Node>, ghost ps: seq<string>, ghost ix: map<string, nat>,
                          ghost W: set<string>) returns (ns': seq<Node>, ks: seq<char>, queue: seq<nat>)
    requires Spells(tr, ps, ix, W) && SameTrie(tr, ns) && ns[Root].fail == None
    ensures SameTrie(tr, ns') && ns'[Root].fail == None
    ensures ChildrenListed(tr, Root, ks, queue)
    ensures LinkedIn(ns', ps, ix, W, Queued(queue))
  {
    ns' := ns;
    ks := Keys(ns[Root]);
    assert forall c :: c in ks ==> c in tr[Root].children;
    queue := [];
    for a := 0 to |ks|
      invariant SameTrie(tr, ns') && ns'[Root].fail == None
      invariant |queue| == a && forall b :: 0 <= b < a ==> ks[b] in tr[Root].children && queue[b] == tr[Root].children[ks[b]]
      invariant LinkedIn(ns', ps, ix, W, Queued(queue))
    {
      var ch := ks[a];
      var child := Get(ns'[Root], ch).value;
      ChildPath(tr, ps, ix, Root, ch);
      assert ps[child][1..] == [];
      assert ps[Root] in ix;
      Relink(ns', ps, ix, W, Queued(queue), child, Root);
      SameTrieSetFail(tr, ns', child, Some(Root));
      ns' := ns'[child := SetFail(ns'[child], Some(Root))];
      ListedSnoc(tr[Root].children, ks, queue, a, child);
      QueuedSnoc(queue, child);
      queue := queue + [child];
    }
  }

  /** buildFailPath(), one visit: every child of node h is linked to its failure target, found from
      h's own link, and listed in the order of h's keys. Nodes already linked stay linked. */
  method LinkChildren(ghost tr: seq<Node>, ns: seq<Node>, ghost ps: seq<string>, ghost ix: map<string, nat>,
                      ghost W: set<string>, ghost linked: set<nat>, h: nat)
    returns (ns': seq<Node>, ks: seq<char>, kids: seq<nat>)
    requires Spells(tr, ps, ix, W) && SameTrie(tr, ns) && ns[Root].fail == None
    requires 0 < h < |ns|
    requires LinkedIn(ns, ps, ix, W, linked) && LinkedIn(ns, ps, ix, W, Shallow(ps, |ps[h]|))
    ensures SameTrie(tr, ns') && ns'[Root].fail == None
    ensures ChildrenListed(tr, h, ks, kids)
    ensures LinkedIn(ns', ps, ix, W, linked + Queued(kids))
  {
    ns' := ns;
    ks := Keys(ns[h]);
    assert forall c :: c in ks ==> c in tr[h].children;
    kids := [];
    for i := 0 to |ks|
      invariant SameTrie(tr, ns') && ns'[Root].fail == None
      invariant |kids| == i && forall b :: 0 <= b < i ==> ks[b] in tr[h].children && kids[b] == tr[h].children[ks[b]]
      invariant LinkedIn(ns', ps, ix, W, linked + Queued(kids))
      invariant LinkedIn(ns', ps, ix, W, Shallow(ps, |ps[h]|))
    {
      var child;
      ns', child := LinkChild(tr, ns', ps, ix, W, linked + Queued(kids), h, ks[i]);
      ListedSnoc(tr[h].children, ks, kids, i, child);
      QueuedSnoc(kids, child);
      kids := kids + [child];
    }
  }

  /** Setting one failure link keeps the trie: children and results are untouched. */
  lemma SameTrieSetFail(tr: seq<Node>, ns: seq<Node>, k: nat, f: Option<nat>)
    requires SameTrie(tr, ns) && k < |ns|
    ensures SameTrie(tr, ns[k := SetFail(ns[k], f)])
  {
  }

  /** Listing one more child keeps the list aligned with the keys: kids[b] is the child for ks[b]. */
  lemma ListedSnoc(m: map<char, nat>, ks: seq<char>, kids: seq<nat>, i: nat, child: nat)
    requires i < |ks| && |kids| == i
    requires forall b :: 0 <= b < i ==> ks[b] in m && kids[b] == m[ks[b]]
    requires ks[i] in m && child == m[ks[i]]
    ensures |kids + [child]| == i + 1
    ensures forall b :: 0 <= b < i + 1 ==> ks[b] in m && (kids + [child])[b] == m[ks[b]]
  {
  }

  /** buildFailPath(), one child: the child of h for ch is linked to its failure target. */
  method LinkChild(ghost tr: seq<Node>, ns: seq<Node>, ghost ps: seq<string>, ghost ix: map<string, nat>,
                   ghost W: set<string>, ghost linked: set<nat>, h: nat, ch: char)
    returns (ns': seq<Node>, child: nat)
    requires Spells(tr, ps, ix, W) && SameTrie(tr, ns) && ns[Root].fail == None
    requires 0 < h < |ns| && ch in tr[h].children
    requires LinkedIn(ns, ps, ix, W, linked) && LinkedIn(ns, ps, ix, W, Shallow(ps, |ps[h]|))
    ensures child == tr[h].children[ch]
    ensures SameTrie(tr, ns') && ns'[Root].fail == None
    ensures LinkedIn(ns', ps, ix, W, linked + {child})
    ensures LinkedIn(ns', ps, ix, W, Shallow(ps, |ps[h]|))
  {
    child := Get(ns[h], ch).value;
    ChildPath(tr, ps, ix, h, ch);
    var f := FailOf(tr, ns, ps, ix, W, h, ch);
    assert ps[child][1..] == (ps[h] + [ch])[1..];
    Relink(ns, ps, ix, W, linked, child, f);
    Relink(ns, ps, ix, W, Shallow(ps, |ps[h]|), child, f);
    ns' := ns[child := SetFail(ns[child], Some(f))];
  }

  // ---------------------------------------------------------------- one failure link

  /** The failure target of the child of h for ch, found as buildFailPath() does: from h's failure
      link, follow failure links until a node has a child for ch; that child is the target, and the
      root when the walk runs off the root. Every node no deeper than h must already be linked. */
  method FailOf(ghost tr: seq<Node>, ns: seq<Node>, ghost ps: seq<string>, ghost ix: map<string, nat>,
                ghost W: set<string>, h: nat, ch: char) returns (f: nat)
    requires Spells(tr, ps, ix, W) && SameTrie(tr, ns) && ns[Root].fail == None
    requires 0 < h < |ns| && ch in ns[h].children
    requires LinkedIn(ns, ps, ix, W, Shallow(ps, |ps[h]|))
    ensures f < |ns| == |ps| && ps[f] == LongestTrieSuffix(W, (ps[h] + [ch])[1..])
  {
    NonRootPath(tr, ps, ix, h);
    ChildFailure(W, ps[h], ch);
    assert h in Shallow(ps, |ps[h]|);
    ghost var target := LongestTrieSuffix(W, (ps[h] + [ch])[1..]);
    var r := GetFail(ns[h]);
    while r.Some? && Get(ns[r.value], ch).None?
      invariant r.Some? ==> r.value < |ns| && |ps[r.value]| <= |ps[h]| && LongestTrieSuffix(W, ps[r.value] + [ch]) == target
      invariant r.None? ==> target == []
      decreases if r.Some? then |ps[r.value]| + 1 else 0
    {
      var cur := r.value;
      ChildComplete(tr, ps, ix, cur, ch);
      if cur == Root {
        MissAtRoot(W, ch);
      } else {
        NonRootPath(tr, ps, ix, cur);
        assert cur in Shallow(ps, |ps[h]|);
        MissFollowsFailure(W, ps[cur], ch);
        FailureIsShallower(W, ps[cur]);
      }
      r := GetFail(ns[cur]);
    }
    if r.None? {
      f := Root;
    } else {
      f := Get(ns[r.value], ch).value;
      ChildPath(tr, ps, ix, r.value, ch);
      LongestTrieSuffixOfNode(W, ps[f]);
    }
  }
}
