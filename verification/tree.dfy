/** The search tree of monte.h. A node is a record whose `children` are its child list in the
    order of the `next` links, head first; the parent link is implicit (a node's parent is the
    node whose list holds it). `index` is the hash trie over the children: in the source the
    trie's root is the `children` pointer itself and the deeper slots are the children's own
    `hamt` arrays, so the model keeps it beside the list and relates the two by an invariant. */
module SearchTree {
  import Mnk
  import MoveIndex
  import NodePool

  type NodeId = NodePool.NodeId

  datatype Node = Node(
    id: NodeId,
    move: Mnk.Move,
    numMovesLeft: int,
    instantWinner: int,
    currentPlayer: int,
    numWins: int,
    numVisits: int,
    children: seq<Node>,
    index: MoveIndex.Trie<Mnk.Move>)

  datatype Option<T> = None | Some(value: T)

  /** A node as the engine initialises a root: all fields zero (so the move is (0, 0) and the
      instant winner is player 0) except `num_moves_left`, which is -1 (not yet expanded). */
  function Blank(id: NodeId, player: int): Node {
    Node(id, Mnk.Move(0, 0), -1, 0, player, 0, 0, [], MoveIndex.Vacant)
  }

  // ---------------------------------------------------------------------------------------
  // Paths: a node is reached from the root by the positions of the children taken.

  predicate ValidPath(n: Node, path: seq<nat>)
    decreases |path|
  {
    path == [] || (path[0] < |n.children| && ValidPath(n.children[path[0]], path[1..]))
  }

  function NodeAt(n: Node, path: seq<nat>): Node
    requires ValidPath(n, path)
    decreases |path|
  {
    if path == [] then n else NodeAt(n.children[path[0]], path[1..])
  }

  /** The tree with the subtree at `path` replaced by `m`. */
  function Replace(n: Node, path: seq<nat>, m: Node): (r: Node)
    requires ValidPath(n, path)
    ensures ValidPath(r, path) && NodeAt(r, path) == m
    ensures path != [] ==> r == n.(children := r.children) && |r.children| == |n.children|
    decreases |path|
  {
    if path == [] then m
    else
      var i := path[0];
      var c := Replace(n.children[i], path[1..], m);
      n.(children := n.children[i := c])
  }

  lemma {:induction false} ValidPathExtend(n: Node, path: seq<nat>, k: nat)
    requires ValidPath(n, path) && k < |NodeAt(n, path).children|
    ensures ValidPath(n, path + [k]) && NodeAt(n, path + [k]) == NodeAt(n, path).children[k]
    decreases |path|
  {
    if path != [] {
      assert (path + [k])[1..] == path[1..] + [k];
      ValidPathExtend(n.children[path[0]], path[1..], k);
    }
  }

  // ---------------------------------------------------------------------------------------
  // Node identities: every node of a subtree, counted with multiplicity.

  function Ids(n: Node): multiset<NodeId>
    decreases n
  {
    multiset{n.id} + ForestIds(n.children)
  }

  function ForestIds(s: seq<Node>): multiset<NodeId>
    decreases s
  {
    if s == [] then multiset{} else Ids(s[0]) + ForestIds(s[1..])
  }

  /** The number of nodes of a subtree. */
  function Size(n: Node): nat
    decreases n
  {
    1 + ForestSize(n.children)
  }

  function ForestSize(s: seq<Node>): nat
    decreases s
  {
    if s == [] then 0 else Size(s[0]) + ForestSize(s[1..])
  }

  lemma {:induction false} ForestIdsAppend(a: seq<Node>, b: seq<Node>)
    ensures ForestIds(a + b) == ForestIds(a) + ForestIds(b)
    ensures ForestSize(a + b) == ForestSize(a) + ForestSize(b)
  {
    if a == [] {
      assert a + b == b;
    } else {
      assert (a + b)[0] == a[0] && (a + b)[1..] == a[1..] + b;
      ForestIdsAppend(a[1..], b);
    }
  }

  /** The identities of a forest with one tree replaced. */
  lemma {:induction false} ForestIdsUpdate(s: seq<Node>, i: nat, c: Node)
    requires i < |s|
    ensures ForestIds(s[i := c]) + Ids(s[i]) == ForestIds(s) + Ids(c)
  {
    assert s == s[..i] + [s[i]] + s[i + 1..];
    assert s[i := c] == s[..i] + [c] + s[i + 1..];
    ForestIdsAppend(s[..i] + [s[i]], s[i + 1..]);
    ForestIdsAppend(s[..i], [s[i]]);
    ForestIdsAppend(s[..i] + [c], s[i + 1..]);
    ForestIdsAppend(s[..i], [c]);
    assert ForestIds([s[i]]) == Ids(s[i]) by {
      assert [s[i]][1..] == [];
    }
    assert ForestIds([c]) == Ids(c) by {
      assert [c][1..] == [];
    }
  }

  /** Replacing a subtree swaps its identities for those of the replacement. */
  lemma {:induction false} ReplaceIds(n: Node, path: seq<nat>, m: Node)
    requires ValidPath(n, path)
    ensures Ids(Replace(n, path, m)) + Ids(NodeAt(n, path)) == Ids(n) + Ids(m)
    decreases |path|
  {
    if path != [] {
      var i := path[0];
      var c := Replace(n.children[i], path[1..], m);
      ReplaceIds(n.children[i], path[1..], m);
      ForestIdsUpdate(n.children, i, c);
      assert Replace(n, path, m) == n.(children := n.children[i := c]);
      assert NodeAt(n, path) == NodeAt(n.children[i], path[1..]);
      SwapAlgebra(n.id, ForestIds(n.children[i := c]), Ids(n.children[i]), Ids(c),
                  Ids(NodeAt(n, path)), ForestIds(n.children), Ids(m));
    } else {
      assert Ids(m) + Ids(n) == Ids(n) + Ids(m);
    }
  }

  lemma SwapAlgebra(id: NodeId, a: multiset<NodeId>, b: multiset<NodeId>, c: multiset<NodeId>,
                    x: multiset<NodeId>, f: multiset<NodeId>, m: multiset<NodeId>)
    requires a + b == f + c && c + x == b + m
    ensures multiset{id} + a + x == multiset{id} + f + m
  {
    forall e
      ensures (multiset{id} + a + x)[e] == (multiset{id} + f + m)[e]
    {
      assert (a + b)[e] == (f + c)[e];
      assert (c + x)[e] == (b + m)[e];
    }
  }

  lemma {:induction false} ForestIdsElement(s: seq<Node>, i: nat)
    requires i < |s|
    ensures Ids(s[i]) <= ForestIds(s)
  {
    if i > 0 {
      ForestIdsElement(s[1..], i - 1);
    }
  }

  /** The identities below a path are among the tree's. */
  lemma {:induction false} NodeAtIds(n: Node, path: seq<nat>)
    requires ValidPath(n, path)
    ensures Ids(NodeAt(n, path)) <= Ids(n)
    decreases |path|
  {
    if path != [] {
      NodeAtIds(n.children[path[0]], path[1..]);
      ForestIdsElement(n.children, path[0]);
    }
  }

  // ---------------------------------------------------------------------------------------
  // Shape: everything but the win and visit counters.

  predicate SameShape(a: Node, b: Node)
    decreases a
  {
    && a.id == b.id && a.move == b.move && a.numMovesLeft == b.numMovesLeft
    && a.instantWinner == b.instantWinner && a.currentPlayer == b.currentPlayer
    && a.index == b.index && |a.children| == |b.children|
    && forall i | 0 <= i < |a.children| :: SameShape(a.children[i], b.children[i])
  }

  lemma {:induction false} SameShapeIds(a: Node, b: Node)
    requires SameShape(a, b)
    ensures Ids(a) == Ids(b)
    decreases a
  {
    SameShapeForestIds(a.children, b.children);
  }

  lemma {:induction false} SameShapeForestIds(s: seq<Node>, t: seq<Node>)
    requires |s| == |t| && forall i | 0 <= i < |s| :: SameShape(s[i], t[i])
    ensures ForestIds(s) == ForestIds(t)
    decreases s
  {
    if s != [] {
      SameShapeIds(s[0], t[0]);
      SameShapeForestIds(s[1..], t[1..]);
    }
  }

  // ---------------------------------------------------------------------------------------
  // Backpropagation (monte.h, the loop after the simulation).

  /** Every node on the path that has a child on the path names a player with a score. */
  predicate MoversOnPath(n: Node, path: seq<nat>, players: nat)
    requires ValidPath(n, path)
    decreases |path|
  {
    path == [] || (0 <= n.currentPlayer < players && MoversOnPath(n.children[path[0]], path[1..], players))
  }

  /** One visit more for every node on the path; every node below the root on the path also
      gains the score of the player to move at its parent. */
  function Backprop(n: Node, path: seq<nat>, scores: seq<int>): (r: Node)
    requires ValidPath(n, path) && MoversOnPath(n, path, |scores|)
    ensures SameShape(n, r)
    ensures r.numVisits == n.numVisits + 1 && r.numWins == n.numWins
    decreases |path|
  {
    if path == [] then
      SameShapeRefl(n.children);
      n.(numVisits := n.numVisits + 1)
    else
      var i := path[0];
      var c := Backprop(n.children[i], path[1..], scores);
      var c' := c.(numWins := c.numWins + scores[n.currentPlayer]);
      assert SameShape(n.children[i], c');
      var r := n.(numVisits := n.numVisits + 1, children := n.children[i := c']);
      assert forall j | 0 <= j < |n.children| && j != i :: r.children[j] == n.children[j];
      SameShapeRefl(n.children);
      r
  }

  lemma SameShapeRefl(s: seq<Node>)
    ensures forall i | 0 <= i < |s| :: SameShape(s[i], s[i])
  {
    forall i | 0 <= i < |s|
      ensures SameShape(s[i], s[i])
    {
      SameShapeReflexive(s[i]);
    }
  }

  lemma {:induction false} SameShapeReflexive(n: Node)
    ensures SameShape(n, n)
    decreases n
  {
    forall i | 0 <= i < |n.children|
      ensures SameShape(n.children[i], n.children[i])
    {
      SameShapeReflexive(n.children[i]);
    }
  }

  /** The prefixes of a path are paths, and every node on it before the last names a mover. */
  lemma {:induction false} PathPrefix(n: Node, path: seq<nat>, players: nat, k: nat)
    requires ValidPath(n, path) && MoversOnPath(n, path, players) && k <= |path|
    ensures ValidPath(n, path[..k])
    ensures k < |path| ==> 0 <= NodeAt(n, path[..k]).currentPlayer < players
    ensures k < |path| ==> ValidPath(n, path[..k + 1]) && path[k] < |NodeAt(n, path[..k]).children|
    ensures k < |path| ==> NodeAt(n, path[..k + 1]) == NodeAt(n, path[..k]).children[path[k]]
    decreases |path|
  {
    if k > 0 {
      PathPrefix(n.children[path[0]], path[1..], players, k - 1);
      assert path[..k][1..] == path[1..][..k - 1];
      assert k < |path| ==> path[..k + 1][1..] == path[1..][..k];
    }
  }

  /** Backpropagation counts one more visit at every node of the path and adds to every node
      below the root the score of the player who moves at its parent: a score of -1 makes the
      win counter go down. */
  lemma {:induction false} BackpropOnPath(n: Node, path: seq<nat>, scores: seq<int>, k: nat)
    requires ValidPath(n, path) && MoversOnPath(n, path, |scores|) && 0 < k <= |path|
    ensures ValidPath(n, path[..k - 1]) && 0 <= NodeAt(n, path[..k - 1]).currentPlayer < |scores|
    ensures ValidPath(n, path[..k]) && ValidPath(Backprop(n, path, scores), path[..k])
    ensures NodeAt(Backprop(n, path, scores), path[..k]).numVisits == NodeAt(n, path[..k]).numVisits + 1
    ensures NodeAt(Backprop(n, path, scores), path[..k]).numWins
         == NodeAt(n, path[..k]).numWins + scores[NodeAt(n, path[..k - 1]).currentPlayer]
    decreases |path|
  {
    PathPrefix(n, path, |scores|, k - 1);
    var i := path[0];
    var c := Backprop(n.children[i], path[1..], scores);
    var r := Backprop(n, path, scores);
    assert r.children[i] == c.(numWins := c.numWins + scores[n.currentPlayer]);
    if k == 1 {
      assert path[..1] == [i] && path[..0] == [];
      assert [i][1..] == [];
    } else {
      BackpropOnPath(n.children[i], path[1..], scores, k - 1);
      assert path[..k][1..] == path[1..][..k - 1];
      assert path[..k - 1][1..] == path[1..][..k - 2];
    }
  }

  predicate Prefix(q: seq<nat>, path: seq<nat>) {
    |q| <= |path| && q == path[..|q|]
  }

  lemma PrefixCons(q: seq<nat>, path: seq<nat>)
    requires q != [] && path != [] && q[0] == path[0]
    ensures Prefix(q[1..], path[1..]) ==> Prefix(q, path)
  {
    if Prefix(q[1..], path[1..]) {
      assert q == [q[0]] + q[1..];
      assert path[..|q|] == [path[0]] + path[1..][..|q| - 1];
    }
  }

  /** Backpropagation changes no node off the path: every node reached by a path that is not a
      prefix of the backpropagated one is as it was. */
  lemma {:induction false} BackpropOffPath(n: Node, path: seq<nat>, scores: seq<int>, q: seq<nat>)
    requires ValidPath(n, path) && MoversOnPath(n, path, |scores|)
    requires ValidPath(n, q) && !Prefix(q, path)
    ensures ValidPath(Backprop(n, path, scores), q)
    ensures NodeAt(Backprop(n, path, scores), q) == NodeAt(n, q)
    decreases |path|
  {
    var r := Backprop(n, path, scores);
    var j := q[0];
    if path == [] || j != path[0] {
      assert r.children[j] == n.children[j];
    } else {
      var c := Backprop(n.children[j], path[1..], scores);
      var c' := c.(numWins := c.numWins + scores[n.currentPlayer]);
      assert r.children[j] == c';
      PrefixCons(q, path);
      BackpropOffPath(n.children[j], path[1..], scores, q[1..]);
      assert q[1..] != [];
      assert NodeAt(c', q[1..]) == NodeAt(c.children[q[1]], q[2..]);
    }
  }

  // ---------------------------------------------------------------------------------------
  // Counters: no node has more wins or losses than visits, and every child has been visited
  // (it is backpropagated in the iteration that creates it), so that the score of a child never
  // divides by a zero visit count.

  predicate Bounded(n: Node)
    decreases n
  {
    && -n.numVisits <= n.numWins <= n.numVisits
    && forall i | 0 <= i < |n.children| :: Bounded(n.children[i])
  }

  predicate Visited(n: Node)
    decreases n
  {
    forall i | 0 <= i < |n.children| :: n.children[i].numVisits >= 1 && Visited(n.children[i])
  }

  /** Visited, except along `path`, whose nodes may still be waiting for their first visit. */
  predicate VisitedBut(n: Node, path: seq<nat>)
    requires ValidPath(n, path)
    decreases |path|
  {
    if path == [] then Visited(n)
    else
      && (forall i | 0 <= i < |n.children| && i != path[0] ::
            n.children[i].numVisits >= 1 && Visited(n.children[i]))
      && VisitedBut(n.children[path[0]], path[1..])
  }

  predicate UnitScores(scores: seq<int>) {
    forall i | 0 <= i < |scores| :: -1 <= scores[i] <= 1
  }

  /** With every score in {-1, 0, 1}, backpropagation keeps |num_wins| <= num_visits. */
  lemma {:induction false} BackpropBounded(n: Node, path: seq<nat>, scores: seq<int>)
    requires ValidPath(n, path) && MoversOnPath(n, path, |scores|)
    requires Bounded(n) && UnitScores(scores)
    ensures Bounded(Backprop(n, path, scores))
    decreases |path|
  {
    var r := Backprop(n, path, scores);
    if path != [] {
      var i := path[0];
      BackpropBounded(n.children[i], path[1..], scores);
      forall j | 0 <= j < |r.children|
        ensures Bounded(r.children[j])
      {
        if j != i {
          assert r.children[j] == n.children[j];
        }
      }
    }
  }

  /** Backpropagating along the only path whose nodes may be unvisited leaves every child of
      every node visited. */
  lemma {:induction false} BackpropVisited(n: Node, path: seq<nat>, scores: seq<int>)
    requires ValidPath(n, path) && MoversOnPath(n, path, |scores|)
    requires Bounded(n) && VisitedBut(n, path)
    ensures Visited(Backprop(n, path, scores))
    decreases |path|
  {
    var r := Backprop(n, path, scores);
    if path != [] {
      var i := path[0];
      BackpropVisited(n.children[i], path[1..], scores);
      forall j | 0 <= j < |r.children|
        ensures r.children[j].numVisits >= 1 && Visited(r.children[j])
      {
        if j != i {
          assert r.children[j] == n.children[j];
        } else {
          assert Bounded(n.children[i]);
        }
      }
    }
  }

  lemma {:induction false} ReplaceBounded(n: Node, path: seq<nat>, m: Node)
    requires ValidPath(n, path) && Bounded(n) && Bounded(m)
    ensures Bounded(Replace(n, path, m))
    decreases |path|
  {
    if path != [] {
      var i := path[0];
      var r := Replace(n, path, m);
      ReplaceBounded(n.children[i], path[1..], m);
      forall j | 0 <= j < |r.children|
        ensures Bounded(r.children[j])
      {
        if j != i {
          assert r.children[j] == n.children[j];
        }
      }
    }
  }

  /** A visited tree with the subtree at `path` replaced by one that is visited but along `tail`
      is visited but along `path + tail`. */
  lemma {:induction false} ReplaceVisited(n: Node, path: seq<nat>, m: Node, tail: seq<nat>)
    requires ValidPath(n, path) && Visited(n) && ValidPath(m, tail) && VisitedBut(m, tail)
    ensures ValidPath(Replace(n, path, m), path + tail)
    ensures VisitedBut(Replace(n, path, m), path + tail)
    decreases |path|
  {
    var r := Replace(n, path, m);
    if path == [] {
      assert path + tail == tail;
    } else {
      var i := path[0];
      ReplaceVisited(n.children[i], path[1..], m, tail);
      assert (path + tail)[0] == i && (path + tail)[1..] == path[1..] + tail;
      forall j | 0 <= j < |r.children| && j != i
        ensures r.children[j].numVisits >= 1 && Visited(r.children[j])
      {
        assert r.children[j] == n.children[j];
      }
    }
  }

  // ---------------------------------------------------------------------------------------
  // Selection at one node (the inner loop of the descent in monte_iterate).

  /** The score oracle for a child: the float UCT value of the source, a function of the parent's
      visits and the child's wins and visits. */
  function Score(uct: (int, int, int) -> real, parentVisits: int, c: Node): real {
    uct(parentVisits, c.numWins, c.numVisits)
  }

  /** Child k has the highest score among the first n children and no child before it ties. */
  predicate FirstBest(cs: seq<Node>, uct: (int, int, int) -> real, pv: int, k: nat, n: nat)
    requires k < n <= |cs|
  {
    && (forall j | 0 <= j < n :: Score(uct, pv, cs[j]) <= Score(uct, pv, cs[k]))
    && (forall j | 0 <= j < k :: Score(uct, pv, cs[j]) < Score(uct, pv, cs[k]))
  }

  /** The loop over children from position i on, `best` being the child kept so far. A child
      whose instant winner is `player` ends the loop; otherwise a child is kept when its score
      exceeds the kept one's (every score exceeds the initial -infinity). */
  function ChooseFrom(cs: seq<Node>, player: int, uct: (int, int, int) -> real, pv: int,
                      i: nat, best: Option<nat>): (r: Option<nat>)
    requires i <= |cs|
    requires best.None? <==> i == 0
    requires best.Some? ==> best.value < i && FirstBest(cs, uct, pv, best.value, i)
    requires forall j | 0 <= j < i :: cs[j].instantWinner != player
    ensures r.Some? <==> cs != []
    ensures r.Some? ==> r.value < |cs|
    ensures r.Some? && cs[r.value].instantWinner == player ==>
              forall j | 0 <= j < r.value :: cs[j].instantWinner != player
    ensures r.Some? && cs[r.value].instantWinner != player ==>
              && (forall j | 0 <= j < |cs| :: cs[j].instantWinner != player)
              && FirstBest(cs, uct, pv, r.value, |cs|)
    decreases |cs| - i
  {
    if i == |cs| then best
    else if cs[i].instantWinner == player then Some(i)
    else if best.None? || Score(uct, pv, cs[i]) > Score(uct, pv, cs[best.value]) then
      ChooseFrom(cs, player, uct, pv, i + 1, Some(i))
    else
      ChooseFrom(cs, player, uct, pv, i + 1, best)
  }

  /** The child the descent takes: the first whose instant winner is `player`, if any, and
      otherwise the first child of highest score; none when there are no children. */
  function Choose(cs: seq<Node>, player: int, uct: (int, int, int) -> real, pv: int): (r: Option<nat>)
    ensures r.None? <==> cs == []
    ensures r.Some? ==> r.value < |cs|
    ensures forall k | 0 <= k < |cs| && cs[k].instantWinner == player ::
              r.Some? && r.value <= k && cs[r.value].instantWinner == player
    ensures (forall j | 0 <= j < |cs| :: cs[j].instantWinner != player) && cs != [] ==>
              r.Some? && r.value < |cs| && FirstBest(cs, uct, pv, r.value, |cs|)
  {
    ChooseFrom(cs, player, uct, pv, 0, None)
  }

  // ---------------------------------------------------------------------------------------
  // monte_pick_move.

  /** The move of the first child with the most visits; `prior` (what the output held) when no
      child has a visit count above -1. */
  method PickMove(cs: seq<Node>, prior: Mnk.Move) returns (m: Mnk.Move)
    ensures (forall j | 0 <= j < |cs| :: cs[j].numVisits <= -1) ==> m == prior
    ensures (exists j | 0 <= j < |cs| :: cs[j].numVisits > -1) ==>
              exists k | 0 <= k < |cs| ::
                && m == cs[k].move
                && (forall j | 0 <= j < |cs| :: cs[j].numVisits <= cs[k].numVisits)
                && (forall j | 0 <= j < k :: cs[j].numVisits < cs[k].numVisits)
  {
    m := prior;
    var numVisits := -1;
    var best := -1;
    var i := 0;
    while i < |cs|
      invariant 0 <= i <= |cs|
      invariant best == -1 ==> m == prior && numVisits == -1
      invariant best == -1 ==> forall j | 0 <= j < i :: cs[j].numVisits <= -1
      invariant best != -1 ==> 0 <= best < i && m == cs[best].move && numVisits == cs[best].numVisits > -1
      invariant best != -1 ==> forall j | 0 <= j < i :: cs[j].numVisits <= numVisits
      invariant best != -1 ==> forall j | 0 <= j < best :: cs[j].numVisits < numVisits
    {
      if cs[i].numVisits > numVisits {
        m := cs[i].move;
        numVisits := cs[i].numVisits;
        best := i;
      }
      i := i + 1;
    }
  }

  // ---------------------------------------------------------------------------------------
  // Growing and recycling child lists.

  /** Where a new child goes in the list: behind the head, or first in an empty list. */
  function SplicePosition(cs: seq<Node>): nat {
    if cs == [] then 0 else 1
  }

  /** `new_node->next = head->next; head->next = new_node`, or the sole child when the list was
      empty: taking the new child out again gives the old list back. */
  function Splice(cs: seq<Node>, c: Node): (r: seq<Node>)
    ensures |r| == |cs| + 1 && SplicePosition(cs) < |r|
    ensures r[SplicePosition(cs)] == c
    ensures r[..SplicePosition(cs)] + r[SplicePosition(cs) + 1..] == cs
    ensures cs != [] ==> r[0] == cs[0]
  {
    if cs == [] then [c] else [cs[0], c] + cs[1..]
  }

  lemma SpliceIds(cs: seq<Node>, c: Node)
    ensures ForestIds(Splice(cs, c)) == ForestIds(cs) + Ids(c)
  {
    var r := Splice(cs, c);
    var k := SplicePosition(cs);
    assert r == r[..k] + [c] + r[k + 1..];
    ForestIdsAppend(r[..k] + [c], r[k + 1..]);
    ForestIdsAppend(r[..k], [c]);
    ForestIdsAppend(r[..k], r[k + 1..]);
    assert [c][1..] == [];
    MultisetShuffle(ForestIds(r[..k]), Ids(c), ForestIds(r[k + 1..]));
  }

  lemma MultisetShuffle(a: multiset<NodeId>, b: multiset<NodeId>, c: multiset<NodeId>)
    ensures a + b + c == a + c + b
  {
    forall e
      ensures (a + b + c)[e] == (a + c + b)[e]
    {
    }
  }

  /** What the loop over the old root's children leaves: the child whose move equals the
      played one, if any, and the others, each pushed on top of the recycle stack in turn, so
      that they lie in reverse list order. */
  datatype Split = Split(found: Option<Node>, recycle: seq<Node>)

  function OptionIds(o: Option<Node>): multiset<NodeId> {
    if o.Some? then Ids(o.value) else multiset{}
  }

  predicate DistinctMoves(cs: seq<Node>) {
    forall i, j | 0 <= i < j < |cs| :: cs[i].move != cs[j].move
  }

  /** The children whose move is not `m`, in list order. */
  function Others(cs: seq<Node>, m: Mnk.Move): (r: seq<Node>)
    ensures forall x :: x in r <==> x in cs && x.move != m
    decreases |cs|
  {
    if cs == [] then []
    else if cs[0].move == m then Others(cs[1..], m)
    else [cs[0]] + Others(cs[1..], m)
  }

  /** A sequence back to front. */
  function Reverse<T>(s: seq<T>): (r: seq<T>)
    ensures |r| == |s|
    ensures forall i | 0 <= i < |s| :: r[i] == s[|s| - 1 - i]
    decreases |s|
  {
    if s == [] then [] else Reverse(s[1..]) + [s[0]]
  }

  /** The loop from the children `cs` on, with `found` and `recycle` as left by the children
      before them. */
  function SplitFrom(cs: seq<Node>, m: Mnk.Move, found: Option<Node>, recycle: seq<Node>): (r: Split)
    ensures r.found.Some? <==> found.Some? || exists j | 0 <= j < |cs| :: cs[j].move == m
    ensures r.found.Some? && r.found != found ==> r.found.value in cs && r.found.value.move == m
    ensures forall x | x in r.recycle :: x in recycle || (x in cs && x.move != m)
    ensures r.recycle == Reverse(Others(cs, m)) + recycle
    decreases |cs|
  {
    if cs == [] then Split(found, recycle)
    else if cs[0].move == m then SplitFrom(cs[1..], m, Some(cs[0]), recycle)
    else SplitFrom(cs[1..], m, found, [cs[0]] + recycle)
  }

  /** A later equal child would replace an earlier one, which would then be in neither part;
      with distinct moves every node ends up in exactly one part. */
  lemma {:induction false} SplitFromIds(cs: seq<Node>, m: Mnk.Move, found: Option<Node>, recycle: seq<Node>)
    requires DistinctMoves(cs)
    requires found.Some? ==> forall j | 0 <= j < |cs| :: cs[j].move != m
    ensures var r := SplitFrom(cs, m, found, recycle);
            ForestIds(r.recycle) + OptionIds(r.found) == ForestIds(cs) + ForestIds(recycle) + OptionIds(found)
    decreases |cs|
  {
    if cs != [] {
      assert forall j | 0 <= j < |cs| - 1 :: cs[1..][j] == cs[j + 1];
      if cs[0].move == m {
        var r := SplitFrom(cs[1..], m, Some(cs[0]), recycle);
        SplitFromIds(cs[1..], m, Some(cs[0]), recycle);
        SplitAlgebra(ForestIds(r.recycle), OptionIds(r.found), Ids(cs[0]), ForestIds(cs[1..]),
                     ForestIds(recycle), OptionIds(found));
      } else {
        var r := SplitFrom(cs[1..], m, found, [cs[0]] + recycle);
        SplitFromIds(cs[1..], m, found, [cs[0]] + recycle);
        assert ([cs[0]] + recycle)[1..] == recycle;
        SplitAlgebra(ForestIds(r.recycle), OptionIds(r.found), Ids(cs[0]), ForestIds(cs[1..]),
                     ForestIds(recycle), OptionIds(found));
      }
    }
  }

  lemma SplitAlgebra(a: multiset<NodeId>, b: multiset<NodeId>, c: multiset<NodeId>,
                     d: multiset<NodeId>, e: multiset<NodeId>, f: multiset<NodeId>)
    ensures a + b == d + (c + e) + f ==> a + b == (c + d) + e + f
    ensures a + b == d + e + c && f == multiset{} ==> a + b == (c + d) + e + f
  {
    forall x
      ensures (d + (c + e) + f)[x] == ((c + d) + e + f)[x]
      ensures f == multiset{} ==> (d + e + c)[x] == ((c + d) + e + f)[x]
    {
    }
  }

  /** The old root's children split by the played move. */
  function SplitChildren(cs: seq<Node>, m: Mnk.Move): (r: Split)
    ensures r.found.Some? <==> exists j | 0 <= j < |cs| :: cs[j].move == m
    ensures r.found.Some? ==> r.found.value in cs && r.found.value.move == m
    ensures forall x | x in r.recycle :: x in cs && x.move != m
    ensures r.recycle == Reverse(Others(cs, m))
    ensures forall j | 0 <= j < |cs| && cs[j].move != m :: cs[j] in r.recycle
  {
    var r := SplitFrom(cs, m, None, []);
    assert r.recycle == Reverse(Others(cs, m)) + [];
    assert forall j | 0 <= j < |cs| && cs[j].move != m :: cs[j] in Others(cs, m);
    ReverseKeepsMembers(Others(cs, m));
    r
  }

  /** Reversal keeps exactly the same elements. */
  lemma ReverseKeepsMembers<T>(s: seq<T>)
    ensures forall x :: x in Reverse(s) <==> x in s
  {
    var r := Reverse(s);
    forall x ensures x in r <==> x in s {
      if x in s {
        var i :| 0 <= i < |s| && s[i] == x;
        assert r[|s| - 1 - i] == x;
      }
      if x in r {
        var i :| 0 <= i < |r| && r[i] == x;
        assert s[|s| - 1 - i] == x;
      }
    }
  }

  /** With distinct moves, every node of the old children is either in the promoted subtree or
      in one of the subtrees to recycle, and in only one. */
  lemma SplitChildrenIds(cs: seq<Node>, m: Mnk.Move)
    requires DistinctMoves(cs)
    ensures ForestIds(SplitChildren(cs, m).recycle) + OptionIds(SplitChildren(cs, m).found) == ForestIds(cs)
  {
    SplitFromIds(cs, m, None, []);
  }

  /** Pushing the nodes of `cs` on top of `stack` one by one, first to last. */
  function Push(cs: seq<Node>, stack: seq<Node>): (r: seq<Node>)
    ensures ForestIds(r) == ForestIds(cs) + ForestIds(stack)
    ensures ForestSize(r) == ForestSize(cs) + ForestSize(stack)
    decreases |cs|
  {
    if cs == [] then stack
    else
      var r := Push(cs[1..], [cs[0]] + stack);
      assert ([cs[0]] + stack)[1..] == stack;
      SplitAlgebra(ForestIds(r), multiset{}, Ids(cs[0]), ForestIds(cs[1..]), ForestIds(stack), multiset{});
      r
  }

  /** The recycling loop of monte_apply_move: pop a node, push its children, release it to the
      pool; until the stack is empty. Every node of every tree on the stack is released exactly
      once. */
  function Recycle(stack: seq<Node>, pool: NodePool.Pool): (r: NodePool.Pool)
    ensures r.nextId == pool.nextId
    ensures multiset(r.freeList) == multiset(pool.freeList) + ForestIds(stack)
    decreases ForestSize(stack)
  {
    if stack == [] then pool
    else
      var n := stack[0];
      var next := Push(n.children, stack[1..]);
      assert ForestSize(stack) == 1 + ForestSize(n.children) + ForestSize(stack[1..]);
      var r := Recycle(next, NodePool.Free(pool, n.id));
      SplitAlgebra(multiset(r.freeList), multiset{}, multiset{n.id}, multiset(pool.freeList),
                   ForestIds(n.children) + ForestIds(stack[1..]), multiset{});
      r
  }
}
