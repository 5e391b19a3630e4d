/** The engine of monte.h specialised to the m,n,k game: the tree rooted at the current position,
    the node pool, the random-number stream and the info buffer, and the operations
    monte_create, monte_iterate, monte_pick_move and monte_apply_move.

    The float parts of the source are parameters (`Env`): the UCT score of a child, the outcome
    of each `random * n < 1` test, and the bit mixer of the move hash. */
module Monte {
  import Mnk
  import MoveIndex
  import NodePool
  import Reservoir
  import opened SearchTree

  datatype Env = Env(mix: int -> nat, uct: (int, int, int) -> real, coin: (nat, nat) -> bool)

  /** The key of a move in the child index: monte_user_hash_move. */
  function KeyHash(env: Env): Mnk.Move -> nat {
    m => Mnk.HashMove(env.mix, m)
  }

  /** The number of players of the m,n,k game (`num_players`). */
  const Players: nat := 2

  // ---------------------------------------------------------------------------------------
  // Instant winners (the loop over players after a new child's state is inspected).

  /** The lowest player from `i` on whose score is positive, or NoPlayer. */
  function FirstPositive(scores: seq<int>, i: nat): (r: int)
    ensures r == Mnk.NoPlayer <==> forall j | i <= j < |scores| :: scores[j] <= 0
    ensures r != Mnk.NoPlayer ==> i <= r < |scores| && scores[r] > 0
    ensures r != Mnk.NoPlayer ==> forall j | i <= j < r :: scores[j] <= 0
    decreases |scores| - i
  {
    if i >= |scores| then Mnk.NoPlayer
    else if scores[i] > 0 then i
    else FirstPositive(scores, i + 1)
  }

  /** The instant winner recorded in a new child: for a finished game, the first player with a
      positive score; otherwise none. */
  function InstantWinner(info: Mnk.Info): (w: int)
    ensures info.currentPlayer != Mnk.NoPlayer ==> w == Mnk.NoPlayer
    ensures w != Mnk.NoPlayer ==> 0 <= w < |info.scores| && info.scores[w] > 0
    ensures w == Mnk.NoPlayer && info.currentPlayer == Mnk.NoPlayer ==>
              forall j | 0 <= j < |info.scores| :: info.scores[j] <= 0
  {
    if info.currentPlayer == Mnk.NoPlayer then FirstPositive(info.scores, 0) else Mnk.NoPlayer
  }

  /** The winner a finished game is scored for: its winner, unless the board is full. */
  function ScoredWinner(s: Mnk.State): int {
    if Mnk.Live(s) || s.numSpaces == 0 then Mnk.NoPlayer else s.winner
  }

  /** The instant winner of a state is the player it is scored for, whatever the buffer held:
      a win on the last empty cell gives no instant winner. */
  lemma InstantWinnerIsScoredWinner(s: Mnk.State, buffer: seq<int>)
    requires Mnk.Valid(s) && |buffer| == 2
    ensures InstantWinner(Mnk.Inspect(s, buffer)) == ScoredWinner(s)
  {
    var info := Mnk.Inspect(s, buffer);
    if !Mnk.Live(s) && s.numSpaces > 0 {
      if s.winner == 1 {
        assert info.scores[0] == -1;
      }
    }
  }

  // ---------------------------------------------------------------------------------------
  // The child index agrees with the child list.

  function ChildEntries(cs: seq<Node>): set<(nat, Mnk.Move)> {
    set i | 0 <= i < |cs| :: (cs[i].id, cs[i].move)
  }

  function ChildMoves(cs: seq<Node>): set<Mnk.Move> {
    set i | 0 <= i < |cs| :: cs[i].move
  }

  /** The trie holds exactly the children, each under its own move, with the list head at its
      root, and no two children share a move. */
  predicate Indexed(n: Node, hash: Mnk.Move -> nat) {
    && MoveIndex.WellFormed(n.index)
    && MoveIndex.Placed(n.index, hash, 0)
    && MoveIndex.Entries(n.index) == ChildEntries(n.children)
    && MoveIndex.Keys(n.index) == ChildMoves(n.children)
    && DistinctMoves(n.children)
    && (n.children == [] <==> n.index.Vacant?)
    && (n.children != [] ==> n.index.id == n.children[0].id && n.index.key == n.children[0].move)
  }

  // ---------------------------------------------------------------------------------------
  // The tree mirrors the game.

  /** What a node records about its own state st: the player to move; a finished game has no
      children and is never expanded; a node that has been expanded counts the legal moves it
      has not expanded yet, a node that has not has no children. */
  predicate Local(n: Node, st: Mnk.State, hash: Mnk.Move -> nat) {
    && Mnk.Valid(st)
    && n.currentPlayer == st.player
    && Indexed(n, hash)
    && (!Mnk.Live(st) ==> n.numMovesLeft == -1)
    && (n.numMovesLeft == -1 ==> n.children == [])
    && n.numMovesLeft >= -1
    && (n.numMovesLeft >= 0 ==> n.numMovesLeft + |n.children| == |Mnk.LegalMoves(st)|)
  }

  /** Node n stands for state st: it records what Local asks, and each child is a legal move of
      st standing for the state the move leads to. */
  predicate Mirrors(n: Node, st: Mnk.State, hash: Mnk.Move -> nat)
    decreases n, 0
  {
    && Local(n, st, hash)
    && forall i | 0 <= i < |n.children| :: ChildMirrors(n.children[i], st, hash)
  }

  /** Child c of a node standing for st: a legal move, recording the scored winner of the state
      it leads to, and standing for that state. */
  predicate ChildMirrors(c: Node, st: Mnk.State, hash: Mnk.Move -> nat)
    decreases c, 1
  {
    && Mnk.Valid(st)
    && Mnk.Legal(st, c.move)
    && c.instantWinner == ScoredWinner(Mnk.ApplyMove(st, c.move))
    && Mirrors(c, Mnk.ApplyMove(st, c.move), hash)
  }

  /** The state a path of the tree leads to. */
  function StateAt(n: Node, st: Mnk.State, path: seq<nat>, hash: Mnk.Move -> nat): (r: Mnk.State)
    requires Mirrors(n, st, hash) && ValidPath(n, path)
    ensures Mirrors(NodeAt(n, path), r, hash)
    decreases |path|
  {
    if path == [] then st
    else
      var c := n.children[path[0]];
      assert ChildMirrors(c, st, hash);
      StateAt(c, Mnk.ApplyMove(st, c.move), path[1..], hash)
  }

  /** Every node with a child is a live position, so its player has a score. */
  lemma {:induction false} MirrorsMovers(n: Node, st: Mnk.State, path: seq<nat>, hash: Mnk.Move -> nat)
    requires Mirrors(n, st, hash) && ValidPath(n, path)
    ensures MoversOnPath(n, path, Players)
    decreases |path|
  {
    if path != [] {
      var c := n.children[path[0]];
      assert ChildMirrors(c, st, hash);
      MirrorsMovers(c, Mnk.ApplyMove(st, c.move), path[1..], hash);
    }
  }

  /** Replacing a child by one under the same id and move keeps the pairs and moves a trie
      must hold, and keeps the moves distinct. */
  lemma ChildrenUpdate(cs: seq<Node>, i: nat, c': Node)
    requires i < |cs| && c'.id == cs[i].id && c'.move == cs[i].move
    ensures ChildEntries(cs[i := c']) == ChildEntries(cs)
    ensures ChildMoves(cs[i := c']) == ChildMoves(cs)
    ensures DistinctMoves(cs[i := c']) == DistinctMoves(cs)
  {
    var ds := cs[i := c'];
    assert forall j | 0 <= j < |ds| :: ds[j].id == cs[j].id && ds[j].move == cs[j].move;
  }

  /** Replacing one child by a node under the same identity and move keeps what Local asks of
      the parent. */
  lemma ReplaceChildLocal(n: Node, st: Mnk.State, i: nat, c': Node, hash: Mnk.Move -> nat)
    requires Local(n, st, hash) && i < |n.children|
    requires c'.id == n.children[i].id && c'.move == n.children[i].move
    ensures Local(n.(children := n.children[i := c']), st, hash)
  {
    var r := n.(children := n.children[i := c']);
    ChildrenUpdate(n.children, i, c');
    assert Indexed(r, hash);
  }

  /** Replacing one child by a node that stands for the same state, under the same identity
      and move, keeps the parent mirroring the game. */
  lemma ReplaceChildMirrors(n: Node, st: Mnk.State, i: nat, c': Node, hash: Mnk.Move -> nat)
    requires Mirrors(n, st, hash) && i < |n.children|
    requires ChildMirrors(c', st, hash)
    requires c'.id == n.children[i].id && c'.move == n.children[i].move
    ensures Mirrors(n.(children := n.children[i := c']), st, hash)
  {
    var r := n.(children := n.children[i := c']);
    ReplaceChildLocal(n, st, i, c', hash);
    forall j | 0 <= j < |r.children| ensures ChildMirrors(r.children[j], st, hash) {
      if j != i {
        assert r.children[j] == n.children[j];
      }
    }
  }

  /** Replacing the subtree at a path by one that stands for the same state, under the same
      identity, move and instant winner, keeps the whole tree mirroring the game. */
  lemma {:induction false} ReplaceMirrors(n: Node, st: Mnk.State, path: seq<nat>, m: Node, hash: Mnk.Move -> nat)
    requires Mirrors(n, st, hash) && ValidPath(n, path)
    requires Mirrors(m, StateAt(n, st, path, hash), hash)
    requires m.id == NodeAt(n, path).id && m.move == NodeAt(n, path).move
    requires m.instantWinner == NodeAt(n, path).instantWinner
    ensures Mirrors(Replace(n, path, m), st, hash)
    decreases |path|
  {
    if path != [] {
      var i := path[0];
      var c := n.children[i];
      ReplaceMirrors(c, Mnk.ApplyMove(st, c.move), path[1..], m, hash);
      var c' := Replace(c, path[1..], m);
      assert Replace(n, path, m) == n.(children := n.children[i := c']);
      assert ChildMirrors(c, st, hash);
      ReplaceChildMirrors(n, st, i, c', hash);
    }
  }

  // ---------------------------------------------------------------------------------------
  // Expansion (monte_submit_move_for_expansion and the expansion step of monte_iterate).

  /** A move offered to the reservoir, with the vacant slot its lookup ended on. */
  datatype Candidate = Candidate(move: Mnk.Move, slot: seq<nat>)

  /** The legal moves in iteration order whose lookup in the child index misses: every other
      move is skipped before the reservoir sees it. */
  function Unexpanded(index: MoveIndex.Trie<Mnk.Move>, moves: seq<Mnk.Move>, hash: Mnk.Move -> nat): (r: seq<Candidate>)
    requires MoveIndex.WellFormed(index)
    ensures |r| <= |moves|
    ensures forall i | 0 <= i < |r| :: r[i].move in moves && MoveIndex.Find(index, r[i].move, hash(r[i].move)) == MoveIndex.Slot(r[i].slot)
  {
    if moves == [] then []
    else
      var rest := Unexpanded(index, moves[1..], hash);
      match MoveIndex.Find(index, moves[0], hash(moves[0]))
      case Hit(_) => rest
      case Slot(p) => [Candidate(moves[0], p)] + rest
  }

  /** The moves of the candidates, in order. */
  function CandidateMoves(cs: seq<Candidate>): (r: seq<Mnk.Move>)
    ensures |r| == |cs| && forall i | 0 <= i < |cs| :: r[i] == cs[i].move
  {
    seq(|cs|, i requires 0 <= i < |cs| => cs[i].move)
  }

  /** The moves of a sequence that are not in a set, in order: an independent statement of
      which moves expansion should offer. */
  function Fresh(moves: seq<Mnk.Move>, keys: set<Mnk.Move>): (r: seq<Mnk.Move>)
    ensures forall m :: m in r <==> m in moves && m !in keys
    ensures (forall i, j | 0 <= i < j < |moves| :: moves[i] != moves[j]) ==>
              forall i, j | 0 <= i < j < |r| :: r[i] != r[j]
  {
    if moves == [] then []
    else
      var rest := Fresh(moves[1..], keys);
      assert forall i, j | 0 <= i < j < |moves| - 1 :: moves[1..][i] == moves[i + 1] && moves[1..][j] == moves[j + 1];
      if moves[0] in keys then rest
      else
        assert (forall i, j | 0 <= i < j < |moves| :: moves[i] != moves[j]) ==> moves[0] !in moves[1..];
        [moves[0]] + rest
  }

  /** The offered candidates are exactly the moves whose lookup misses, in iteration order. */
  lemma {:induction false} UnexpandedIsFresh(index: MoveIndex.Trie<Mnk.Move>, moves: seq<Mnk.Move>, hash: Mnk.Move -> nat)
    requires MoveIndex.WellFormed(index) && MoveIndex.Placed(index, hash, 0)
    ensures CandidateMoves(Unexpanded(index, moves, hash)) == Fresh(moves, MoveIndex.Keys(index))
  {
    if moves != [] {
      var m := moves[0];
      UnexpandedIsFresh(index, moves[1..], hash);
      MoveIndex.FindIff(index, hash, 0, m);
      assert MoveIndex.Shift(hash(m), 0) == hash(m);
      var rest := Unexpanded(index, moves[1..], hash);
      if m !in MoveIndex.Keys(index) {
        var c := Candidate(m, MoveIndex.Find(index, m, hash(m)).path);
        assert Unexpanded(index, moves, hash) == [c] + rest;
        CandidateMovesCons(c, rest);
      }
    }
  }

  lemma CandidateMovesCons(c: Candidate, cs: seq<Candidate>)
    ensures CandidateMoves([c] + cs) == [c.move] + CandidateMoves(cs)
  {
  }

  /** Every legal move not yet a child is offered, once, and no other move is. */
  lemma UnexpandedMoves(index: MoveIndex.Trie<Mnk.Move>, moves: seq<Mnk.Move>, hash: Mnk.Move -> nat)
    requires MoveIndex.WellFormed(index) && MoveIndex.Placed(index, hash, 0)
    ensures var u := Unexpanded(index, moves, hash);
            forall m :: (exists i | 0 <= i < |u| :: u[i].move == m) <==> m in moves && m !in MoveIndex.Keys(index)
    ensures (forall i, j | 0 <= i < j < |moves| :: moves[i] != moves[j]) ==>
              var u := Unexpanded(index, moves, hash);
              forall i, j | 0 <= i < j < |u| :: u[i].move != u[j].move
  {
    var u := Unexpanded(index, moves, hash);
    UnexpandedIsFresh(index, moves, hash);
    var f := CandidateMoves(u);
    assert forall i | 0 <= i < |u| :: u[i].move == f[i];
    forall m ensures (exists i | 0 <= i < |u| :: u[i].move == m) <==> m in f {
      if m in f {
        var i :| 0 <= i < |f| && f[i] == m;
        assert u[i].move == m;
      }
    }
  }

  /** The moves of a sequence that lie in a set. */
  function Among(moves: seq<Mnk.Move>, keys: set<Mnk.Move>): set<Mnk.Move> {
    set m | m in moves && m in keys
  }

  /** Exactly the moves not yet in the index are offered: for distinct moves, the offered ones
      and the indexed ones together number the moves. */
  lemma {:induction false} UnexpandedCount(index: MoveIndex.Trie<Mnk.Move>, moves: seq<Mnk.Move>, hash: Mnk.Move -> nat)
    requires MoveIndex.WellFormed(index) && MoveIndex.Placed(index, hash, 0)
    requires forall i, j | 0 <= i < j < |moves| :: moves[i] != moves[j]
    ensures |Unexpanded(index, moves, hash)| + |Among(moves, MoveIndex.Keys(index))| == |moves|
  {
    if moves != [] {
      var m := moves[0];
      var rest := moves[1..];
      var keys := MoveIndex.Keys(index);
      UnexpandedCount(index, rest, hash);
      MoveIndex.FindIff(index, hash, 0, m);
      assert MoveIndex.Shift(hash(m), 0) == hash(m);
      assert m !in rest;
      if m in keys {
        assert Among(moves, keys) == Among(rest, keys) + {m};
      } else {
        assert Among(moves, keys) == Among(rest, keys);
      }
    }
  }

  /** No offered move is already a child. */
  lemma UnexpandedAreNew(index: MoveIndex.Trie<Mnk.Move>, moves: seq<Mnk.Move>, hash: Mnk.Move -> nat, i: nat)
    requires MoveIndex.WellFormed(index) && MoveIndex.Placed(index, hash, 0)
    requires i < |Unexpanded(index, moves, hash)|
    ensures Unexpanded(index, moves, hash)[i].move !in MoveIndex.Keys(index)
  {
    var m := Unexpanded(index, moves, hash)[i].move;
    MoveIndex.FindIff(index, hash, 0, m);
    assert MoveIndex.Shift(hash(m), 0) == hash(m);
  }

  /** With distinct moves, the children's move set has one move per child. */
  lemma {:induction false} ChildMovesCount(cs: seq<Node>)
    requires DistinctMoves(cs)
    ensures |ChildMoves(cs)| == |cs|
  {
    if cs != [] {
      var init := cs[..|cs| - 1];
      ChildMovesCount(init);
      assert ChildMoves(cs) == ChildMoves(init) + {cs[|cs| - 1].move} by {
        assert forall i | 0 <= i < |init| :: init[i] == cs[i];
      }
      assert cs[|cs| - 1].move !in ChildMoves(init);
    }
  }

  /** The children and their entries after a splice: the old ones and the new one. */
  lemma SpliceChildren(cs: seq<Node>, c: Node)
    ensures var r := Splice(cs, c);
            && ChildEntries(r) == ChildEntries(cs) + {(c.id, c.move)}
            && ChildMoves(r) == ChildMoves(cs) + {c.move}
            && (DistinctMoves(cs) && c.move !in ChildMoves(cs) ==> DistinctMoves(r))
            && forall j | 0 <= j < |r| :: r[j] == c || r[j] in cs
  {
    var r := Splice(cs, c);
    var p := SplicePosition(cs);
    assert forall j | 0 <= j < p :: r[j] == cs[j] by {
      assert forall j | 0 <= j < p :: r[j] == (r[..p] + r[p + 1..])[j];
    }
    assert forall j | p < j < |r| :: r[j] == cs[j - 1] by {
      assert forall j | p < j < |r| :: r[j] == (r[..p] + r[p + 1..])[j - 1];
    }
  }

  /** What expansion leaves: the expanded node, the pool, the draws, the state reached (the
      new child's when one was added) and the info buffer. */
  datatype Expansion = Expansion(node: Node, pool: NodePool.Pool, draws: nat, state: Mnk.State,
                                 scores: seq<int>, grown: bool)

  /** The expansion step at a node of a live state: offer every legal move the index does not
      hold to the reservoir, record one less than their number as the moves left, and when
      there was one, add the held move as a new child under a node from the pool, in the index
      at the slot its lookup ended on and in the list behind the head. */
  function Expand(n: Node, st: Mnk.State, pool: NodePool.Pool, draws: nat, scores: seq<int>, env: Env): (x: Expansion)
    requires Local(n, st, KeyHash(env)) && NodePool.Valid(pool) && |scores| == 2
    ensures NodePool.Valid(x.pool) && |x.scores| == 2 && Mnk.Valid(x.state)
    ensures x.draws >= draws
    ensures x.node.id == n.id && x.node.move == n.move && x.node.instantWinner == n.instantWinner
    ensures x.node.currentPlayer == n.currentPlayer
    ensures x.node.numVisits == n.numVisits && x.node.numWins == n.numWins
    ensures !x.grown ==> x == Expansion(n.(numMovesLeft := -1), pool, draws, st, scores, false)
    ensures x.grown ==> |x.node.children| == |n.children| + 1
    ensures x.grown ==> x.node.children == Splice(n.children, x.node.children[SplicePosition(n.children)])
    ensures x.grown ==>
              var p := SplicePosition(n.children);
              var c := x.node.children[p];
              && x.node.children[..p] + x.node.children[p + 1..] == n.children
              && c.id == NodePool.Alloc(pool).id && x.pool == NodePool.Alloc(pool).pool
              && Mnk.Legal(st, c.move) && c.move !in ChildMoves(n.children)
              && x.state == Mnk.ApplyMove(st, c.move)
              && c.numVisits == 0 && c.numWins == 0 && c.children == [] && c.numMovesLeft == -1
  {
    var hash := KeyHash(env);
    var legal := Mnk.LegalMoves(st);
    var cands := Unexpanded(n.index, legal, hash);
    var pick := Reservoir.Run(cands, draws, env.coin);
    if |cands| == 0 then Expansion(n.(numMovesLeft := -1), pool, pick.draws, st, scores, false)
    else
      var cand := cands[pick.index];
      UnexpandedAreNew(n.index, legal, hash, pick.index);
      var a := NodePool.Alloc(pool);
      var st' := Mnk.ApplyMove(st, cand.move);
      var info := Mnk.Inspect(st', scores);
      var child := Node(a.id, cand.move, -1, InstantWinner(info), info.currentPlayer, 0, 0, [], MoveIndex.Vacant);
      var index := MoveIndex.InsertAt(n.index, cand.slot, a.id, cand.move);
      Expansion(n.(numMovesLeft := |cands| - 1, children := Splice(n.children, child), index := index),
                a.pool, pick.draws, st', info.scores, true)
  }

  /** A new child, as the expansion step builds it, stands for the state its move leads to. */
  lemma NewChildMirrors(st: Mnk.State, m: Mnk.Move, id: nat, scores: seq<int>, hash: Mnk.Move -> nat)
    requires Mnk.Valid(st) && Mnk.Live(st) && Mnk.Legal(st, m) && |scores| == 2
    ensures var info := Mnk.Inspect(Mnk.ApplyMove(st, m), scores);
            ChildMirrors(Node(id, m, -1, InstantWinner(info), info.currentPlayer, 0, 0, [], MoveIndex.Vacant), st, hash)
  {
    var st' := Mnk.ApplyMove(st, m);
    InstantWinnerIsScoredWinner(st', scores);
    var info := Mnk.Inspect(st', scores);
    var c := Node(id, m, -1, InstantWinner(info), info.currentPlayer, 0, 0, [], MoveIndex.Vacant);
    assert Indexed(c, hash);
    assert Local(c, st', hash);
  }

  /** The offered moves number the legal moves that are not yet children. */
  lemma UnexpandedIsLeft(n: Node, st: Mnk.State, hash: Mnk.Move -> nat)
    requires Mirrors(n, st, hash)
    ensures |Unexpanded(n.index, Mnk.LegalMoves(st), hash)| == |Mnk.LegalMoves(st)| - |n.children|
  {
    var legal := Mnk.LegalMoves(st);
    UnexpandedCount(n.index, legal, hash);
    ChildMovesCount(n.children);
    assert Among(legal, MoveIndex.Keys(n.index)) == ChildMoves(n.children) by {
      forall m | m in ChildMoves(n.children) ensures m in legal {
        var i :| 0 <= i < |n.children| && n.children[i].move == m;
        assert ChildMirrors(n.children[i], st, hash);
      }
    }
  }

  /** A node keeps mirroring the game when a new child that stands for a legal move not yet
      among its children is spliced into its list and stored in its index, and the moves left
      are counted again. */
  lemma SpliceMirrors(n: Node, st: Mnk.State, c: Node, index: MoveIndex.Trie<Mnk.Move>, left: int, hash: Mnk.Move -> nat)
    requires Mirrors(n, st, hash) && Mnk.Live(st)
    requires ChildMirrors(c, st, hash) && c.move !in ChildMoves(n.children)
    requires MoveIndex.WellFormed(index) && MoveIndex.Placed(index, hash, 0) && index.Entry?
    requires MoveIndex.Entries(index) == MoveIndex.Entries(n.index) + {(c.id, c.move)}
    requires MoveIndex.Keys(index) == MoveIndex.Keys(n.index) + {c.move}
    requires n.index.Entry? ==> index.id == n.index.id && index.key == n.index.key
    requires n.index.Vacant? ==> index.id == c.id && index.key == c.move
    requires left >= 0 && left + |n.children| + 1 == |Mnk.LegalMoves(st)|
    ensures Mirrors(n.(numMovesLeft := left, children := Splice(n.children, c), index := index), st, hash)
  {
    var r := n.(numMovesLeft := left, children := Splice(n.children, c), index := index);
    SpliceIndexed(n, c, index, hash);
    assert Local(r, st, hash);
    SpliceChildMirrors(n.children, c, st, hash);
  }

  lemma SpliceChildMirrors(cs: seq<Node>, c: Node, st: Mnk.State, hash: Mnk.Move -> nat)
    requires forall j | 0 <= j < |cs| :: ChildMirrors(cs[j], st, hash)
    requires ChildMirrors(c, st, hash)
    ensures forall j | 0 <= j < |Splice(cs, c)| :: ChildMirrors(Splice(cs, c)[j], st, hash)
  {
    var r := Splice(cs, c);
    forall j | 0 <= j < |r| ensures ChildMirrors(r[j], st, hash) {
      if j != SplicePosition(cs) {
        SpliceOthers(cs, c, j);
        var k :| 0 <= k < |cs| && cs[k] == r[j];
      }
    }
  }

  lemma SpliceIndexed(n: Node, c: Node, index: MoveIndex.Trie<Mnk.Move>, hash: Mnk.Move -> nat)
    requires Indexed(n, hash) && c.move !in ChildMoves(n.children)
    requires MoveIndex.WellFormed(index) && MoveIndex.Placed(index, hash, 0) && index.Entry?
    requires MoveIndex.Entries(index) == MoveIndex.Entries(n.index) + {(c.id, c.move)}
    requires MoveIndex.Keys(index) == MoveIndex.Keys(n.index) + {c.move}
    requires n.index.Entry? ==> index.id == n.index.id && index.key == n.index.key
    requires n.index.Vacant? ==> index.id == c.id && index.key == c.move
    ensures Indexed(n.(children := Splice(n.children, c), index := index), hash)
  {
    SpliceChildren(n.children, c);
    if n.children == [] {
      assert Splice(n.children, c)[0] == c;
    }
  }

  /** At a node the descent stops at, of a live state, the expansion adds a child: the number
      of moves offered is the number of legal moves not yet children, never zero; the draws
      taken are one less; and the node still mirrors the game with the new child counted. */
  lemma ExpandMirrors(n: Node, st: Mnk.State, pool: NodePool.Pool, draws: nat, scores: seq<int>, env: Env)
    requires Mirrors(n, st, KeyHash(env)) && Mnk.Live(st) && n.numMovesLeft != 0
    requires NodePool.Valid(pool) && |scores| == 2
    ensures var x := Expand(n, st, pool, draws, scores, env);
            && x.grown
            && x.draws == draws + |Mnk.LegalMoves(st)| - |n.children| - 1
            && Mirrors(x.node, st, KeyHash(env))
            && x.scores == Mnk.Inspect(x.state, scores).scores
  {
    var hash := KeyHash(env);
    var legal := Mnk.LegalMoves(st);
    var cands := Unexpanded(n.index, legal, hash);
    UnexpandedIsLeft(n, st, hash);
    Mnk.LiveHasMoves(st);
    assert |cands| > 0;
    var pick := Reservoir.Run(cands, draws, env.coin);
    var cand := cands[pick.index];
    UnexpandedAreNew(n.index, legal, hash, pick.index);
    var a := NodePool.Alloc(pool);
    var st' := Mnk.ApplyMove(st, cand.move);
    var info := Mnk.Inspect(st', scores);
    var child := Node(a.id, cand.move, -1, InstantWinner(info), info.currentPlayer, 0, 0, [], MoveIndex.Vacant);
    var index := MoveIndex.InsertAt(n.index, cand.slot, a.id, cand.move);
    var x := Expand(n, st, pool, draws, scores, env);
    assert x == Expansion(n.(numMovesLeft := |cands| - 1, children := Splice(n.children, child), index := index),
                          a.pool, pick.draws, st', info.scores, true);
    NewChildMirrors(st, cand.move, a.id, scores, hash);
    assert MoveIndex.Shift(hash(cand.move), 0) == hash(cand.move);
    MoveIndex.InsertKeepsPlaced(n.index, hash, 0, a.id, cand.move);
    SpliceMirrors(n, st, child, index, |cands| - 1, hash);
  }

  /** The positions of a spliced list other than the new child's hold the old children. */
  lemma SpliceOthers(cs: seq<Node>, c: Node, j: nat)
    requires j < |Splice(cs, c)| && j != SplicePosition(cs)
    ensures Splice(cs, c)[j] in cs
  {
    var r := Splice(cs, c);
    var p := SplicePosition(cs);
    if j < p {
      assert r[j] == (r[..p] + r[p + 1..])[j];
    } else {
      assert r[j] == (r[..p] + r[p + 1..])[j - 1];
    }
  }

  /** Splicing a fresh leaf into a node adds its one id, keeps the win counts bounded, and
      leaves every child but the leaf visited. */
  lemma SpliceCounters(n: Node, r: Node, c: Node)
    requires r.id == n.id && r.numWins == n.numWins && r.numVisits == n.numVisits
    requires r.children == Splice(n.children, c)
    requires c.children == [] && c.numWins == 0 && c.numVisits == 0
    ensures Ids(r) == Ids(n) + multiset{c.id}
    ensures Bounded(n) ==> Bounded(r)
    ensures ValidPath(r, [SplicePosition(n.children)])
    ensures Visited(n) ==> VisitedBut(r, [SplicePosition(n.children)])
  {
    var p := SplicePosition(n.children);
    assert Ids(c) == multiset{c.id};
    SpliceIds(n.children, c);
    assert ([p])[1..] == [];
    if Bounded(n) {
      forall j | 0 <= j < |r.children| ensures Bounded(r.children[j]) {
        if j != p {
          SpliceOthers(n.children, c, j);
        }
      }
    }
    if Visited(n) {
      forall j | 0 <= j < |r.children| && j != p
        ensures r.children[j].numVisits >= 1 && Visited(r.children[j])
      {
        SpliceOthers(n.children, c, j);
      }
    }
  }

  /** The expansion adds exactly one node, taken from the pool, and keeps the win counts
      bounded; every node but the new child keeps its visits. */
  lemma ExpandCounters(n: Node, st: Mnk.State, pool: NodePool.Pool, draws: nat, scores: seq<int>, env: Env)
    requires Local(n, st, KeyHash(env)) && NodePool.Valid(pool) && |scores| == 2
    ensures var x := Expand(n, st, pool, draws, scores, env);
            && Ids(x.node) == Ids(n) + (if x.grown then multiset{NodePool.Alloc(pool).id} else multiset{})
            && (Bounded(n) ==> Bounded(x.node))
            && (x.grown ==> ValidPath(x.node, [SplicePosition(n.children)]))
            && (x.grown && Visited(n) ==> VisitedBut(x.node, [SplicePosition(n.children)]))
  {
    var x := Expand(n, st, pool, draws, scores, env);
    if x.grown {
      SpliceCounters(n, x.node, x.node.children[SplicePosition(n.children)]);
    } else {
      assert x.node.children == n.children;
    }
  }

  // ---------------------------------------------------------------------------------------
  // Selection (the descent of monte_iterate).

  /** From node n: while the node has no move left to expand, go to the child Choose takes,
      `player` being the root's player at every level; stop where there is no child to take.
      The state reached is StateAt of the path. */
  function Descend(n: Node, player: int, uct: (int, int, int) -> real): (path: seq<nat>)
    ensures ValidPath(n, path)
    ensures NodeAt(n, path).numMovesLeft != 0 || NodeAt(n, path).children == []
    decreases n
  {
    if n.numMovesLeft != 0 then []
    else
      match Choose(n.children, player, uct, n.numVisits)
      case None => []
      case Some(i) =>
        var d := Descend(n.children[i], player, uct);
        PathCons(n, i, d);
        [i] + d
  }

  lemma PathCons(n: Node, i: nat, q: seq<nat>)
    requires i < |n.children| && ValidPath(n.children[i], q)
    ensures ValidPath(n, [i] + q) && NodeAt(n, [i] + q) == NodeAt(n.children[i], q)
  {
    assert ([i] + q)[0] == i && ([i] + q)[1..] == q;
  }

  /** Each step of the descent leaves a node with no move left to expand, by the child Choose
      takes there. */
  lemma {:induction false} DescendFollowsChoice(n: Node, player: int, uct: (int, int, int) -> real, k: nat)
    requires k < |Descend(n, player, uct)|
    ensures var path := Descend(n, player, uct);
            && ValidPath(n, path[..k])
            && NodeAt(n, path[..k]).numMovesLeft == 0
            && Choose(NodeAt(n, path[..k]).children, player, uct, NodeAt(n, path[..k]).numVisits) == Some(path[k])
    decreases n
  {
    var path := Descend(n, player, uct);
    assert n.numMovesLeft == 0;
    var i := Choose(n.children, player, uct, n.numVisits).value;
    var d := Descend(n.children[i], player, uct);
    assert path == [i] + d;
    if k > 0 {
      DescendFollowsChoice(n.children[i], player, uct, k - 1);
      assert path[..k] == [i] + d[..k - 1];
      PathCons(n, i, d[..k - 1]);
      assert path[k] == d[k - 1];
    } else {
      assert path[..k] == [];
    }
  }

  /** Where the descent stops on a live state, there is a move left to expand. */
  lemma DescentStopsToExpand(n: Node, st: Mnk.State, player: int, env: Env)
    requires Mirrors(n, st, KeyHash(env))
    ensures var path := Descend(n, player, env.uct);
            Mnk.Live(StateAt(n, st, path, KeyHash(env))) ==> NodeAt(n, path).numMovesLeft != 0
  {
    var path := Descend(n, player, env.uct);
    var s := StateAt(n, st, path, KeyHash(env));
    if Mnk.Live(s) {
      Mnk.LiveHasMoves(s);
    }
  }

  // ---------------------------------------------------------------------------------------
  // Simulation (monte_pick_move_for_simulation and the simulation loop of monte_iterate).

  /** The finished game a playout reaches, the draws taken, and the info buffer. */
  datatype Playout = Playout(state: Mnk.State, draws: nat, scores: seq<int>)

  /** Play reservoir-sampled legal moves until the game is over, inspecting after each. */
  function Simulate(st: Mnk.State, draws: nat, scores: seq<int>, coin: (nat, nat) -> bool): (r: Playout)
    requires Mnk.Valid(st) && |scores| == 2
    ensures Mnk.Valid(r.state) && !Mnk.Live(r.state) && |r.scores| == 2
    ensures r.state.config == st.config && r.state.numSpaces <= st.numSpaces
    ensures forall x, y | Mnk.Get(st, x, y) != Mnk.NoPlayer :: Mnk.Get(r.state, x, y) == Mnk.Get(st, x, y)
    ensures r.draws >= draws
    ensures !Mnk.Live(st) ==> r == Playout(st, draws, scores)
    ensures Mnk.Live(st) ==> r.scores == Mnk.Inspect(r.state, scores).scores
    decreases st.numSpaces
  {
    if !Mnk.Live(st) then Playout(st, draws, scores)
    else
      var t := PlayoutStep(st, draws, scores, coin);
      var r := Simulate(t.state, t.draws, t.scores, coin);
      if Mnk.Live(t.state) then
        Mnk.TerminalScores(r.state, t.scores, scores);
        r
      else r
  }

  /** One round of the playout loop: a reservoir-sampled legal move is played and the state
      inspected. */
  function PlayoutStep(st: Mnk.State, draws: nat, scores: seq<int>, coin: (nat, nat) -> bool): (t: Playout)
    requires Mnk.Valid(st) && Mnk.Live(st) && |scores| == 2
    ensures Mnk.Valid(t.state) && |t.scores| == 2 && t.draws >= draws
    ensures t.state.config == st.config && t.state.numSpaces == st.numSpaces - 1
    ensures forall x, y | Mnk.Get(st, x, y) != Mnk.NoPlayer :: Mnk.Get(t.state, x, y) == Mnk.Get(st, x, y)
    ensures t.scores == Mnk.Inspect(t.state, scores).scores
  {
    var moves := Mnk.LegalMoves(st);
    Mnk.LiveHasMoves(st);
    var pick := Reservoir.Run(moves, draws, coin);
    var st' := Mnk.ApplyMove(st, moves[pick.index]);
    Playout(st', pick.draws, Mnk.Inspect(st', scores).scores)
  }

  /** A playout ends with the scores of the finished game it reached, each in {-1, 0, 1}. */
  lemma SimulateScores(st: Mnk.State, draws: nat, scores: seq<int>, coin: (nat, nat) -> bool)
    requires Mnk.Valid(st) && |scores| == 2
    requires !Mnk.Live(st) ==> UnitScores(scores)
    ensures UnitScores(Simulate(st, draws, scores, coin).scores)
  {
    var r := Simulate(st, draws, scores, coin);
    if Mnk.Live(st) {
      Mnk.TerminalScores(r.state, scores, scores);
    }
  }

  // ---------------------------------------------------------------------------------------
  // Backpropagation changes counters only.

  lemma {:induction false} MirrorsSameShape(a: Node, b: Node, st: Mnk.State, hash: Mnk.Move -> nat)
    requires SameShape(a, b) && Mirrors(a, st, hash)
    ensures Mirrors(b, st, hash)
    decreases a
  {
    LocalSameShape(a, b, st, hash);
    forall j | 0 <= j < |b.children| ensures ChildMirrors(b.children[j], st, hash) {
      var c := a.children[j];
      assert ChildMirrors(c, st, hash);
      MirrorsSameShape(c, b.children[j], Mnk.ApplyMove(st, c.move), hash);
    }
  }

  lemma LocalSameShape(a: Node, b: Node, st: Mnk.State, hash: Mnk.Move -> nat)
    requires SameShape(a, b) && Local(a, st, hash)
    ensures Local(b, st, hash)
  {
    assert forall j | 0 <= j < |b.children| :: b.children[j].id == a.children[j].id && b.children[j].move == a.children[j].move;
    assert ChildEntries(b.children) == ChildEntries(a.children);
    assert ChildMoves(b.children) == ChildMoves(a.children);
  }

  // ---------------------------------------------------------------------------------------
  // The engine.

  /** `monte_t`: the root, the current state, the node pool, the number of random numbers drawn
      so far from the generator, and the scores in the info buffer. */
  datatype Engine = Engine(root: Node, current: Mnk.State, pool: NodePool.Pool, draws: nat, scores: seq<int>)

  /** Each id in the bag is counted once. */
  predicate Unique(ids: multiset<NodeId>) {
    forall x | x in ids :: ids[x] == 1
  }

  /** The ids in use and the free list are distinct nodes handed out by the allocator. */
  predicate OwnsIds(ids: multiset<NodeId>, pool: NodePool.Pool) {
    && NodePool.Valid(pool)
    && (forall x | x in ids :: x < pool.nextId)
    && Unique(ids + multiset(pool.freeList))
  }

  predicate Owns(root: Node, pool: NodePool.Pool) {
    OwnsIds(Ids(root), pool)
  }

  /** What every engine built by Create and kept by Iterate and Play satisfies. */
  predicate Inv(e: Engine, env: Env) {
    && Mirrors(e.root, e.current, KeyHash(env))
    && |e.scores| == 2
    && Bounded(e.root) && Visited(e.root)
    && Owns(e.root, e.pool)
  }

  /** monte_create: a root from the empty pool that has not been expanded, recording the
      player to move of the initial state; the info buffer, whatever it held, is overwritten by
      that inspection. */
  function Create(initial: Mnk.State, buffer: seq<int>): (e: Engine)
    requires Mnk.Valid(initial) && |buffer| == 2
    ensures e.current == initial && e.draws == 0
    ensures e.root.children == [] && e.root.numMovesLeft == -1
    ensures e.root.numVisits == 0 && e.root.numWins == 0
    ensures e.root.currentPlayer == initial.player
    ensures Ids(e.root) == multiset{0} && e.pool == NodePool.Pool([], 1)
  {
    var a := NodePool.Alloc(NodePool.Pool([], 0));
    var info := Mnk.Inspect(initial, buffer);
    Engine(Blank(a.id, info.currentPlayer), initial, a.pool, 0, info.scores)
  }

  lemma CreateInv(initial: Mnk.State, buffer: seq<int>, env: Env)
    requires Mnk.Valid(initial) && |buffer| == 2
    ensures Inv(Create(initial, buffer), env)
  {
    var e := Create(initial, buffer);
    assert Indexed(e.root, KeyHash(env));
    assert Local(e.root, initial, KeyHash(env));
  }

  // ---------------------------------------------------------------------------------------
  // monte_iterate.

  /** The tree after selection and expansion, the path to the node backpropagation starts
      from, and what the simulation starts from. */
  datatype Stage = Stage(tree: Node, path: seq<nat>, state: Mnk.State, pool: NodePool.Pool,
                         draws: nat, scores: seq<int>)

  /** Selection and expansion: descend, inspect the state reached, and unless the game is over
      there, expand the node and continue from the new child. */
  function Grow(e: Engine, env: Env): (g: Stage)
    requires Inv(e, env)
    ensures ValidPath(g.tree, g.path) && MoversOnPath(g.tree, g.path, Players)
    ensures Mnk.Valid(g.state) && |g.scores| == 2 && (!Mnk.Live(g.state) ==> UnitScores(g.scores))
  {
    var hash := KeyHash(env);
    var path := Descend(e.root, e.root.currentPlayer, env.uct);
    var st := StateAt(e.root, e.current, path, hash);
    var info := Mnk.Inspect(st, e.scores);
    if info.currentPlayer == Mnk.NoPlayer then
      MirrorsMovers(e.root, e.current, path, hash);
      Mnk.TerminalScores(st, e.scores, e.scores);
      Stage(e.root, path, st, e.pool, e.draws, info.scores)
    else
      DescentStopsToExpand(e.root, e.current, e.root.currentPlayer, env);
      GrowAt(e.root, e.current, path, e.pool, e.draws, info.scores, env)
  }

  /** The expansion step at the end of the descent, on a live state. Under the invariant the
      expansion always finds a move (ExpandMirrors), so the case of no candidate is not
      written out. */
  function GrowAt(root: Node, current: Mnk.State, path: seq<nat>, pool: NodePool.Pool, draws: nat,
                  scores: seq<int>, env: Env): (g: Stage)
    requires Mirrors(root, current, KeyHash(env)) && ValidPath(root, path)
    requires Mnk.Live(StateAt(root, current, path, KeyHash(env))) && NodeAt(root, path).numMovesLeft != 0
    requires NodePool.Valid(pool) && |scores| == 2
    ensures ValidPath(g.tree, g.path) && MoversOnPath(g.tree, g.path, Players)
    ensures Mnk.Valid(g.state) && |g.scores| == 2 && (!Mnk.Live(g.state) ==> UnitScores(g.scores))
  {
    var hash := KeyHash(env);
    var leaf := NodeAt(root, path);
    var x := Expand(leaf, StateAt(root, current, path, hash), pool, draws, scores, env);
    GrowAtFacts(root, current, path, pool, draws, scores, env);
    Stage(Replace(root, path, x.node), path + [SplicePosition(leaf.children)], x.state, x.pool, x.draws, x.scores)
  }

  /** The tree after the expansion step still mirrors the game, and the path extended to the
      new child is one backpropagation can follow. */
  lemma GrowAtFacts(root: Node, current: Mnk.State, path: seq<nat>, pool: NodePool.Pool, draws: nat,
                    scores: seq<int>, env: Env)
    requires Mirrors(root, current, KeyHash(env)) && ValidPath(root, path)
    requires Mnk.Live(StateAt(root, current, path, KeyHash(env))) && NodeAt(root, path).numMovesLeft != 0
    requires NodePool.Valid(pool) && |scores| == 2
    ensures var x := Expand(NodeAt(root, path), StateAt(root, current, path, KeyHash(env)), pool, draws, scores, env);
            var tree := Replace(root, path, x.node);
            var p := path + [SplicePosition(NodeAt(root, path).children)];
            && Mirrors(tree, current, KeyHash(env))
            && ValidPath(tree, p) && MoversOnPath(tree, p, Players)
            && (!Mnk.Live(x.state) ==> UnitScores(x.scores))
  {
    var hash := KeyHash(env);
    var leaf := NodeAt(root, path);
    var st := StateAt(root, current, path, hash);
    var x := Expand(leaf, st, pool, draws, scores, env);
    ExpandMirrors(leaf, st, pool, draws, scores, env);
    var tree := Replace(root, path, x.node);
    ReplaceMirrors(root, current, path, x.node, hash);
    var pos := SplicePosition(leaf.children);
    ValidPathExtend(tree, path, pos);
    MirrorsMovers(tree, current, path + [pos], hash);
    if !Mnk.Live(x.state) {
      Mnk.TerminalScores(x.state, scores, scores);
    }
  }

  /** monte_iterate: selection, expansion, a playout from the node reached, and
      backpropagation of the playout's scores along the path. The current state is left as it
      was. */
  function Iterate(e: Engine, env: Env): (r: Engine)
    requires Inv(e, env)
    ensures r.current == e.current
    ensures r.root.numVisits == e.root.numVisits + 1 && r.root.numWins == e.root.numWins
    ensures r.draws >= e.draws
  {
    var g := Grow(e, env);
    var sim := Simulate(g.state, g.draws, g.scores, env.coin);
    Engine(Backprop(g.tree, g.path, sim.scores), e.current, g.pool, sim.draws, sim.scores)
  }

  // ---------------------------------------------------------------------------------------
  // Ownership of node ids.

  lemma UniqueSub(a: multiset<NodeId>, b: multiset<NodeId>)
    requires a <= b && Unique(b)
    ensures Unique(a)
  {
    forall x | x in a ensures a[x] == 1 {
      assert a[x] <= b[x];
    }
  }

  lemma RepeatCounts(s: seq<NodeId>, i: nat, j: nat)
    requires i < j < |s| && s[i] == s[j]
    ensures multiset(s)[s[i]] >= 2
  {
    assert s == s[..j] + s[j..];
    assert s[i] in multiset(s[..j]) && s[j] in multiset(s[j..]);
  }

  /** A list whose multiset counts each element once has no repeated element. */
  lemma DistinctOfUnique(s: seq<NodeId>)
    requires Unique(multiset(s))
    ensures NodePool.Distinct(s)
  {
    forall i, j | 0 <= i < j < |s| && s[i] == s[j] ensures multiset(s)[s[i]] >= 2 {
      RepeatCounts(s, i, j);
    }
  }

  /** Allocation moves one id from the pool into use, or hands out a new one. */
  lemma AllocOwns(ids: multiset<NodeId>, pool: NodePool.Pool)
    requires OwnsIds(ids, pool)
    ensures OwnsIds(ids + multiset{NodePool.Alloc(pool).id}, NodePool.Alloc(pool).pool)
  {
    var a := NodePool.Alloc(pool);
    var bag := ids + multiset{a.id} + multiset(a.pool.freeList);
    if pool.freeList != [] {
      assert bag == ids + multiset(pool.freeList);
    } else {
      assert a.id !in ids;
      assert bag == ids + multiset(pool.freeList) + multiset{a.id};
    }
  }

  /** Releasing the trees of the stack moves their ids from use into the pool. */
  lemma RecycleOwns(ids: multiset<NodeId>, stack: seq<Node>, pool: NodePool.Pool)
    requires OwnsIds(ids + ForestIds(stack), pool)
    ensures OwnsIds(ids, Recycle(stack, pool))
  {
    var r := Recycle(stack, pool);
    var bag := ids + ForestIds(stack) + multiset(pool.freeList);
    assert ids + multiset(r.freeList) == bag;
    UniqueSub(multiset(r.freeList), bag);
    DistinctOfUnique(r.freeList);
    forall i | 0 <= i < |r.freeList| ensures r.freeList[i] < r.nextId {
      var x := r.freeList[i];
      assert x in multiset(r.freeList);
      if x !in multiset(pool.freeList) {
        assert x in ForestIds(stack);
        assert x in ids + ForestIds(stack);
      } else {
        assert x in pool.freeList;
      }
    }
    assert NodePool.Valid(r);
    assert forall x | x in ids :: x in ids + ForestIds(stack);
  }

  // ---------------------------------------------------------------------------------------
  // Counters below a path.

  lemma {:induction false} BoundedAt(n: Node, path: seq<nat>)
    requires ValidPath(n, path) && Bounded(n)
    ensures Bounded(NodeAt(n, path))
    decreases |path|
  {
    if path != [] {
      BoundedAt(n.children[path[0]], path[1..]);
    }
  }

  lemma {:induction false} VisitedAt(n: Node, path: seq<nat>)
    requires ValidPath(n, path) && Visited(n)
    ensures Visited(NodeAt(n, path)) && VisitedBut(n, path)
    decreases |path|
  {
    if path != [] {
      VisitedAt(n.children[path[0]], path[1..]);
    }
  }

  // ---------------------------------------------------------------------------------------
  // monte_iterate keeps the invariant.

  /** The expansion step keeps the counters bounded and leaves only the path to the new child
      unvisited. */
  lemma GrowAtCounters(root: Node, current: Mnk.State, path: seq<nat>, pool: NodePool.Pool, draws: nat,
                       scores: seq<int>, env: Env)
    requires Mirrors(root, current, KeyHash(env)) && ValidPath(root, path)
    requires Mnk.Live(StateAt(root, current, path, KeyHash(env))) && NodeAt(root, path).numMovesLeft != 0
    requires NodePool.Valid(pool) && |scores| == 2
    requires Bounded(root) && Visited(root)
    ensures var g := GrowAt(root, current, path, pool, draws, scores, env);
            Bounded(g.tree) && VisitedBut(g.tree, g.path)
  {
    var hash := KeyHash(env);
    var leaf := NodeAt(root, path);
    var st := StateAt(root, current, path, hash);
    var x := Expand(leaf, st, pool, draws, scores, env);
    ExpandMirrors(leaf, st, pool, draws, scores, env);
    BoundedAt(root, path);
    VisitedAt(root, path);
    ExpandCounters(leaf, st, pool, draws, scores, env);
    ReplaceBounded(root, path, x.node);
    ReplaceVisited(root, path, x.node, [SplicePosition(leaf.children)]);
  }

  /** The expansion step takes the new node from the pool. */
  lemma GrowAtOwns(root: Node, current: Mnk.State, path: seq<nat>, pool: NodePool.Pool, draws: nat,
                   scores: seq<int>, env: Env)
    requires Mirrors(root, current, KeyHash(env)) && ValidPath(root, path)
    requires Mnk.Live(StateAt(root, current, path, KeyHash(env))) && NodeAt(root, path).numMovesLeft != 0
    requires NodePool.Valid(pool) && |scores| == 2
    requires Owns(root, pool)
    ensures var g := GrowAt(root, current, path, pool, draws, scores, env);
            Owns(g.tree, g.pool)
  {
    var hash := KeyHash(env);
    var leaf := NodeAt(root, path);
    var st := StateAt(root, current, path, hash);
    var x := Expand(leaf, st, pool, draws, scores, env);
    ExpandMirrors(leaf, st, pool, draws, scores, env);
    ExpandCounters(leaf, st, pool, draws, scores, env);
    ReplaceIds(root, path, x.node);
    var a := NodePool.Alloc(pool);
    CancelAlgebra(Ids(Replace(root, path, x.node)), Ids(leaf), Ids(root), Ids(x.node), a.id);
    AllocOwns(Ids(root), pool);
  }

  lemma CancelAlgebra(t: multiset<NodeId>, l: multiset<NodeId>, r: multiset<NodeId>, x: multiset<NodeId>, id: NodeId)
    requires t + l == r + x && x == l + multiset{id}
    ensures t == r + multiset{id}
  {
    forall e ensures t[e] == (r + multiset{id})[e] {
      assert (t + l)[e] == (r + x)[e];
    }
  }

  lemma GrowInv(e: Engine, env: Env)
    requires Inv(e, env)
    ensures var g := Grow(e, env);
            && Mirrors(g.tree, e.current, KeyHash(env))
            && Bounded(g.tree) && VisitedBut(g.tree, g.path) && Owns(g.tree, g.pool)
  {
    var hash := KeyHash(env);
    var path := Descend(e.root, e.root.currentPlayer, env.uct);
    var st := StateAt(e.root, e.current, path, hash);
    var info := Mnk.Inspect(st, e.scores);
    if info.currentPlayer == Mnk.NoPlayer {
      VisitedAt(e.root, path);
    } else {
      DescentStopsToExpand(e.root, e.current, e.root.currentPlayer, env);
      GrowAtFacts(e.root, e.current, path, e.pool, e.draws, info.scores, env);
      GrowAtCounters(e.root, e.current, path, e.pool, e.draws, info.scores, env);
      GrowAtOwns(e.root, e.current, path, e.pool, e.draws, info.scores, env);
    }
  }

  /** An iteration keeps the invariant: the tree still mirrors the game from the current state,
      every win count stays within its visit count, every node below the root has been
      visited, and the tree and the pool own distinct ids. */
  lemma IterateKeepsInv(e: Engine, env: Env)
    requires Inv(e, env)
    ensures Inv(Iterate(e, env), env)
  {
    var g := Grow(e, env);
    GrowInv(e, env);
    var sim := Simulate(g.state, g.draws, g.scores, env.coin);
    SimulateScores(g.state, g.draws, g.scores, env.coin);
    var root := Backprop(g.tree, g.path, sim.scores);
    MirrorsSameShape(g.tree, root, e.current, KeyHash(env));
    SameShapeIds(g.tree, root);
    BackpropBounded(g.tree, g.path, sim.scores);
    BackpropVisited(g.tree, g.path, sim.scores);
  }

  // ---------------------------------------------------------------------------------------
  // monte_apply_move.

  /** The recycled subtrees together with the promoted child account for the old root's
      children, so releasing them keeps the ids owned. */
  lemma SplitOwns(root: Node, pool: NodePool.Pool, m: Mnk.Move)
    requires Owns(root, pool) && DistinctMoves(root.children)
    ensures var split := SplitChildren(root.children, m);
            OwnsIds(OptionIds(split.found), Recycle(split.recycle, pool))
  {
    var split := SplitChildren(root.children, m);
    SplitChildrenIds(root.children, m);
    var ids := OptionIds(split.found) + ForestIds(split.recycle);
    assert ids <= Ids(root);
    assert ids + multiset(pool.freeList) <= Ids(root) + multiset(pool.freeList);
    UniqueSub(ids + multiset(pool.freeList), Ids(root) + multiset(pool.freeList));
    RecycleOwns(OptionIds(split.found), split.recycle, pool);
  }

  /** monte_apply_move: split the root's children by the move played, release every node of
      every other child's subtree to the pool, advance the current state, and make the matching
      child the root, its statistics kept; when no child matches, a new unexpanded root from the
      pool records the player to move in the advanced state. The old root is not released. */
  function Play(e: Engine, m: Mnk.Move): (r: Engine)
    requires Mnk.Valid(e.current) && (Mnk.Live(e.current) ==> Mnk.Legal(e.current, m)) && |e.scores| == 2
    requires Owns(e.root, e.pool) && DistinctMoves(e.root.children)
    ensures r.current == Mnk.ApplyMove(e.current, m) && r.draws == e.draws
    ensures (exists j | 0 <= j < |e.root.children| :: e.root.children[j].move == m) ==>
              r.root in e.root.children && r.root.move == m && r.scores == e.scores
    ensures (forall j | 0 <= j < |e.root.children| :: e.root.children[j].move != m) ==>
              && r.root == Blank(r.root.id, r.current.player)
              && r.scores == Mnk.Inspect(r.current, e.scores).scores
  {
    var split := SplitChildren(e.root.children, m);
    SplitOwns(e.root, e.pool, m);
    var pool := Recycle(split.recycle, e.pool);
    var current := Mnk.ApplyMove(e.current, m);
    match split.found
    case Some(c) => Engine(c, current, pool, e.draws, e.scores)
    case None =>
      var a := NodePool.Alloc(pool);
      var info := Mnk.Inspect(current, e.scores);
      Engine(Blank(a.id, info.currentPlayer), current, a.pool, e.draws, info.scores)
  }

  /** Playing a move keeps the invariant: the promoted subtree already mirrors the game from
      the advanced state, and a new root trivially does. */
  lemma PlayKeepsInv(e: Engine, m: Mnk.Move, env: Env)
    requires Inv(e, env) && (Mnk.Live(e.current) ==> Mnk.Legal(e.current, m))
    ensures Inv(Play(e, m), env)
  {
    if SplitChildren(e.root.children, m).found.Some? {
      PlayFoundInv(e, m, env);
    } else {
      PlayFreshInv(e, m, env);
    }
  }

  /** The promoted child already mirrors the game from the advanced state. */
  lemma PlayFoundInv(e: Engine, m: Mnk.Move, env: Env)
    requires Inv(e, env) && (Mnk.Live(e.current) ==> Mnk.Legal(e.current, m))
    requires SplitChildren(e.root.children, m).found.Some?
    ensures Inv(Play(e, m), env)
  {
    var r := Play(e, m);
    var c := SplitChildren(e.root.children, m).found.value;
    PlayParts(e, m);
    SplitOwns(e.root, e.pool, m);
    var j :| 0 <= j < |e.root.children| && e.root.children[j] == c;
    assert ChildMirrors(c, e.current, KeyHash(env));
    assert r.root == c;
  }

  /** A new root trivially mirrors the advanced state. */
  lemma PlayFreshInv(e: Engine, m: Mnk.Move, env: Env)
    requires Inv(e, env) && (Mnk.Live(e.current) ==> Mnk.Legal(e.current, m))
    requires SplitChildren(e.root.children, m).found.None?
    ensures Inv(Play(e, m), env)
  {
    var r := Play(e, m);
    var split := SplitChildren(e.root.children, m);
    SplitOwns(e.root, e.pool, m);
    PlayParts(e, m);
    var pool := Recycle(split.recycle, e.pool);
    AllocOwns(multiset{}, pool);
    var a := NodePool.Alloc(pool);
    assert r == Engine(Blank(a.id, r.current.player), r.current, a.pool, r.draws, r.scores);
    assert multiset{} + multiset{a.id} == multiset{a.id};
    BlankInv(a.id, r.current, a.pool, r.draws, r.scores, env);
  }

  /** An engine whose root is new and unexpanded satisfies the invariant. */
  lemma BlankInv(id: NodeId, st: Mnk.State, pool: NodePool.Pool, draws: nat, scores: seq<int>, env: Env)
    requires Mnk.Valid(st) && |scores| == 2 && OwnsIds(multiset{id}, pool)
    ensures Inv(Engine(Blank(id, st.player), st, pool, draws, scores), env)
  {
    var root := Blank(id, st.player);
    assert Ids(root) == multiset{id};
    assert Indexed(root, KeyHash(env));
    assert Local(root, st, KeyHash(env));
  }

  /** The ids the old tree and pool held, but for the old root, are those of the promoted child
      and the pool after the release; the old root's id is among neither. */
  lemma PlayAccounts(e: Engine, m: Mnk.Move)
    requires Mnk.Valid(e.current) && (Mnk.Live(e.current) ==> Mnk.Legal(e.current, m)) && |e.scores| == 2
    requires Owns(e.root, e.pool) && DistinctMoves(e.root.children)
    ensures var split := SplitChildren(e.root.children, m);
            var ids := OptionIds(split.found) + multiset(Recycle(split.recycle, e.pool).freeList);
            && ids + multiset{e.root.id} == Ids(e.root) + multiset(e.pool.freeList)
            && e.root.id !in ids
  {
    var split := SplitChildren(e.root.children, m);
    SplitChildrenIds(e.root.children, m);
    var pool := Recycle(split.recycle, e.pool);
    var ids := OptionIds(split.found) + multiset(pool.freeList);
    assert ids + multiset{e.root.id} == Ids(e.root) + multiset(e.pool.freeList);
    assert (Ids(e.root) + multiset(e.pool.freeList))[e.root.id] == 1;
  }

  /** The old root is neither in the new tree nor in the pool: each move played leaks one
      node. */
  lemma PlayLeaksOldRoot(e: Engine, m: Mnk.Move)
    requires Mnk.Valid(e.current) && (Mnk.Live(e.current) ==> Mnk.Legal(e.current, m)) && |e.scores| == 2
    requires Owns(e.root, e.pool) && DistinctMoves(e.root.children)
    ensures e.root.id !in Ids(Play(e, m).root) + multiset(Play(e, m).pool.freeList)
  {
    var split := SplitChildren(e.root.children, m);
    var pool := Recycle(split.recycle, e.pool);
    var r := Play(e, m);
    PlayAccounts(e, m);
    PlayParts(e, m);
    SplitOwns(e.root, e.pool, m);
    assert e.root.id in Ids(e.root);
    LeakFinal(split.found, pool, e.root.id, r.root, r.pool);
  }

  lemma LeakFinal(found: Option<Node>, pool: NodePool.Pool, id: NodeId, root: Node, p: NodePool.Pool)
    requires NodePool.Valid(pool) && id < pool.nextId && id !in OptionIds(found) + multiset(pool.freeList)
    requires found.Some? ==> root == found.value && p == pool
    requires found.None? ==> Ids(root) == multiset{NodePool.Alloc(pool).id} && p == NodePool.Alloc(pool).pool
    ensures id !in Ids(root) + multiset(p.freeList)
  {
    if found.None? {
      AllocSkips(pool, id);
    }
  }

  /** Where the new root and pool come from. */
  lemma PlayParts(e: Engine, m: Mnk.Move)
    requires Mnk.Valid(e.current) && (Mnk.Live(e.current) ==> Mnk.Legal(e.current, m)) && |e.scores| == 2
    requires Owns(e.root, e.pool) && DistinctMoves(e.root.children)
    ensures var split := SplitChildren(e.root.children, m);
            var pool := Recycle(split.recycle, e.pool);
            var r := Play(e, m);
            && NodePool.Valid(pool)
            && (split.found.Some? ==> r.root == split.found.value && r.pool == pool)
            && (split.found.None? ==> Ids(r.root) == multiset{NodePool.Alloc(pool).id} && r.pool == NodePool.Alloc(pool).pool)
  {
    SplitOwns(e.root, e.pool, m);
  }

  /** When a child matches, every node of the old tree but the root ends up either in the new
      tree or in the pool, exactly once. */
  lemma PlayReleasesSiblings(e: Engine, m: Mnk.Move)
    requires Mnk.Valid(e.current) && (Mnk.Live(e.current) ==> Mnk.Legal(e.current, m)) && |e.scores| == 2
    requires Owns(e.root, e.pool) && DistinctMoves(e.root.children)
    requires exists j | 0 <= j < |e.root.children| :: e.root.children[j].move == m
    ensures Ids(Play(e, m).root) + multiset(Play(e, m).pool.freeList) + multiset{e.root.id}
              == Ids(e.root) + multiset(e.pool.freeList)
  {
    var split := SplitChildren(e.root.children, m);
    PlayAccounts(e, m);
    assert Play(e, m).root == split.found.value && Play(e, m).pool == Recycle(split.recycle, e.pool);
  }

  /** An id below the allocator's next one and not on the free list is not handed out. */
  lemma AllocSkips(pool: NodePool.Pool, id: NodeId)
    requires NodePool.Valid(pool) && id < pool.nextId && id !in multiset(pool.freeList)
    ensures id != NodePool.Alloc(pool).id && id !in multiset(NodePool.Alloc(pool).pool.freeList)
  {
  }
}
