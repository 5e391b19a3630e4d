# monte: a Dafny model of the MCTS engine and its m,n,k game

This project models the Monte-Carlo tree search engine of `monte.h` together with the m,n,k
game adapter of `mnk.c`, and proves properties of the model. The m,n,k game is played on a
`width` x `height` board: a stone that completes `stride` in a row wins, and a full board
without a win is a draw.

The model is functional. The engine's mutable tree of `monte_node_t` records becomes an
immutable recursive `Node`:

- the sibling `next` links become the sequence `children`, head first;
- the parent link is implicit: a node's parent is the node whose list holds it;
- each node has an `id`, which stands for its address in the node pool.

The hash trie that indexes a node's children is kept beside the list as a `Trie<Move>`. In C,
that trie is threaded through the `children` pointer and the children's `hamt[4]` arrays.

Modules, one file each:

- **`Mnk`** (`mnk.dfy`): the board and the game adapter. It covers:
  - cell reads and writes;
  - the four-direction run count;
  - applying a move, with turn alternation, win and draw;
  - inspecting a state for its player and scores;
  - move enumeration, move equality, the move hash, and state creation.
- **`NodePool`** (`pool.dfy`): the last-in first-out free list in front of the allocator.
- **`MoveIndex`** (`trie.dfy`): the four-way hash trie. It covers `monte_find_node` and the
  store of a new entry in the vacant slot that lookup found.
- **`Reservoir`** (`reservoir.dfy`): the single-slot reservoir sampling that expansion and
  simulation share.
- **`SearchTree`** (`tree.dfy`): the node record, paths, backpropagation and child selection.
  It also covers `monte_pick_move`, the splice of a new child, and the split and recycling of
  `monte_apply_move`.
- **`Monte`** (`engine.dfy`): the engine. It covers create, iterate (selection, expansion,
  simulation, backpropagation) and apply-move, with the invariant those operations keep.

The engine invariant `Monte.Inv` says four things:

- **The tree mirrors the game.** Each child stands for a legal move and the state that move
  leads to. Each node records the player to move in its state. Its trie holds exactly its
  children. Its `num_moves_left` counts the legal moves not yet expanded, or is -1 before
  expansion.
- **Win counts are bounded.** Every `|num_wins| <= num_visits`.
- **No child is unvisited.** Every child has at least one visit, so the UCT score never
  divides by zero.
- **Node ids are owned exactly once.** The ids in the tree and on the free list are distinct,
  and the allocator has handed each of them out.

The floating-point parts of the engine are parameters (`Monte.Env`):

- the UCT score of a child is an oracle `uct(parentVisits, wins, visits)`;
- each random test `random * n < 1` is an oracle `coin(k, n)`, where k counts the random
  numbers drawn so far;
- the `splittable64` bit mixer is an arbitrary function `mix`.

The info buffer that inspection writes into is carried by the engine as `scores`. A live
state leaves it unwritten, so what it holds matters.

Some behaviour of the code is modelled as written and stated as a property:

- the instant-winner test during selection compares against the root's player at every depth;
- a win on the last empty cell is scored as a draw;
- the old root is never returned to the pool;
- the move hash ignores the row.

## Model

| member | source | states |
|---|---|---|
| Mnk.Int8 | mnk.c:87 | `stride - 1` stored in an `int8_t` wraps by 256 and is unchanged when it fits |
| Mnk.Get | mnk.c:42-52 | off-board coordinates read as no player; an on-board cell reads as no player exactly when it is empty; on a board of empty cells and stones the result is -1, 0 or 1 |
| Mnk.Set | mnk.c:54-58 | the cell written now reads as the player, every other cell reads as before, one space fewer is counted, and the player and winner are kept |
| Mnk.CountStride | mnk.c:60-78 | the count of the player's stones that follow a cell in a direction never exceeds the cells left before the board's edge, so the walk always ends |
| Mnk.CountStrideRun | mnk.c:60-78 | the stride count is exactly the length of the run of the player's stones that follows the cell in the direction: every counted cell holds the player, the next one does not |
| Mnk.CompletesRun | mnk.c:89-94 | when the `int8_t` threshold `stride - 1` is zero or less, every move completes a run |
| Mnk.CompletesRunIff | mnk.c:89-94 | the four two-sided stride counts reach `stride - 1` exactly when the stone lies in a line of at least `stride` of the player's stones in one of the four directions |
| Mnk.ApplyMove | mnk.c:80-103 | a finished game is left unchanged; on a live game the move's cell gets the mover's stone, no other cell changes, one space fewer is counted, and the state stays consistent |
| Mnk.ApplyMoveOutcome | mnk.c:89-102 | a stone in a long enough line ends the game won by the mover; otherwise a full board ends it drawn; otherwise the other player is to move |
| Mnk.Settle | mnk.c:94-102 | after the stone is placed, a completed run ends the game won by the mover; otherwise a full board ends it with no winner; otherwise the other player moves; the board and the space count are kept and the state is consistent |
| Mnk.Inspect | mnk.c:105-120 | a full board reports no player to move and scores (0, 0); otherwise it reports the state's player, and a won game scores +1 for the winner and -1 for the loser; a live game leaves the buffer unchanged |
| Mnk.TerminalScores | mnk.c:105-120 | once the game is over, the scores do not depend on what the buffer held, lie in {-1, 0, 1} and sum to zero |
| Mnk.LastCellWinScoresDraw | mnk.c:89-112 | a line completed on the last empty cell records the mover as winner, yet inspection scores the game (0, 0) |
| Mnk.LegalMoves | mnk.c:122-134 | the moves submitted are exactly the empty on-board cells, each once, in x-then-y order |
| Mnk.LiveHasMoves | mnk.c:97-101 | a game with a player to move has at least one empty cell to submit |
| Mnk.MovesEqual | mnk.c:136-139 | two moves are equal exactly when both coordinates agree |
| Mnk.HashMove | mnk.c:151-154 | the hash of a move is the mixer applied to the key of its column alone, the same as for the move in row 0 |
| Mnk.HashIgnoresRow | mnk.c:151-154 | moves in the same column hash alike whatever the mixer |
| Mnk.Create | mnk.c:156-165 | a new state has player 0 to move, no winner, `width * height` spaces and every cell empty |
| NodePool.Alloc | monte.h:187-200 | the free list's head is taken when there is one, and the rest of the list is kept in order; otherwise a never-used id is handed out; the id returned is not left on the free list and the free list shrinks by exactly that id |
| NodePool.Free | monte.h:202-206 | the released id becomes the free list's new head in front of the old list; a released id that was handed out and not yet free keeps the pool valid |
| NodePool.AllocAfterFree | monte.h:187-206 | the node released last is the next one handed out, and the pool is then as before the release |
| NodePool.FreeAfterAlloc | monte.h:187-206 | releasing the node just taken from a non-empty free list restores the pool |
| MoveIndex.Find | monte.h:208-225 | a hit names an entry stored under the key; a miss names a vacant slot on the walk |
| MoveIndex.FindIff | monte.h:208-225 | with every key stored where its own hash leads, lookup hits exactly the stored keys, for any hash function |
| MoveIndex.InsertAt | monte.h:399 | storing in a vacant slot adds exactly one (id, key) pair and keeps the root entry |
| MoveIndex.InsertKeepsPlaced | monte.h:399 | storing a key in the slot its own failed lookup returned keeps every key where its hash leads |
| MoveIndex.FindAfterInsert | monte.h:399 | after that store, lookup of the key hits the new entry |
| Reservoir.Run | monte.h:236-259 | the first candidate costs no random number and every later one costs exactly one; the candidate held is the last one accepted |
| Reservoir.RunIgnoresValues | monte.h:297-306 | which position is held depends only on the number of candidates and the random stream, not on the moves |
| SearchTree.Backprop | monte.h:440-448 | backpropagation changes counters only; the root gains one visit and no wins |
| SearchTree.BackpropOnPath | monte.h:441-446 | every node on the path below the root gains one visit and the score of the player to move at its parent |
| SearchTree.BackpropOffPath | monte.h:440-448 | every node off the path is unchanged |
| SearchTree.BackpropBounded | monte.h:443-444 | with scores in {-1, 0, 1}, every `abs(num_wins) <= num_visits` is kept, although wins may decrease |
| SearchTree.BackpropVisited | monte.h:443 | the path's nodes, the only ones that may not have been visited yet, all have a visit afterwards |
| SearchTree.Choose | monte.h:364-383 | no child is chosen only from an empty list; the first child whose instant winner is the given player is chosen if there is one; otherwise the first child with the strictly highest score is chosen |
| SearchTree.PickMove | monte.h:451-464 | the move of the first child in list order with the most visits, or the given move untouched when there is no child |
| SearchTree.Splice | monte.h:424-427 | the new child becomes second after the head, or the sole child of an empty list; taking it out again gives the old list |
| SearchTree.SplitFrom | monte.h:475-489 | walking the rest of the list from some stack finds a child exactly when one has the move or one was found before; each child without the move is pushed onto the stack, so the stack gains them in reverse list order |
| SearchTree.SplitChildren | monte.h:475-489 | the child found is one with the move played, and there is one exactly when some child has that move; every other child, and nothing else, goes to the recycle stack, in reverse list order |
| SearchTree.SplitChildrenIds | monte.h:475-489 | with distinct moves, the found child and the recycle stack hold exactly the ids of the children |
| SearchTree.Push | monte.h:495-503 | pushing a node's children onto the stack keeps all their ids |
| SearchTree.Recycle | monte.h:491-506 | the pool gains exactly the ids of every node of every recycled subtree, each once, and the allocator is untouched |
| Monte.FirstPositive | monte.h:411-422 | the lowest player with a positive score, or no player exactly when no score is positive |
| Monte.InstantWinner | monte.h:409-422 | a live game gives no instant winner; a recorded instant winner is a player with a positive score; a finished game with no positive score gives none |
| Monte.InstantWinnerIsScoredWinner | monte.h:409-422 | a new child's instant winner is the winner of a finished game, and no player when the game is live or the board full |
| Monte.StateAt | monte.h:385 | the state the descent reaches by applying the path's moves is the one the node at the end of the path stands for |
| Monte.MirrorsMovers | monte.h:442 | along any path, every node above the end names a player with a score, so backpropagation can index the scores |
| Monte.Unexpanded | monte.h:236-240 | each candidate is one of the submitted moves, its lookup in the child index misses, and its slot is the vacant one that lookup found; there are no more candidates than moves |
| Monte.UnexpandedIsFresh | monte.h:236-240 | the candidates' moves are exactly the submitted moves that are not keys of the child index, in submission order |
| Monte.UnexpandedMoves | monte.h:236-240 | a move is offered exactly when it was submitted and is not yet a child; with distinct submitted moves, no move is offered twice |
| Monte.UnexpandedCount | monte.h:236-259 | the offered candidates are exactly the legal moves not yet in the child index |
| Monte.UnexpandedAreNew | monte.h:239-240 | no offered candidate is already a child |
| Monte.UnexpandedIsLeft | monte.h:394-395 | for a node that mirrors its state, the number of candidates is the number of legal moves minus the number of children |
| Monte.Expand | monte.h:390-431 | with no candidate, only `num_moves_left` becomes -1; otherwise exactly one new child is spliced in, with the allocated id, a fresh legal move, zero counters and no children, and the state is advanced by that move |
| Monte.ExpandMirrors | monte.h:393-431 | expanding a live node that still has a move to expand always adds a child; it keeps the tree mirroring the game and draws one random number per candidate after the first |
| Monte.ExpandCounters | monte.h:399-410 | expansion adds exactly the allocated id to the tree, keeps wins bounded, and leaves only the new child unvisited |
| Monte.Descend | monte.h:355-388 | the descent follows valid positions and stops at a node that has moves left to expand or no child to take |
| Monte.DescendFollowsChoice | monte.h:360-387 | every step of the descent leaves a node with no move left to expand, through the child Choose takes for the root's player |
| Monte.DescentStopsToExpand | monte.h:360-395 | when the descent stops on a live state, its node has a move left to expand |
| Monte.Simulate | monte.h:433-438 | the playout ends in a finished game that keeps every stone of its start and draws random numbers only forward; a finished start is returned as is; the final scores are those inspection gives |
| Monte.SimulateScores | monte.h:433-438 | the scores backpropagated each lie in {-1, 0, 1} |
| Monte.PlayoutStep | monte.h:434-437 | one playout step places exactly one stone: the state stays consistent with the same configuration, one space fewer is counted, every occupied cell is kept, random numbers are drawn only forward, and the scores are those inspection gives |
| Monte.MirrorsSameShape | monte.h:440-448 | changing only counters keeps the tree mirroring the game |
| Monte.Create | monte.h:321-348 | the engine starts from the initial state, with one unexpanded root and no visits, which records the player to move, and the pool's first id |
| Monte.CreateInv | monte.h:336-345 | a new engine satisfies the invariant |
| Monte.Grow | monte.h:355-431 | selection and expansion produce a path backpropagation can follow, and terminal scores in {-1, 0, 1} |
| Monte.GrowAt | monte.h:390-431 | expansion at the end of the descent gives a path backpropagation can follow through nodes that name a player to move, a consistent state, and scores in {-1, 0, 1} once the game is over |
| Monte.GrowAtFacts | monte.h:390-431 | after expansion at the end of the descent the tree still mirrors the game, and the path extends to the new child |
| Monte.GrowInv | monte.h:355-431 | selection and expansion keep the mirroring, the win bounds and id ownership; only the path's nodes may lack a visit |
| Monte.Iterate | monte.h:350-449 | an iteration leaves the current state, gives the root one visit and no wins, and draws random numbers only forward |
| Monte.IterateKeepsInv | monte.h:350-449 | an iteration keeps the engine invariant |
| Monte.Play | monte.h:471-521 | the current state advances by the move; a child with the move becomes the root with its statistics and the scores kept; otherwise a new unexpanded root records the player to move of the advanced state |
| Monte.PlayKeepsInv | monte.h:471-521 | applying a move keeps the engine invariant |
| Monte.PlayFoundInv | monte.h:471-521 | when a child has the move, promoting it to root keeps the engine invariant |
| Monte.PlayFreshInv | monte.h:471-521 | when no child has the move, the new unexpanded root from the pool keeps the engine invariant |
| Monte.BlankInv | monte.h:509-519 | an engine whose root is a new unexpanded node for the current state, owned by the pool, satisfies the invariant |
| Monte.PlayReleasesSiblings | monte.h:475-506 | when a child matches, every id of the old tree except the root's ends up in the new tree or in the pool, exactly once |
| Monte.PlayLeaksOldRoot | monte.h:471-521 | the old root's id is in neither the new tree nor the pool |

## Left out

- Floating point. The UCT score (`logf`, `sqrtf`, float division) and the float random generator are oracles. NaN and infinities are not modelled. The invariant that every child has a visit replaces the zero-visit case.
- The `splittable64` bit mixer is an arbitrary function. `(x << 8) | x` is written as `x * 256 + x`, which agrees for the non-negative columns of the board.
- Integer widths. The `int32_t` visit, win and move counters and the `int16_t` space count are unbounded integers. The number of iterations that could wrap them is not modelled.
- `int8_t` coordinates: configurations are limited to 1..127 columns and rows. `stride - 1` is wrapped to `int8_t` (`Mnk.Int8`).
- Memory management and layout: `monte_user_alloc`, `malloc`, `memcpy`/`memset` state copies, `_Alignof` and `state_size`. The user allocator is modelled as handing out ids it has never handed out before.
- `parent` pointers, `next` links and `hamt` arrays are not stored as fields; the list, the trie and the implicit parent stand for them.
- The info buffer's contents before `monte_create` are uninitialised memory in C; the model takes them as a parameter.
- Mnk.ApplyMove: requires the move to be an empty on-board cell while the game is live, because `mnk_state_set` neither checks bounds nor occupancy. The engine only passes such moves.
- Monte.Play: requires a legal move on a live game, for the same reason. It also requires distinct child moves and a pool that owns the tree's ids, which the engine invariant provides; the id accounting of the release depends on them.
- Monte.GrowAt: the branch of expansion that finds no candidate cannot occur under the invariant (`Monte.ExpandMirrors`), so it is not written out there; `Monte.Expand` models it.
- Monte.Descend: the descent stops when no child is chosen; under the invariant this happens only at a node with no children.
- The commented-out decisive-move check of the simulation iterator and its `found_decisive` flag, which is never set.
- `monte_destroy`, `mnk_state_destroy`, `mnk_state_apply`, the `mnk_ai_*` wrappers, the driver program and its board printing.
- Games other than m,n,k: the engine is specialised to two players and the mnk move and state types.
