/** Monte Carlo tree search (mcts.go, botMCTSAgent.go): the search tree's nodes with their win
    counts and rollouts, expansion by a random unvisited move, backpropagation of a playout's
    winner up to the root, and the final choice of the root child with the best win fraction.
    The playout is a parameter, and the descent by the UCT formula is left out. */
module Mcts {
  import opened Wrappers
  import opened Boards
  import opened Moves
  import opened GameStates
  import Players

  // ---------------------------------------------------------------------------------------
  // Win counts

  /** A Go map read: a missing player has won 0 times. */
  function Get(wc: map<Players.Player, int>, p: Players.Player): int
  {
    if p in wc then wc[p] else 0
  }

  /** The sum of the win counts of the players x, x + 1, ..., 255. */
  function TallyFrom(wc: map<Players.Player, int>, x: nat): int
    requires x <= 256
    decreases 256 - x
  {
    if x == 256 then 0 else Get(wc, x as Players.Player) + TallyFrom(wc, x + 1)
  }

  /** The sum of all win counts. */
  function Tally(wc: map<Players.Player, int>): int
  {
    TallyFrom(wc, 0)
  }

  /** One more win for w adds one to the sum from every player up to w. */
  lemma {:induction false} TallyFromBump(wc: map<Players.Player, int>, w: Players.Player, x: nat)
    requires x <= 256
    ensures TallyFrom(wc[w := Get(wc, w) + 1], x) == TallyFrom(wc, x) + (if x <= w as int then 1 else 0)
    decreases 256 - x
  {
    if x < 256 {
      TallyFromBump(wc, w, x + 1);
    }
  }

  /** The sum of the counts of a fresh node is 0. */
  lemma {:induction false} TallyFromZero(x: nat)
    requires x <= 256
    ensures TallyFrom(map[Players.Black := 0, Players.White := 0], x) == 0
    decreases 256 - x
  {
    if x < 256 {
      TallyFromZero(x + 1);
    }
  }

  // ---------------------------------------------------------------------------------------
  // Win fractions

  /** winning_frac as the pair (wins, rollouts); a/b is greater than c/d, for positive b and d,
      when a * d > c * b. */
  predicate Greater(x: (int, int), y: (int, int))
  {
    x.0 * y.1 > y.0 * x.1
  }

  /** Comparing by cross-multiplication is transitive, strictly ... */
  lemma GreaterTrans(x: (int, int), y: (int, int), z: (int, int))
    requires x.1 > 0 && y.1 > 0 && z.1 > 0
    requires Greater(x, y) && Greater(y, z)
    ensures Greater(x, z)
  {
    var a, b, c, d, e, f := x.0, x.1, y.0, y.1, z.0, z.1;
    assert a * d * f > c * b * f by {
      assert (a * d - c * b) * f > 0;
    }
    assert c * f * b > e * d * b by {
      assert (c * f - e * d) * b > 0;
    }
    assert (a * f - e * b) * d > 0;
  }

  /** ... and with a non-strict step. */
  lemma GreaterNotLess(x: (int, int), y: (int, int), z: (int, int))
    requires x.1 > 0 && y.1 > 0 && z.1 > 0
    requires Greater(x, y) && !Greater(z, y)
    ensures Greater(x, z)
  {
    var a, b, c, d, e, f := x.0, x.1, y.0, y.1, z.0, z.1;
    assert a * d * f > c * b * f by {
      assert (a * d - c * b) * f > 0;
    }
    assert e * d * b <= c * f * b by {
      assert (c * f - e * d) * b >= 0;
    }
    assert (a * f - e * b) * d > 0;
  }

  /** The final loop of SelectMove over fractions fs from the i-th on, with the index of the best
      so far and its fraction: a strictly greater fraction replaces it. Go starts from -1.0 and
      no move. */
  function FirstBest(fs: seq<(int, int)>, i: nat, best: int, bestFrac: (int, int)): int
    requires i <= |fs|
    decreases |fs| - i
  {
    if i == |fs| then best
    else if Greater(fs[i], bestFrac) then FirstBest(fs, i + 1, i, fs[i])
    else FirstBest(fs, i + 1, best, bestFrac)
  }

  /** The loop returns the first index whose fraction is the greatest: no fraction beats it, and
      it beats every earlier one. With fractions that are never negative, some index is found. */
  lemma {:induction false} FirstBestIsFirstMax(fs: seq<(int, int)>, i: nat, best: int, bestFrac: (int, int))
    requires i <= |fs| && bestFrac.1 > 0 && forall k :: 0 <= k < |fs| ==> fs[k].1 > 0
    requires -1 <= best < i && (0 <= best ==> fs[best] == bestFrac)
    requires forall k :: 0 <= k < i ==> !Greater(fs[k], bestFrac)
    requires forall k :: 0 <= k < best ==> Greater(bestFrac, fs[k])
    ensures var r := FirstBest(fs, i, best, bestFrac);
      && best <= r < |fs|
      && (r == best || i <= r)
      && (0 <= r ==> forall k :: 0 <= k < |fs| ==> !Greater(fs[k], fs[r]))
      && (0 <= r ==> forall k :: 0 <= k < r ==> Greater(fs[r], fs[k]))
      && (r == -1 ==> forall k :: 0 <= k < |fs| ==> !Greater(fs[k], bestFrac))
    decreases |fs| - i
  {
    if i < |fs| {
      if Greater(fs[i], bestFrac) {
        forall k | 0 <= k < i
          ensures !Greater(fs[k], fs[i]) && Greater(fs[i], fs[k])
        {
          GreaterNotLess(fs[i], bestFrac, fs[k]);
        }
        FirstBestIsFirstMax(fs, i + 1, i, fs[i]);
      } else {
        FirstBestIsFirstMax(fs, i + 1, best, bestFrac);
      }
    }
  }

  // ---------------------------------------------------------------------------------------
  // MCTSNode

  class MCTSNode {
    var game_state: GameState
    var parent: MCTSNode?
    var move: Option<Move>
    var win_count: map<Players.Player, int>
    var num_rollouts: int
    var children: seq<MCTSNode>
    var unvisited_moves: seq<Move>

    /** NewMCTSNode: no wins for either colour, no rollouts, no children, and every legal move
        still unvisited; Pass and Resign are always legal, so a new node can add a child. */
    constructor (gs: GameState, parent: MCTSNode?, move: Option<Move>)
      requires Indexed(gs.board) && gs.board.Width < 0xFFFF && gs.board.Height < 0xFFFF
      ensures this.game_state == gs && this.parent == parent && this.move == move
      ensures win_count == map[Players.Black := 0, Players.White := 0] && num_rollouts == 0
      ensures children == [] && unvisited_moves == Legal(gs)
      ensures CanAddChild()
    {
      this.game_state := gs;
      this.parent := parent;
      this.move := move;
      win_count := map[Players.Black := 0, Players.White := 0];
      num_rollouts := 0;
      children := [];
      var legal := LegalMoves(gs);
      unvisited_moves := legal;
    }

    function Wins(p: Players.Player): int
      reads this
    {
      Get(win_count, p)
    }

    /** The win counts add up to the rollouts. */
    predicate Balanced()
      reads this
    {
      Tally(win_count) == num_rollouts
    }

    /** can_add_child: a legal move of the node is still unvisited. */
    predicate CanAddChild()
      reads this
    {
      |unvisited_moves| > 0
    }

    /** is_terminal. */
    predicate IsTerminal()
      reads this
      requires Indexed(game_state.board)
    {
      IsOver(game_state)
    }

    /** winning_frac, as a pair. */
    function WinningFrac(p: Players.Player): (int, int)
      reads this
    {
      (Wins(p), num_rollouts)
    }

    /** record_win: one more win for the winner and one more rollout; the counts stay
        balanced. */
    method RecordWin(winner: Players.Player)
      modifies this
      ensures win_count == old(win_count)[winner := old(Wins(winner)) + 1]
      ensures num_rollouts == old(num_rollouts) + 1
      ensures forall p :: Wins(p) == old(Wins(p)) + (if p == winner then 1 else 0)
      ensures old(Balanced()) ==> Balanced()
      ensures game_state == old(game_state) && parent == old(parent) && move == old(move)
      ensures children == old(children) && unvisited_moves == old(unvisited_moves)
    {
      TallyFromBump(win_count, winner, 0);
      win_count := win_count[winner := Wins(winner) + 1];
      num_rollouts := num_rollouts + 1;
    }

    /** add_random_child: an unvisited move, any of them, is applied and a new node for the
        resulting state is appended to the children. The move stays unvisited, as written.
        Null when the move fails (Go exits). */
    method AddRandomChild() returns (child: MCTSNode?)
      requires CanAddChild()
      requires Indexed(game_state.board) && game_state.board.Width < 0xFFFF && game_state.board.Height < 0xFFFF
      modifies this
      ensures game_state == old(game_state) && parent == old(parent) && move == old(move)
      ensures win_count == old(win_count) && num_rollouts == old(num_rollouts)
      ensures unvisited_moves == old(unvisited_moves)
      ensures child == null ==> exists m :: m in unvisited_moves && ApplyMove(game_state, m).1.Some?
      ensures child == null ==> children == old(children)
      ensures child != null ==>
        && fresh(child)
        && child.parent == this && child.move.Some? && child.move.value in unvisited_moves
        && child.game_state == ApplyMove(game_state, child.move.value).0
        && ApplyMove(game_state, child.move.value).1.None?
        && child.win_count == map[Players.Black := 0, Players.White := 0] && child.num_rollouts == 0
        && child.children == [] && child.unvisited_moves == Legal(child.game_state)
        && children == old(children) + [child]
    {
      var index :| 0 <= index < |unvisited_moves|;
      var new_move := unvisited_moves[index];
      var (new_game_state, err1) := ApplyMove(game_state, new_move);
      if err1.Some? {
        return null;
      }
      child := new MCTSNode(new_game_state, this, Some(new_move));
      children := children + [child];
    }
  }

  /** The win fractions of some nodes for a player. */
  function Fracs(cs: seq<MCTSNode>, p: Players.Player): (fs: seq<(int, int)>)
    reads cs
  {
    seq(|cs|, k requires 0 <= k < |cs| reads cs => cs[k].WinningFrac(p))
  }

  // ---------------------------------------------------------------------------------------
  // Backpropagation

  /** The nodes from a node up through its parents to the root, each once. */
  ghost predicate ParentChain(path: seq<MCTSNode>)
    reads set n | n in path
  {
    && |path| > 0
    && (forall k :: 0 <= k < |path| - 1 ==> path[k].parent == path[k + 1])
    && path[|path| - 1].parent == null
    && (forall j, k :: 0 <= j < k < |path| ==> path[j] != path[k])
  }

  /** The backpropagation loop of SelectMove: from the given node up to the root, every node
      records the winner once, so each gains one rollout and one win for the winner, and stays
      balanced. Nothing else changes. */
  method Backpropagate(node: MCTSNode, winner: Players.Player, ghost path: seq<MCTSNode>)
    requires ParentChain(path) && path[0] == node
    modifies set n | n in path
    ensures forall k :: 0 <= k < |path| ==>
      && path[k].num_rollouts == old(path[k].num_rollouts) + 1
      && path[k].win_count == old(path[k].win_count)[winner := old(path[k].Wins(winner)) + 1]
      && (old(path[k].Balanced()) ==> path[k].Balanced())
      && path[k].game_state == old(path[k].game_state) && path[k].parent == old(path[k].parent)
      && path[k].move == old(path[k].move) && path[k].children == old(path[k].children)
      && path[k].unvisited_moves == old(path[k].unvisited_moves)
  {
    var n: MCTSNode? := node;
    ghost var j := 0;
    while n != null
      invariant 0 <= j <= |path|
      invariant j < |path| ==> n == path[j]
      invariant j == |path| ==> n == null
      invariant forall k :: 0 <= k < j ==>
        && path[k].num_rollouts == old(path[k].num_rollouts) + 1
        && path[k].win_count == old(path[k].win_count)[winner := old(path[k].Wins(winner)) + 1]
        && (old(path[k].Balanced()) ==> path[k].Balanced())
        && path[k].game_state == old(path[k].game_state) && path[k].parent == old(path[k].parent)
        && path[k].move == old(path[k].move) && path[k].children == old(path[k].children)
        && path[k].unvisited_moves == old(path[k].unvisited_moves)
      invariant forall k :: j <= k < |path| ==> unchanged(path[k])
      decreases |path| - j
    {
      n.RecordWin(winner);
      n := n.parent;
      j := j + 1;
    }
  }

  // ---------------------------------------------------------------------------------------
  // MCTSAgent.SelectMove

  /** A child of the root after its round: expanded from the root's state by one of the legal
      moves, with the one rollout of its playout. */
  ghost predicate ExpandedChild(c: MCTSNode, root: MCTSNode, gs: GameState, legal: seq<Move>, simulate: GameState -> Players.Player)
    requires Indexed(gs.board)
    reads c
  {
    && c.parent == root && c.num_rollouts == 1
    && c.move.Some? && c.move.value in legal
    && c.game_state == ApplyMove(gs, c.move.value).0
    && (forall p :: c.Wins(p) == if simulate(c.game_state) == p then 1 else 0)
  }

  /** One round of SelectMove: the root can always add a child, so the descent by select_child
      never runs; the root is expanded by one child, the child is played out and the winner is
      backpropagated to the child and the root. Not ok when the expansion fails (Go exits). */
  method PlayRound(root: MCTSNode, gs: GameState, simulate: GameState -> Players.Player)
    returns (ok: bool, ghost child: MCTSNode?)
    requires Indexed(gs.board) && gs.board.Width < 0xFFFF && gs.board.Height < 0xFFFF
    requires root.game_state == gs && root.parent == null && root.CanAddChild()
    requires forall c :: c in root.children ==> c != root
    modifies root
    ensures root.game_state == gs && root.parent == null && root.move == old(root.move)
    ensures root.unvisited_moves == old(root.unvisited_moves)
    ensures !ok ==> exists x :: x in root.unvisited_moves && ApplyMove(gs, x).1.Some?
    ensures ok ==>
      && root.num_rollouts == old(root.num_rollouts) + 1
      && (old(root.Balanced()) ==> root.Balanced())
      && child != null && root.children == old(root.children) + [child]
      && fresh(child) && ExpandedChild(child, root, gs, root.unvisited_moves, simulate)
  {
    var node := root;
    var new_node := node.AddRandomChild();
    child := new_node;
    if new_node == null {
      return false, child;
    }
    var winner := simulate(new_node.game_state);
    Backpropagate(new_node, winner, [new_node, root]);
    assert forall p :: new_node.Wins(p) == if winner == p then 1 else 0;
    return true, child;
  }

  /** The round loop of SelectMove. Not ok when an expansion fails (Go exits). */
  method RunRounds(gs: GameState, num_rounds: nat, simulate: GameState -> Players.Player)
    returns (ok: bool, root: MCTSNode)
    requires Indexed(gs.board) && gs.board.Width < 0xFFFF && gs.board.Height < 0xFFFF
    ensures fresh(root)
    ensures root.game_state == gs && root.parent == null && root.move == None
    ensures !ok ==> exists x :: x in Legal(gs) && ApplyMove(gs, x).1.Some?
    ensures ok ==>
      && root.num_rollouts == num_rounds && root.Balanced() && |root.children| == num_rounds
      && (forall c :: c in root.children ==> ExpandedChild(c, root, gs, Legal(gs), simulate))
  {
    root := new MCTSNode(gs, null, None);
    ghost var legal := root.unvisited_moves;
    TallyFromZero(0);
    for i := 0 to num_rounds
      invariant fresh(root)
      invariant root.game_state == gs && root.parent == null && root.move == None
      invariant root.unvisited_moves == legal
      invariant root.num_rollouts == i && root.Balanced() && |root.children| == i
      invariant forall c :: c in root.children ==> fresh(c) && c != root && ExpandedChild(c, root, gs, legal, simulate)
    {
      ghost var child;
      ok, child := PlayRound(root, gs, simulate);
      if !ok {
        return false, root;
      }
    }
    return true, root;
  }

  /** The final loop of SelectMove: the move of the first child whose win fraction for p beats
      every earlier best, starting from -1.0. */
  method ChooseChild(children: seq<MCTSNode>, p: Players.Player) returns (best_move: Option<Move>, ghost best: int)
    ensures best == FirstBest(Fracs(children, p), 0, -1, (-1, 1))
    ensures best == -1 ==> best_move == None
    ensures 0 <= best ==> best < |children| && best_move == children[best].move
  {
    best_move := None;
    var best_pct := (-1, 1);
    ghost var fs := Fracs(children, p);
    best := -1;
    for k := 0 to |children|
      invariant -1 <= best < |children|
      invariant best == -1 ==> best_move == None && best_pct == (-1, 1)
      invariant 0 <= best ==> best_move == children[best].move && best_pct == fs[best]
      invariant FirstBest(fs, 0, -1, (-1, 1)) == FirstBest(fs, k, best, best_pct)
    {
      var child := children[k];
      var child_pct := child.WinningFrac(p);
      if Greater(child_pct, best_pct) {
        best_pct := child_pct;
        best_move := child.move;
        best := k;
      }
    }
  }

  /** MCTSAgent.SelectMove with the playout simulate as a parameter: num_rounds rounds of
      expansion, playout and backpropagation, then the move of the first root child whose win
      fraction for the player to move is the greatest. None when an expansion fails (Go
      exits). */
  method SelectMove(gs: GameState, num_rounds: nat, simulate: GameState -> Players.Player)
    returns (m: Option<Move>, ghost tree: MCTSNode)
    requires Indexed(gs.board) && gs.board.Width < 0xFFFF && gs.board.Height < 0xFFFF
    requires num_rounds >= 1
    ensures tree.game_state == gs && tree.parent == null && tree.move == None
    ensures m.None? ==> exists x :: x in Legal(gs) && ApplyMove(gs, x).1.Some?
    ensures m.Some? ==>
      && tree.num_rollouts == num_rounds && tree.Balanced() && |tree.children| == num_rounds
      && (forall c :: c in tree.children ==> ExpandedChild(c, tree, gs, Legal(gs), simulate))
      && m.value in Legal(gs)
    ensures m.Some? ==>
      var fs := Fracs(tree.children, gs.turn);
      exists b :: 0 <= b < |fs| && m == tree.children[b].move
        && (forall k :: 0 <= k < |fs| ==> !Greater(fs[k], fs[b]))
        && (forall k :: 0 <= k < b ==> Greater(fs[b], fs[k]))
  {
    var ok, root := RunRounds(gs, num_rounds, simulate);
    tree := root;
    if !ok {
      return None, tree;
    }
    ghost var fs := Fracs(root.children, gs.turn);
    assert forall k :: 0 <= k < |fs| ==> fs[k].1 == 1 && fs[k].0 >= 0 by {
      forall k | 0 <= k < |fs|
        ensures fs[k].1 == 1 && fs[k].0 >= 0
      {
        assert root.children[k] in root.children;
      }
    }
    var best_move, best := ChooseChild(root.children, gs.turn);
    FirstBestIsFirstMax(fs, 0, -1, (-1, 1));
    assert Greater(fs[0], (-1, 1));
    assert root.children[best] in root.children;
    m := best_move;
  }
}
