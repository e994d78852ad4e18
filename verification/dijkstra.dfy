/**
 * The offline planner of AgenteDijkstra.java: a uniform-cost search from the
 * avatar's start state to the portal cell over the successor relation of
 * `nodeChildren`, with an open priority queue and a closed set keyed by
 * search-state identity, followed by a walk up the parent links that pushes
 * the moves onto a stack which `act` then drains, one move per call.
 *
 * The heap of `Node` objects is an arena: a node's `father` is the index of
 * its parent in `arena`, and the open queue holds arena indices.
 */
module Dijkstra {
  import opened Nodes
  import opened Expansion

  // ---------------------------------------------------------------------
  // Routes over the successor relation
  // ---------------------------------------------------------------------

  /** The state reached from `k` by performing `acts` in order; `None` as soon as a move is not kept. */
  function Replay(g: Grid, k: StateKey, acts: seq<Action>): Option<StateKey>
    decreases |acts|
  {
    if acts == [] then Some(k)
    else
      match StepKey(g, k, acts[0])
      case None => None
      case Some(k') => Replay(g, k', acts[1..])
  }

  lemma {:induction false} ReplaySnoc(g: Grid, k: StateKey, acts: seq<Action>, a: Action)
    ensures Replay(g, k, acts + [a])
            == if Replay(g, k, acts).Some? then StepKey(g, Replay(g, k, acts).value, a) else None
    decreases |acts|
  {
    if acts == [] {
      assert acts + [a] == [a];
      assert [a][1..] == [];
    } else {
      assert (acts + [a])[0] == acts[0];
      assert (acts + [a])[1..] == acts[1..] + [a];
      match StepKey(g, k, acts[0])
      case None =>
      case Some(k') => ReplaySnoc(g, k', acts[1..], a);
    }
  }

  /**
   * Every successor of a key in `closed` lies in `closed` or `open`, and the
   * start does too: the classic frontier invariant of graph search.
   */
  ghost predicate Covered(g: Grid, start: StateKey, closed: set<StateKey>, open: set<StateKey>)
  {
    && start in closed + open
    && forall c, a | c in closed && StepKey(g, c, a).Some? :: StepKey(g, c, a).value in closed + open
  }

  /** Any route from the start that ends outside `closed` passes through `open`. */
  lemma {:induction false} Frontier(g: Grid, start: StateKey, closed: set<StateKey>, open: set<StateKey>,
                                    acts: seq<Action>, k: StateKey) returns (j: nat)
    requires Covered(g, start, closed, open)
    requires Replay(g, start, acts) == Some(k) && k !in closed
    ensures j <= |acts| && Replay(g, start, acts[..j]).Some? && Replay(g, start, acts[..j]).value in open
    decreases |acts|
  {
    if acts == [] {
      j := 0;
      assert acts[..0] == acts;
    } else {
      var pre := acts[..|acts| - 1];
      var a := acts[|acts| - 1];
      assert acts == pre + [a];
      ReplaySnoc(g, start, pre, a);
      var kp := Replay(g, start, pre).value;
      if kp in closed {
        j := |acts|;
        assert acts[..j] == acts;
      } else {
        j := Frontier(g, start, closed, open, pre, kp);
        assert acts[..j] == pre[..j];
      }
    }
  }

  /** `cost` is at most the length of every route from the start to `k`. */
  ghost predicate Shortest(g: Grid, start: StateKey, k: StateKey, cost: int)
  {
    forall acts | Replay(g, start, acts) == Some(k) :: cost <= |acts|
  }

  /**
   * When every open key lies at least `cost` moves from the start, so does
   * every key outside `closed`.
   */
  lemma FrontierBound(g: Grid, start: StateKey, closed: set<StateKey>, open: set<StateKey>, cost: int,
                      acts: seq<Action>, k: StateKey)
    requires Covered(g, start, closed, open)
    requires forall o | o in open :: Shortest(g, start, o, cost)
    requires Replay(g, start, acts) == Some(k) && k !in closed
    ensures cost <= |acts|
  {
    var j := Frontier(g, start, closed, open, acts, k);
    var o := Replay(g, start, acts[..j]).value;
    assert Shortest(g, start, o, cost);
  }

  /** A key first discovered from a minimum-cost open node is one move further away than it. */
  lemma DiscoveredShortest(g: Grid, start: StateKey, closed: set<StateKey>, open: set<StateKey>,
                           cost: int, k: StateKey)
    requires Covered(g, start, closed, open)
    requires forall o | o in open :: Shortest(g, start, o, cost)
    requires k !in closed && k !in open
    ensures Shortest(g, start, k, cost + 1)
  {
    forall acts | Replay(g, start, acts) == Some(k) ensures cost + 1 <= |acts| {
      var j := Frontier(g, start, closed, open, acts, k);
      var o := Replay(g, start, acts[..j]).value;
      assert Shortest(g, start, o, cost);
      assert Replay(g, start, acts[..j]) == Some(o);
      assert cost <= |acts[..j]|;
      assert acts[..j] != acts;
    }
  }

  /** With an empty frontier nothing outside `closed` is reachable. */
  lemma ClosedHoldsAllReachable(g: Grid, start: StateKey, closed: set<StateKey>, acts: seq<Action>)
    requires Covered(g, start, closed, {})
    requires Replay(g, start, acts).Some?
    ensures Replay(g, start, acts).value in closed
  {
    var k := Replay(g, start, acts).value;
    if k !in closed {
      var j := Frontier(g, start, closed, {}, acts, k);
      assert false;
    }
  }

  /** Closing `k` after its successors have been met keeps every successor of a closed key known. */
  lemma CloseCovers(g: Grid, start: StateKey, closed0: set<StateKey>, open0: set<StateKey>, k: StateKey,
                    closed: set<StateKey>, open: set<StateKey>)
    requires Covered(g, start, closed0, open0)
    requires closed == closed0 + {k} && closed0 + open0 <= closed + open
    requires forall a | StepKey(g, k, a).Some? :: StepKey(g, k, a).value in closed + open
    ensures Covered(g, start, closed, open)
  {
  }

  // ---------------------------------------------------------------------
  // The finite state space
  // ---------------------------------------------------------------------

  /** The sequences of length at most `n` over the elements of `s`. */
  ghost function SeqsUpTo(s: set<Cell>, n: nat): set<seq<Cell>>
  {
    if n == 0 then {[]}
    else {[]} + set c, t | c in s && t in SeqsUpTo(s, n - 1) :: [c] + t
  }

  lemma {:induction false} InSeqsUpTo(s: set<Cell>, n: nat, t: seq<Cell>)
    requires |t| <= n && forall c | c in t :: c in s
    ensures t in SeqsUpTo(s, n)
  {
    if t != [] {
      InSeqsUpTo(s, n - 1, t[1..]);
      assert t == [t[0]] + t[1..];
    }
  }

  lemma SmallerRemainder<T>(u: set<T>, s: set<T>, s': set<T>)
    requires s <= s' <= u && s != s'
    ensures |u - s'| < |u - s|
  {
    var x :| x in s' && x !in s;
    assert u - s' <= (u - s) - {x};
    assert x in u - s;
    assert |(u - s) - {x}| == |u - s| - 1;
    SubsetCard(u - s', (u - s) - {x});
  }

  lemma SubsetCard<T>(a: set<T>, b: set<T>)
    requires a <= b
    ensures |a| <= |b|
  {
    assert b == a + (b - a);
  }

  // ---------------------------------------------------------------------
  // The open queue as a set of identities
  // ---------------------------------------------------------------------

  predicate RefsIn(arena: seq<Node>, open: seq<nat>)
  {
    forall j | 0 <= j < |open| :: open[j] < |arena|
  }

  /** The identities of the nodes in the open queue. */
  ghost function KeysOf(arena: seq<Node>, open: seq<nat>): set<StateKey>
    requires RefsIn(arena, open)
  {
    set j | 0 <= j < |open| :: Key(arena[open[j]])
  }

  /** No two queued nodes are equal. */
  ghost predicate Distinct(arena: seq<Node>, open: seq<nat>)
    requires RefsIn(arena, open)
  {
    forall i, j | 0 <= i < j < |open| :: Key(arena[open[i]]) != Key(arena[open[j]])
  }

  /** No queued node is equal to a closed one. */
  ghost predicate AvoidsClosed(arena: seq<Node>, open: seq<nat>, closed: set<StateKey>)
    requires RefsIn(arena, open)
  {
    forall j | 0 <= j < |open| :: Key(arena[open[j]]) !in closed
  }

  /** Every queued node's cost is the length of a shortest route from `start` to its state. */
  ghost predicate AllShortest(g: Grid, start: StateKey, arena: seq<Node>, open: seq<nat>)
    requires RefsIn(arena, open)
  {
    forall j | 0 <= j < |open| :: Shortest(g, start, Key(arena[open[j]]), arena[open[j]].cost)
  }

  /**
   * `PriorityQueue.peek`: the position of a minimum of the queue under
   * `compareTo`.
   */
  method Head(arena: seq<Node>, open: seq<nat>) returns (m: nat)
    requires |open| > 0 && RefsIn(arena, open)
    ensures m < |open|
    ensures forall j | 0 <= j < |open| :: Compare(arena[open[m]], arena[open[j]]) <= 0
  {
    m := 0;
    var j := 1;
    while j < |open|
      invariant 1 <= j <= |open| && m < j
      invariant forall i | 0 <= i < j :: Compare(arena[open[m]], arena[open[i]]) <= 0
    {
      if Compare(arena[open[j]], arena[open[m]]) < 0 {
        forall i | 0 <= i < j ensures Compare(arena[open[j]], arena[open[i]]) <= 0 {
          CompareIsTotalPreorder(arena[open[j]], arena[open[m]], arena[open[i]]);
        }
        m := j;
      }
      j := j + 1;
    }
  }

  /** `PriorityQueue.contains`: a scan with `equals`. */
  method OpenContains(arena: seq<Node>, open: seq<nat>, n: Node) returns (b: bool)
    requires RefsIn(arena, open)
    ensures b <==> Key(n) in KeysOf(arena, open)
  {
    var j := 0;
    while j < |open|
      invariant 0 <= j <= |open|
      invariant forall i | 0 <= i < j :: Key(arena[open[i]]) != Key(n)
    {
      if Equals(arena[open[j]], n) {
        return true;
      }
      j := j + 1;
    }
    return false;
  }

  /** Position `j` of the queue after removing entry `m` holds entry `Shift(m, j)` of the queue before. */
  function Shift(m: nat, j: nat): nat
  {
    if j < m then j else j + 1
  }

  lemma Removed(open: seq<nat>, m: nat)
    requires m < |open|
    ensures var rest := open[..m] + open[m + 1..];
      && |rest| == |open| - 1
      && multiset(rest) == multiset(open) - multiset{open[m]}
      && forall j | 0 <= j < |rest| :: Shift(m, j) < |open| && Shift(m, j) != m && rest[j] == open[Shift(m, j)]
  {
    assert open == open[..m] + [open[m]] + open[m + 1..];
  }

  /** `PriorityQueue.poll` removes the head entry and keeps the identities of the others. */
  lemma KeysOfRemoveKeys(arena: seq<Node>, open: seq<nat>, m: nat)
    requires RefsIn(arena, open) && m < |open|
    ensures RefsIn(arena, open[..m] + open[m + 1..])
    ensures KeysOf(arena, open[..m] + open[m + 1..]) <= KeysOf(arena, open)
    ensures KeysOf(arena, open) <= KeysOf(arena, open[..m] + open[m + 1..]) + {Key(arena[open[m]])}
  {
    var rest := open[..m] + open[m + 1..];
    Removed(open, m);
    forall j | 0 <= j < |rest| ensures Key(arena[rest[j]]) in KeysOf(arena, open) {
      assert rest[j] == open[Shift(m, j)];
    }
    forall j | 0 <= j < |open| && j != m ensures Key(arena[open[j]]) in KeysOf(arena, rest) {
      var i := if j < m then j else j - 1;
      assert rest[i] == open[j];
    }
  }

  /** Removing an entry keeps the queue free of duplicates, and the removed identity is not left in it. */
  lemma KeysOfRemoveDistinct(arena: seq<Node>, open: seq<nat>, m: nat, closed: set<StateKey>)
    requires RefsIn(arena, open) && m < |open| && Distinct(arena, open)
    ensures RefsIn(arena, open[..m] + open[m + 1..])
    ensures Distinct(arena, open[..m] + open[m + 1..])
    ensures AvoidsClosed(arena, open, closed) ==> AvoidsClosed(arena, open[..m] + open[m + 1..], closed + {Key(arena[open[m]])})
  {
    var rest := open[..m] + open[m + 1..];
    Removed(open, m);
    forall i, j | 0 <= i < j < |rest| ensures Key(arena[rest[i]]) != Key(arena[rest[j]]) {
      assert Shift(m, i) < Shift(m, j);
    }
    forall j | 0 <= j < |rest| ensures Key(arena[rest[j]]) != Key(arena[open[m]]) {
      var k := Shift(m, j);
      if k < m {
        assert Key(arena[open[k]]) != Key(arena[open[m]]);
      } else {
        assert Key(arena[open[m]]) != Key(arena[open[k]]);
      }
    }
  }

  /** Removing an entry keeps every remaining cost shortest. */
  lemma KeysOfRemoveShortest(g: Grid, start: StateKey, arena: seq<Node>, open: seq<nat>, m: nat)
    requires RefsIn(arena, open) && m < |open| && AllShortest(g, start, arena, open)
    ensures RefsIn(arena, open[..m] + open[m + 1..])
    ensures AllShortest(g, start, arena, open[..m] + open[m + 1..])
  {
    var rest := open[..m] + open[m + 1..];
    Removed(open, m);
    forall j | 0 <= j < |rest| ensures Shortest(g, start, Key(arena[rest[j]]), arena[rest[j]].cost) {
      assert rest[j] == open[Shift(m, j)];
    }
  }

  /** `PriorityQueue.poll` removes the head entry and keeps the others. */
  lemma KeysOfRemove(g: Grid, start: StateKey, arena: seq<Node>, open: seq<nat>, m: nat, closed: set<StateKey>)
    requires RefsIn(arena, open) && m < |open|
    ensures RefsIn(arena, open[..m] + open[m + 1..])
    ensures KeysOf(arena, open[..m] + open[m + 1..]) <= KeysOf(arena, open)
    ensures KeysOf(arena, open) <= KeysOf(arena, open[..m] + open[m + 1..]) + {Key(arena[open[m]])}
    ensures Distinct(arena, open) ==> Distinct(arena, open[..m] + open[m + 1..])
    ensures Distinct(arena, open) && AvoidsClosed(arena, open, closed)
            ==> AvoidsClosed(arena, open[..m] + open[m + 1..], closed + {Key(arena[open[m]])})
    ensures AllShortest(g, start, arena, open) ==> AllShortest(g, start, arena, open[..m] + open[m + 1..])
  {
    KeysOfRemoveKeys(arena, open, m);
    if Distinct(arena, open) {
      KeysOfRemoveDistinct(arena, open, m, closed);
    }
    if AllShortest(g, start, arena, open) {
      KeysOfRemoveShortest(g, start, arena, open, m);
    }
  }

  lemma KeysOfPush(arena: seq<Node>, open: seq<nat>, n: Node)
    requires RefsIn(arena, open)
    ensures RefsIn(arena + [n], open + [|arena|])
    ensures KeysOf(arena + [n], open + [|arena|]) == KeysOf(arena, open) + {Key(n)}
  {
    var open' := open + [|arena|];
    var arena' := arena + [n];
    forall j | 0 <= j < |open| ensures Key(arena'[open'[j]]) == Key(arena[open[j]]) {
    }
    assert Key(arena'[open'[|open|]]) == Key(n);
  }

  /** Queueing a node equal to no queued node keeps the queue duplicate-free. */
  lemma DistinctPush(arena: seq<Node>, open: seq<nat>, n: Node)
    requires RefsIn(arena, open) && Distinct(arena, open) && Key(n) !in KeysOf(arena, open)
    ensures RefsIn(arena + [n], open + [|arena|]) && Distinct(arena + [n], open + [|arena|])
  {
    KeysOfPush(arena, open, n);
    var arena', open' := arena + [n], open + [|arena|];
    assert forall j | 0 <= j < |open| :: arena'[open'[j]] == arena[open[j]];
    assert arena'[open'[|open|]] == n;
  }

  /**
   * `nodes'`/`open'` extend `nodes`/`open` by appending each new node to
   * the arena and queueing it at its own index, in the same order.
   */
  ghost predicate Appended(nodes: seq<Node>, open: seq<nat>, nodes': seq<Node>, open': seq<nat>)
  {
    && nodes <= nodes' && open <= open'
    && |nodes'| - |nodes| == |open'| - |open|
    && (forall t | |open| <= t < |open'| :: open'[t] == |nodes| + (t - |open|))
  }

  /** Every node appended past `nodes` is queued in `open'`. */
  lemma AppendedQueued(nodes: seq<Node>, open: seq<nat>, nodes': seq<Node>, open': seq<nat>)
    requires Appended(nodes, open, nodes', open') && RefsIn(nodes', open')
    ensures forall t | |nodes| <= t < |nodes'| :: Key(nodes'[t]) in KeysOf(nodes', open')
  {
    forall t | |nodes| <= t < |nodes'| ensures Key(nodes'[t]) in KeysOf(nodes', open') {
      AppendedQueuedAt(nodes, open, nodes', open', t);
    }
  }

  lemma AppendedQueuedAt(nodes: seq<Node>, open: seq<nat>, nodes': seq<Node>, open': seq<nat>, t: nat)
    requires Appended(nodes, open, nodes', open') && RefsIn(nodes', open') && |nodes| <= t < |nodes'|
    ensures Key(nodes'[t]) in KeysOf(nodes', open')
  {
    var j := |open| + (t - |nodes|);
    assert open'[j] == t;
  }

  /** Moving `k` from the open identities to the closed ones leaves the known identities unchanged. */
  lemma SameKnown(closed: set<StateKey>, open: set<StateKey>, open': set<StateKey>, k: StateKey)
    requires open' <= open <= open' + {k} && k in open
    ensures closed + open == (closed + {k}) + open'
  {
  }

  lemma PrefixSlice<T>(a: seq<T>, b: seq<T>)
    requires a <= b
    ensures b[..|a|] == a
  {
  }

  /**
   * The creation numbers of the entries of `nodes` from `base` on lie in
   * `[lo, hi)` and strictly increase along the sequence.
   */
  ghost predicate NumberedIn(nodes: seq<Node>, base: nat, lo: int, hi: int)
  {
    && (forall t | base <= t < |nodes| :: lo <= nodes[t].orderOfCreation < hi)
    && (forall t, u | base <= t < u < |nodes| :: nodes[t].orderOfCreation < nodes[u].orderOfCreation)
  }

  /**
   * Appending the next of a run of increasingly numbered children to
   * entries drawn from the earlier ones keeps the numbering increasing.
   */
  lemma NumberedStep(nodes: seq<Node>, base: nat, children: seq<Node>, i: nat, nodes': seq<Node>, lo: int, hi: int)
    requires i < |children| && NumberedIn(children, 0, lo, hi)
    requires base <= |nodes| && NumberedIn(nodes, base, lo, hi)
    requires forall t | base <= t < |nodes| :: nodes[t] in children[..i]
    requires nodes' == nodes || nodes' == nodes + [children[i]]
    ensures NumberedIn(nodes', base, lo, hi)
  {
    if nodes' != nodes {
      forall t | base <= t < |nodes| ensures nodes[t].orderOfCreation < children[i].orderOfCreation {
        assert nodes[t] in children[..i];
        var j :| 0 <= j < |children[..i]| && children[..i][j] == nodes[t];
        assert children[j] == nodes[t];
      }
      assert nodes'[|nodes|] == children[i];
      assert forall t | base <= t < |nodes| :: nodes'[t] == nodes[t];
    }
  }

  /** The identities of the nodes in `s`. */
  ghost function KeySet(s: seq<Node>): set<StateKey>
  {
    set n | n in s :: Key(n)
  }

  /** The successor states of `k`: exactly the states one kept move away. */
  ghost function Successors(g: Grid, k: StateKey): (r: set<StateKey>)
    ensures forall a | StepKey(g, k, a).Some? :: StepKey(g, k, a).value in r
    ensures forall k' | k' in r :: exists a :: StepKey(g, k, a) == Some(k')
  {
    set a | a in LegalMoves(g, k) :: StepKey(g, k, a).value
  }

  // ---------------------------------------------------------------------
  // Stack order
  // ---------------------------------------------------------------------

  /** `s` back to front: the order in which a `Stack` filled by `add` is popped. */
  function Reversed<T>(s: seq<T>): (r: seq<T>)
    ensures |r| == |s|
    ensures forall i | 0 <= i < |s| :: r[i] == s[|s| - 1 - i]
  {
    if s == [] then [] else [s[|s| - 1]] + Reversed(s[..|s| - 1])
  }

  lemma ReversedSnoc<T>(s: seq<T>, x: T)
    ensures Reversed(s + [x]) == [x] + Reversed(s)
  {
    assert (s + [x])[..|s|] == s;
  }

  /** Popping the top of the stack yields the first move still to be made, and leaves the rest in order. */
  lemma PopTakesFront<T>(s: seq<T>)
    requires s != []
    ensures s[|s| - 1] == Reversed(s)[0]
    ensures Reversed(s[..|s| - 1]) == Reversed(s)[1..]
  {
  }

  lemma ReversedTwice<T>(s: seq<T>)
    ensures Reversed(Reversed(s)) == s
  {
  }

  // ---------------------------------------------------------------------
  // The agent
  // ---------------------------------------------------------------------

  class DijkstraAgent {
    const grid: Grid
    const portal: Cell
    const avatarInitialPosition: Cell
    const initialBlueCapes: seq<Cell>
    const initialRedCapes: seq<Cell>

    /** The computed moves; the top of the stack is the end of the sequence. */
    var path: seq<Action>
    var orderOfCreation: int
    /** The open priority queue, as indices into `arena`. */
    var openNodes: seq<nat>
    /** The closed `HashSet`, as the identities it holds. */
    var closedNodes: set<StateKey>
    /** Every node inserted into the open queue so far; `father` links index into it. */
    var arena: seq<Node>

    /** The identity of the search's root node. */
    function StartKey(): StateKey
    {
      StateKey(avatarInitialPosition.x, avatarInitialPosition.y, false, false, initialBlueCapes, initialRedCapes)
    }

    /** The keys the search can meet: on the grid, with pickup lists drawn from the initial ones. */
    ghost predicate Within(k: StateKey)
    {
      && InGrid(grid, KeyCell(k))
      && |k.blueCapesRemaining| <= |initialBlueCapes| && (forall c | c in k.blueCapesRemaining :: c in initialBlueCapes)
      && |k.redCapesRemaining| <= |initialRedCapes| && (forall c | c in k.redCapesRemaining :: c in initialRedCapes)
    }

    ghost function Universe(): set<StateKey>
    {
      var bs := SeqsUpTo(set c | c in initialBlueCapes, |initialBlueCapes|);
      var rs := SeqsUpTo(set c | c in initialRedCapes, |initialRedCapes|);
      set x: int, y: int, blue: bool, red: bool, bl: seq<Cell>, rl: seq<Cell>
        | 0 <= x < grid.gridWidth && 0 <= y < grid.gridHeight && bl in bs && rl in rs
        :: StateKey(x, y, blue, red, bl, rl)
    }

    lemma WithinUniverse(k: StateKey)
      requires Within(k)
      ensures k in Universe()
    {
      InSeqsUpTo(set c | c in initialBlueCapes, |initialBlueCapes|, k.blueCapesRemaining);
      InSeqsUpTo(set c | c in initialRedCapes, |initialRedCapes|, k.redCapesRemaining);
      assert k == StateKey(k.x, k.y, k.blueCape, k.redCape, k.blueCapesRemaining, k.redCapesRemaining);
    }

    lemma StepWithin(k: StateKey, a: Action)
      requires Within(k) && StepKey(grid, k, a).Some?
      ensures Within(StepKey(grid, k, a).value)
    {
      ArriveShrinks(k, Target(k.x, k.y, a));
    }

    /** Entry `i` of `nodes` is a search node the planner could have built. */
    ghost predicate NodeOk(nodes: seq<Node>, i: nat)
      requires i < |nodes|
    {
      var n := nodes[i];
      && n.heuristic == 0
      && Within(Key(n))
      && match n.father
         case NoParent => Key(n) == StartKey() && n.cost == 0 && n.lastAction == ActionNil
         case ParentAt(p) =>
           && p < i && n.lastAction != ActionNil && n.cost == nodes[p].cost + 1
           && StepKey(grid, Key(nodes[p]), n.lastAction) == Some(Key(n))
    }

    lemma NodeOkExtend(nodes: seq<Node>, n: Node, i: nat)
      requires i < |nodes| && NodeOk(nodes, i)
      ensures NodeOk(nodes + [n], i)
    {
      assert (nodes + [n])[i] == nodes[i];
      if nodes[i].father.ParentAt? {
        assert (nodes + [n])[nodes[i].father.index] == nodes[nodes[i].father.index];
      }
    }

    /** An arena and a queue over it: every entry is well formed and every queue entry refers into the arena. */
    ghost predicate Shaped(nodes: seq<Node>, open: seq<nat>)
    {
      WellFormed(nodes) && RefsIn(nodes, open)
    }

    ghost predicate Valid()
      reads this`arena, this`openNodes, this`closedNodes
    {
      && InGrid(grid, avatarInitialPosition)
      && Shaped(arena, openNodes)
      && (forall k | k in closedNodes :: Within(k) && KeyCell(k) != portal)
    }

    ghost function OpenKeys(): set<StateKey>
      reads this`arena, this`openNodes, this`closedNodes
      requires RefsIn(arena, openNodes)
    {
      KeysOf(arena, openNodes)
    }

    /** Every identity the search has met so far: closed or queued. */
    ghost function Known(): set<StateKey>
      reads this`arena, this`openNodes, this`closedNodes
      requires RefsIn(arena, openNodes)
    {
      closedNodes + OpenKeys()
    }

    /** The search only ever meets keys of the finite state space. */
    lemma KnownWithin()
      requires Valid()
      ensures Known() <= Universe()
    {
      forall k | k in Known() ensures k in Universe() {
        if k !in closedNodes {
          var j :| 0 <= j < |openNodes| && Key(arena[openNodes[j]]) == k;
          assert NodeOk(arena, openNodes[j]);
        }
        WithinUniverse(k);
      }
    }

    /** Every entry of `nodes` is a search node the planner could have built. */
    ghost predicate WellFormed(nodes: seq<Node>)
    {
      forall i | 0 <= i < |nodes| :: NodeOk(nodes, i)
    }

    /** The moves from the root of node `i` down to `i`, following `father` links. */
    ghost function Trace(nodes: seq<Node>, i: nat): seq<Action>
      requires WellFormed(nodes) && i < |nodes|
      decreases i
    {
      assert NodeOk(nodes, i);
      match nodes[i].father
      case NoParent => []
      case ParentAt(p) => Trace(nodes, p) + [nodes[i].lastAction]
    }

    /** A node's trace has exactly `cost` moves and leads from the start state to the node's state. */
    lemma {:induction false} TraceReachesNode(nodes: seq<Node>, i: nat)
      requires WellFormed(nodes) && i < |nodes|
      ensures |Trace(nodes, i)| == nodes[i].cost
      ensures Replay(grid, StartKey(), Trace(nodes, i)) == Some(Key(nodes[i]))
      decreases i
    {
      assert NodeOk(nodes, i);
      match nodes[i].father
      case NoParent =>
      case ParentAt(p) =>
        TraceReachesNode(nodes, p);
        ReplaySnoc(grid, StartKey(), Trace(nodes, p), nodes[i].lastAction);
    }

    /** Nothing has been searched yet. */
    ghost predicate Fresh()
      reads this`arena, this`openNodes, this`closedNodes
    {
      openNodes == [] && closedNodes == {}
    }

    /** The queue-shape invariant: shortest costs, no two equal queued nodes, none equal to a closed one. */
    ghost predicate TidyOf(nodes: seq<Node>, open: seq<nat>, closed: set<StateKey>)
      requires RefsIn(nodes, open)
    {
      && AllShortest(grid, StartKey(), nodes, open)
      && Distinct(nodes, open)
      && AvoidsClosed(nodes, open, closed)
    }

    ghost predicate Tidy()
      reads this`arena, this`openNodes, this`closedNodes
      requires RefsIn(arena, openNodes)
    {
      TidyOf(arena, openNodes, closedNodes)
    }

    /** The invariant of a search that started from an empty queue and an empty closed set. */
    ghost predicate SearchInv()
      reads this`arena, this`openNodes, this`closedNodes
      requires RefsIn(arena, openNodes)
    {
      Covered(grid, StartKey(), closedNodes, OpenKeys()) && Tidy()
    }

    /** Every route from the start to the portal has at least `cost` moves. */
    ghost predicate PortalAtLeast(cost: int)
    {
      forall acts | Replay(grid, StartKey(), acts).Some? && KeyCell(Replay(grid, StartKey(), acts).value) == portal
        :: cost <= |acts|
    }

    /** No route from the start reaches the portal. */
    ghost predicate PortalUnreachable()
    {
      forall acts | Replay(grid, StartKey(), acts).Some? :: KeyCell(Replay(grid, StartKey(), acts).value) != portal
    }

    constructor (grid: Grid, portal: Cell, start: Cell, blueCapes: seq<Cell>, redCapes: seq<Cell>)
      requires InGrid(grid, start)
      ensures this.grid == grid && this.portal == portal && avatarInitialPosition == start
      ensures initialBlueCapes == blueCapes && initialRedCapes == redCapes
      ensures path == [] && orderOfCreation == 0 && arena == [] && Fresh()
      ensures Valid()
    {
      this.grid := grid;
      this.portal := portal;
      avatarInitialPosition := start;
      initialBlueCapes := blueCapes;
      initialRedCapes := redCapes;
      path := [];
      orderOfCreation := 0;
      openNodes := [];
      closedNodes := {};
      arena := [];
    }

    /**
     * `nodeChildren`: one child per legal move of `father`, in the order
     * RIGHT, LEFT, UP, DOWN, each one step further (`cost + 1`), linked to
     * `father`, carrying the parent's capes and lists after the pickup rule,
     * and numbered with consecutive creation orders.
     */
    method NodeChildren(father: Node, link: Parent) returns (children: seq<Node>)
      requires InGrid(grid, CellOf(father))
      modifies this`orderOfCreation
      ensures |children| == |LegalMoves(grid, Key(father))|
      ensures orderOfCreation == old(orderOfCreation) + |children|
      ensures forall i | 0 <= i < |children| ::
                children[i] == Child(father, LegalMoves(grid, Key(father))[i], father.cost + 1, link)
                                 .(orderOfCreation := old(orderOfCreation) + i)
    {
      children := Survivors(grid, father, father.cost + 1, link);
      ghost var placeholders := children;
      children := Number(father, children);
      forall j | 0 <= j < |children|
        ensures children[j] == Child(father, LegalMoves(grid, Key(father))[j], father.cost + 1, link)
                                 .(orderOfCreation := old(orderOfCreation) + j)
      {
        assert placeholders[j] == Placeholder(father, LegalMoves(grid, Key(father))[j], father.cost + 1, link);
      }
    }

    /**
     * The last loop of `nodeChildren`: apply the pickup rule to each child in
     * turn and give it the next creation number.
     */
    method Number(father: Node, placeholders: seq<Node>) returns (children: seq<Node>)
      modifies this`orderOfCreation
      ensures |children| == |placeholders|
      ensures orderOfCreation == old(orderOfCreation) + |placeholders|
      ensures forall j | 0 <= j < |children| :: children[j] == Numbered(father, placeholders[j], old(orderOfCreation) + j)
    {
      children := placeholders;
      var i := 0;
      while i < |children|
        invariant 0 <= i <= |children| == |placeholders|
        invariant orderOfCreation == old(orderOfCreation) + i
        invariant forall j | 0 <= j < i :: children[j] == Numbered(father, placeholders[j], old(orderOfCreation) + j)
        invariant forall j | i <= j < |children| :: children[j] == placeholders[j]
      {
        var child := Numbered(father, children[i], orderOfCreation);
        children := children[i := child];
        orderOfCreation := orderOfCreation + 1;
        i := i + 1;
      }
    }

    /** One iteration of the last loop of `nodeChildren`: the pickup rule, then the next creation number. */
    function Numbered(father: Node, child: Node, order: int): Node
    {
      PickUp(father, child).(orderOfCreation := order)
    }

    /** `n` may be appended to the arena as a child of `parent`, stored at index `pi`. */
    ghost predicate FitsUnder(parent: Node, n: Node, pi: nat)
    {
      && n.heuristic == 0
      && Within(Key(n))
      && n.father == ParentAt(pi)
      && n.lastAction != ActionNil
      && n.cost == parent.cost + 1
      && StepKey(grid, Key(parent), n.lastAction) == Some(Key(n))
    }

    /**
     * The entries of `nodes` from `base` on are children of `parent` stored
     * under index `pi`, pairwise unequal and equal to nothing in `known`.
     */
    ghost predicate NewChildren(nodes: seq<Node>, base: nat, known: set<StateKey>, parent: Node, pi: nat)
    {
      && (forall t | base <= t < |nodes| :: FitsUnder(parent, nodes[t], pi) && Key(nodes[t]) !in known)
      && (forall t, u | base <= t < u < |nodes| :: Key(nodes[t]) != Key(nodes[u]))
    }

    /**
     * `openNodes.add(n)`: the arena stays well formed and the queue gains
     * exactly the identity of `n`.
     */
    lemma InsertKeeps(nodes: seq<Node>, open: seq<nat>, n: Node)
      requires Shaped(nodes, open) && NodeOk(nodes + [n], |nodes|)
      ensures Shaped(nodes + [n], open + [|nodes|])
      ensures KeysOf(nodes + [n], open + [|nodes|]) == KeysOf(nodes, open) + {Key(n)}
    {
      KeysOfPush(nodes, open, n);
      forall i | 0 <= i < |nodes| ensures NodeOk(nodes + [n], i) {
        NodeOkExtend(nodes, n, i);
      }
    }

    /**
     * Adding a node equal to no closed and no queued node, at a shortest
     * cost, keeps the queue tidy.
     */
    lemma InsertTidy(nodes: seq<Node>, open: seq<nat>, closed: set<StateKey>, n: Node)
      requires RefsIn(nodes, open) && TidyOf(nodes, open, closed)
      requires Key(n) !in closed + KeysOf(nodes, open) && Shortest(grid, StartKey(), Key(n), n.cost)
      ensures RefsIn(nodes + [n], open + [|nodes|])
      ensures TidyOf(nodes + [n], open + [|nodes|], closed)
    {
      DistinctPush(nodes, open, n);
      var nodes', open' := nodes + [n], open + [|nodes|];
      assert forall j | 0 <= j < |open| :: nodes'[open'[j]] == nodes[open[j]];
      assert nodes'[open'[|open|]] == n;
    }

    /**
     * One iteration of the child loop of `calculatePath`, on the queue and
     * arena `nodes`/`open`: the child is queued exactly when it equals no
     * closed node and no queued node.
     */
    method Offer(nodes: seq<Node>, open: seq<nat>, child: Node, ghost pi: nat, ghost tidy: bool)
      returns (nodes': seq<Node>, open': seq<nat>)
      requires Shaped(nodes, open) && pi < |nodes| && FitsUnder(nodes[pi], child, pi)
      requires tidy ==> TidyOf(nodes, open, closedNodes)
      requires tidy && Key(child) !in closedNodes + KeysOf(nodes, open) ==> Shortest(grid, StartKey(), Key(child), child.cost)
      ensures Shaped(nodes', open')
      ensures if Key(child) in closedNodes + KeysOf(nodes, open) then nodes' == nodes && open' == open
              else nodes' == nodes + [child] && open' == open + [|nodes|]
      ensures KeysOf(nodes', open') == KeysOf(nodes, open) + (if Key(child) in closedNodes then {} else {Key(child)})
      ensures Distinct(nodes, open) ==> Distinct(nodes', open')
      ensures tidy ==> TidyOf(nodes', open', closedNodes)
    {
      nodes', open' := nodes, open;
      if Key(child) !in closedNodes {
        var present := OpenContains(nodes, open, child);
        if !present {
          assert (nodes + [child])[pi] == nodes[pi];
          InsertKeeps(nodes, open, child);
          if Distinct(nodes, open) {
            DistinctPush(nodes, open, child);
          }
          if tidy {
            InsertTidy(nodes, open, closedNodes, child);
          }
          nodes', open' := nodes + [child], open + [|nodes|];
        }
      }
    }

    /**
     * The state of the child loop of `calculatePath` after offering `done`,
     * starting from `nodes0`/`open0` with the identities `known0` known:
     * the known identities are the old ones plus those of `done`, and the
     * nodes appended since are distinct new children of `parent`, each taken
     * from `done` and queued at its own index.
     */
    ghost predicate Pushed(nodes0: seq<Node>, open0: seq<nat>, known0: set<StateKey>, closed: set<StateKey>,
                           parent: Node, pi: nat, done: seq<Node>, nodes: seq<Node>, open: seq<nat>)
      requires RefsIn(nodes, open)
    {
      && Appended(nodes0, open0, nodes, open)
      && closed + KeysOf(nodes, open) == known0 + KeySet(done)
      && NewChildren(nodes, |nodes0|, known0, parent, pi)
      && (forall t | |nodes0| <= t < |nodes| :: nodes[t] in done)
    }

    /** Offering child `i`, as `Offer` does, extends `Pushed` by that child. */
    lemma PushedStep(nodes0: seq<Node>, open0: seq<nat>, known0: set<StateKey>, closed: set<StateKey>,
                     parent: Node, pi: nat, children: seq<Node>, i: nat, nodes: seq<Node>, open: seq<nat>,
                     nodes': seq<Node>, open': seq<nat>)
      requires i < |children| && RefsIn(nodes, open) && RefsIn(nodes', open')
      requires Pushed(nodes0, open0, known0, closed, parent, pi, children[..i], nodes, open)
      requires FitsUnder(parent, children[i], pi)
      requires if Key(children[i]) in closed + KeysOf(nodes, open) then nodes' == nodes && open' == open
               else nodes' == nodes + [children[i]] && open' == open + [|nodes|]
      requires KeysOf(nodes', open') == KeysOf(nodes, open) + (if Key(children[i]) in closed then {} else {Key(children[i])})
      ensures Pushed(nodes0, open0, known0, closed, parent, pi, children[..i + 1], nodes', open')
    {
      var child, done, done' := children[i], children[..i], children[..i + 1];
      assert done' == done + [child];
      assert KeySet(done') == KeySet(done) + {Key(child)};
      if Key(child) !in closed + KeysOf(nodes, open) {
        AppendChild(nodes0, open0, known0, parent, pi, done, nodes, open, child);
      }
    }

    /** Appending and queueing a new child of `parent` keeps the appended part well described. */
    lemma AppendChild(nodes0: seq<Node>, open0: seq<nat>, known0: set<StateKey>, parent: Node, pi: nat,
                      done: seq<Node>, nodes: seq<Node>, open: seq<nat>, child: Node)
      requires RefsIn(nodes, open) && Appended(nodes0, open0, nodes, open)
      requires NewChildren(nodes, |nodes0|, known0, parent, pi)
      requires forall t | |nodes0| <= t < |nodes| :: nodes[t] in done
      requires FitsUnder(parent, child, pi) && Key(child) !in known0 + KeysOf(nodes, open)
      ensures Appended(nodes0, open0, nodes + [child], open + [|nodes|])
      ensures NewChildren(nodes + [child], |nodes0|, known0, parent, pi)
      ensures forall t | |nodes0| <= t < |nodes| + 1 :: (nodes + [child])[t] in done + [child]
    {
      var nodes' := nodes + [child];
      AppendedQueued(nodes0, open0, nodes, open);
      assert forall t | |nodes0| <= t < |nodes| :: nodes'[t] == nodes[t];
      assert nodes'[|nodes|] == child;
    }

    /**
     * The loop of `calculatePath` that offers each child to the queue:
     * afterwards the known identities are the old ones plus those of the
     * children, and each child equal to nothing known before was appended
     * to the arena and queued exactly once. A duplicate-free queue stays
     * duplicate-free.
     */
    method PushChildren(children: seq<Node>, ghost pi: nat, ghost tidy: bool, ghost lo: int, ghost hi: int)
      requires Valid() && pi < |arena|
      requires forall j | 0 <= j < |children| :: FitsUnder(arena[pi], children[j], pi)
      requires NumberedIn(children, 0, lo, hi)
      requires tidy ==> Tidy()
      requires tidy ==> forall j | 0 <= j < |children| && Key(children[j]) !in Known() ::
                          Shortest(grid, StartKey(), Key(children[j]), children[j].cost)
      modifies this`arena, this`openNodes
      ensures Valid()
      ensures Pushed(old(arena), old(openNodes), old(Known()), closedNodes, old(arena)[pi], pi, children, arena, openNodes)
      ensures Known() == old(Known()) ==> openNodes == old(openNodes)
      ensures NumberedIn(arena, |old(arena)|, lo, hi)
      ensures old(Distinct(arena, openNodes)) ==> Distinct(arena, openNodes)
      ensures tidy ==> Tidy()
    {
      var nodes, open := arena, openNodes;
      ghost var parent := arena[pi];
      ghost var known0 := Known();
      ghost var distinct0 := Distinct(arena, openNodes);
      var i := 0;
      assert children[..0] == [];
      while i < |children|
        invariant 0 <= i <= |children|
        invariant Shaped(nodes, open) && pi < |nodes| && nodes[pi] == parent
        invariant Pushed(old(arena), old(openNodes), known0, closedNodes, parent, pi, children[..i], nodes, open)
        invariant NumberedIn(nodes, |old(arena)|, lo, hi)
        invariant distinct0 ==> Distinct(nodes, open)
        invariant tidy ==> TidyOf(nodes, open, closedNodes)
      {
        PushedKnows(old(arena), old(openNodes), known0, closedNodes, parent, pi, children[..i], nodes, open);
        var nodes', open' := Offer(nodes, open, children[i], pi, tidy);
        PushedStep(old(arena), old(openNodes), known0, closedNodes, parent, pi, children, i, nodes, open, nodes', open');
        NumberedStep(nodes, |old(arena)|, children, i, nodes', lo, hi);
        nodes, open := nodes', open';
        i := i + 1;
      }
      assert children[..i] == children;
      if closedNodes + KeysOf(nodes, open) == known0 {
        PushedNothing(old(arena), old(openNodes), known0, closedNodes, parent, pi, children, nodes, open);
      }
      arena, openNodes := nodes, open;
    }

    /** Nothing known at the start of the loop is forgotten. */
    lemma PushedKnows(nodes0: seq<Node>, open0: seq<nat>, known0: set<StateKey>, closed: set<StateKey>,
                      parent: Node, pi: nat, done: seq<Node>, nodes: seq<Node>, open: seq<nat>)
      requires RefsIn(nodes, open) && Pushed(nodes0, open0, known0, closed, parent, pi, done, nodes, open)
      ensures known0 <= closed + KeysOf(nodes, open)
    {
    }

    /** When no identity became known, nothing was appended or queued. */
    lemma PushedNothing(nodes0: seq<Node>, open0: seq<nat>, known0: set<StateKey>, closed: set<StateKey>,
                        parent: Node, pi: nat, done: seq<Node>, nodes: seq<Node>, open: seq<nat>)
      requires RefsIn(nodes, open) && Pushed(nodes0, open0, known0, closed, parent, pi, done, nodes, open)
      requires closed + KeysOf(nodes, open) == known0
      ensures nodes == nodes0 && open == open0
    {
      if |nodes0| < |nodes| {
        AppendedQueuedAt(nodes0, open0, nodes, open, |nodes0|);
        assert false;
      }
    }

    /**
     * The head of a tidy queue is at most as far from the start as any queued
     * state: with every heuristic 0, `compareTo` orders by cost first.
     */
    lemma HeadBound(nodes: seq<Node>, open: seq<nat>, m: nat)
      requires Shaped(nodes, open) && m < |open| && AllShortest(grid, StartKey(), nodes, open)
      requires forall j | 0 <= j < |open| :: Compare(nodes[open[m]], nodes[open[j]]) <= 0
      ensures forall o | o in KeysOf(nodes, open) :: Shortest(grid, StartKey(), o, nodes[open[m]].cost)
    {
      forall o | o in KeysOf(nodes, open) ensures Shortest(grid, StartKey(), o, nodes[open[m]].cost) {
        var j :| 0 <= j < |open| && Key(nodes[open[j]]) == o;
        assert NodeOk(nodes, open[j]) && NodeOk(nodes, open[m]);
        assert Compare(nodes[open[m]], nodes[open[j]]) <= 0;
        assert Shortest(grid, StartKey(), o, nodes[open[j]].cost);
      }
    }

    /**
     * Expansion in `calculatePath` of the polled node `arena[current]`,
     * already closed: its children are generated and offered, so afterwards
     * the known identities are the old ones plus the successor states of
     * the expanded node, and the nodes appended to the arena and queue are
     * distinct children of it, each equal to nothing known before.
     */
    method Expand(current: nat, ghost fromScratch: bool, ghost closed0: set<StateKey>, ghost open0: set<StateKey>)
      requires Valid() && current < |arena|
      requires closed0 + open0 <= Known()
      requires fromScratch ==> Tidy() && Covered(grid, StartKey(), closed0, open0)
      requires fromScratch ==> closedNodes == closed0 + {Key(arena[current])}
      requires fromScratch ==> forall o | o in open0 :: Shortest(grid, StartKey(), o, arena[current].cost)
      modifies this`arena, this`openNodes, this`orderOfCreation
      ensures Valid() && Appended(old(arena), old(openNodes), arena, openNodes)
      ensures Known() == old(Known()) + Successors(grid, Key(old(arena)[current]))
      ensures NewChildren(arena, |old(arena)|, old(Known()), old(arena)[current], current)
      ensures Known() == old(Known()) ==> openNodes == old(openNodes)
      ensures orderOfCreation == old(orderOfCreation) + |LegalMoves(grid, Key(old(arena)[current]))|
      ensures NumberedIn(arena, |old(arena)|, old(orderOfCreation), orderOfCreation)
      ensures old(Distinct(arena, openNodes)) ==> Distinct(arena, openNodes)
      ensures fromScratch ==> SearchInv()
    {
      var node := arena[current];
      assert NodeOk(arena, current);
      ghost var order := orderOfCreation;
      var children := NodeChildren(node, ParentAt(current));
      ghost var known0 := Known();
      assert known0 == old(Known());
      ChildrenFit(node, current, children, order);
      if fromScratch {
        ChildrenShortest(closed0, open0, node, children, known0);
      }
      PushChildren(children, current, fromScratch, order, orderOfCreation);
      ChildKeys(node, children);
      assert NewChildren(arena, |old(arena)|, known0, node, current);
      if fromScratch {
        CloseCovers(grid, StartKey(), closed0, open0, Key(node), closedNodes, OpenKeys());
      }
    }

    /** The children of `parent` may all be stored under it at index `pi`, each by the step of its move. */
    lemma {:induction false} ChildrenFit(parent: Node, pi: nat, children: seq<Node>, order: int)
      requires Within(Key(parent)) && |children| == |LegalMoves(grid, Key(parent))|
      requires forall i | 0 <= i < |children| ::
                 children[i] == Child(parent, LegalMoves(grid, Key(parent))[i], parent.cost + 1, ParentAt(pi))
                                  .(orderOfCreation := order + i)
      ensures forall j | 0 <= j < |children| ::
                FitsUnder(parent, children[j], pi)
                && StepKey(grid, Key(parent), LegalMoves(grid, Key(parent))[j]) == Some(Key(children[j]))
      ensures NumberedIn(children, 0, order, order + |children|)
    {
      var acts := LegalMoves(grid, Key(parent));
      forall j | 0 <= j < |children|
        ensures FitsUnder(parent, children[j], pi) && StepKey(grid, Key(parent), acts[j]) == Some(Key(children[j]))
      {
        assert acts[j] in acts;
        ChildIsStep(grid, parent, acts[j], parent.cost + 1, ParentAt(pi));
        StepWithin(Key(parent), acts[j]);
      }
    }

    /**
     * Expanding a node whose cost bounds every open key from below: each
     * child meeting no known key is at a shortest cost.
     */
    lemma {:induction false} ChildrenShortest(closed: set<StateKey>, open: set<StateKey>, parent: Node,
                                              children: seq<Node>, known: set<StateKey>)
      requires Covered(grid, StartKey(), closed, open) && closed + open <= known
      requires forall o | o in open :: Shortest(grid, StartKey(), o, parent.cost)
      requires forall j | 0 <= j < |children| :: children[j].cost == parent.cost + 1
      ensures forall j | 0 <= j < |children| && Key(children[j]) !in known ::
                Shortest(grid, StartKey(), Key(children[j]), children[j].cost)
    {
      forall j | 0 <= j < |children| && Key(children[j]) !in known
        ensures Shortest(grid, StartKey(), Key(children[j]), children[j].cost)
      {
        DiscoveredShortest(grid, StartKey(), closed, open, parent.cost, Key(children[j]));
      }
    }

    /** The identities of the children of `parent` are exactly the successor states of its state. */
    lemma {:induction false} ChildKeys(parent: Node, children: seq<Node>)
      requires |children| == |LegalMoves(grid, Key(parent))|
      requires forall j | 0 <= j < |children| ::
                 StepKey(grid, Key(parent), LegalMoves(grid, Key(parent))[j]) == Some(Key(children[j]))
      ensures KeySet(children) == Successors(grid, Key(parent))
    {
      var acts := LegalMoves(grid, Key(parent));
      forall k | k in KeySet(children) ensures k in Successors(grid, Key(parent)) {
        var j :| 0 <= j < |children| && Key(children[j]) == k;
        assert acts[j] in acts;
      }
      forall k | k in Successors(grid, Key(parent)) ensures k in KeySet(children) {
        var a :| StepKey(grid, Key(parent), a) == Some(k);
        var j :| 0 <= j < |acts| && acts[j] == a;
        assert children[j] in children;
      }
    }

    /**
     * `openNodes.poll()`: removes a minimum of the queue under `compareTo`
     * and returns it. In a tidy queue the rest stays tidy once the polled
     * state is closed, and every queued state is at least as far from the
     * start as the polled one.
     */
    method Poll() returns (current: nat)
      requires Valid() && openNodes != []
      modifies this`openNodes
      ensures Valid() && current in old(openNodes) && |openNodes| == |old(openNodes)| - 1
      ensures forall j | 0 <= j < |old(openNodes)| :: Compare(arena[current], arena[old(openNodes)[j]]) <= 0
      ensures multiset(openNodes) == multiset(old(openNodes)) - multiset{current}
      ensures Key(arena[current]) in old(OpenKeys())
      ensures OpenKeys() <= old(OpenKeys()) <= OpenKeys() + {Key(arena[current])}
      ensures old(Tidy()) ==> TidyOf(arena, openNodes, closedNodes + {Key(arena[current])})
      ensures old(Tidy()) ==> forall o | o in old(OpenKeys()) :: Shortest(grid, StartKey(), o, arena[current].cost)
    {
      var m := Head(arena, openNodes);
      current := openNodes[m];
      if Tidy() {
        HeadBound(arena, openNodes, m);
      }
      KeysOfRemove(grid, StartKey(), arena, openNodes, m, closedNodes);
      Removed(openNodes, m);
      assert Key(arena[openNodes[m]]) in OpenKeys();
      openNodes := openNodes[..m] + openNodes[m + 1..];
    }

    /** Polling a portal state from a covered, shortest-first frontier finds a shortest route to the portal. */
    lemma PolledAtPortal(closed: set<StateKey>, open: set<StateKey>, cost: int)
      requires Covered(grid, StartKey(), closed, open)
      requires forall o | o in open :: Shortest(grid, StartKey(), o, cost)
      requires forall k | k in closed :: KeyCell(k) != portal
      ensures PortalAtLeast(cost)
    {
      forall acts | Replay(grid, StartKey(), acts).Some? && KeyCell(Replay(grid, StartKey(), acts).value) == portal
        ensures cost <= |acts|
      {
        FrontierBound(grid, StartKey(), closed, open, cost, acts, Replay(grid, StartKey(), acts).value);
      }
    }

    /**
     * One iteration of the main loop of `calculatePath`: poll a
     * minimum of the queue; unless it stands on the portal, close it and
     * offer its children. In a search that started from scratch the polled
     * cost is a shortest distance.
     */
    method ExpandNext(ghost fromScratch: bool) returns (current: nat)
      requires Valid() && openNodes != []
      requires fromScratch ==> SearchInv()
      modifies this`arena, this`openNodes, this`closedNodes, this`orderOfCreation
      ensures Valid() && old(arena) <= arena && current < |old(arena)|
      ensures current in old(openNodes)
      ensures forall j | 0 <= j < |old(openNodes)| :: Compare(arena[current], old(arena)[old(openNodes)[j]]) <= 0
      ensures CellOf(arena[current]) == portal ==>
                closedNodes == old(closedNodes) && arena == old(arena) && orderOfCreation == old(orderOfCreation)
      ensures CellOf(arena[current]) == portal ==> multiset(openNodes) == multiset(old(openNodes)) - multiset{current}
      ensures CellOf(arena[current]) != portal ==> closedNodes == old(closedNodes) + {Key(arena[current])}
      ensures CellOf(arena[current]) != portal ==>
                ExpandedFrom(old(arena), old(openNodes), old(Known()), old(orderOfCreation), current)
      ensures CellOf(arena[current]) != portal ==> old(Known()) <= Known()
      ensures CellOf(arena[current]) != portal && Known() == old(Known()) ==> |openNodes| < |old(openNodes)|
      ensures fromScratch ==> Shortest(grid, StartKey(), Key(arena[current]), arena[current].cost)
      ensures fromScratch && CellOf(arena[current]) == portal ==> PortalAtLeast(arena[current].cost)
      ensures fromScratch && CellOf(arena[current]) != portal ==> SearchInv()
    {
      ghost var closed0, open0 := closedNodes, OpenKeys();
      current := Poll();
      var node := arena[current];
      if CellOf(node) == portal {
        if fromScratch {
          PolledAtPortal(closed0, open0, node.cost);
        }
        return;
      }
      assert NodeOk(arena, current);
      closedNodes := closedNodes + {Key(node)};
      ghost var arena1, open1 := arena, openNodes;
      SameKnown(closed0, open0, OpenKeys(), Key(node));
      Expand(current, fromScratch, closed0, open0);
      ShowExpandedFrom(arena1, old(openNodes), old(Known()), old(orderOfCreation), current, open1);
    }

    lemma ShowExpandedFrom(arena0: seq<Node>, open0: seq<nat>, known0: set<StateKey>, order0: int, current: nat,
                           open1: seq<nat>)
      requires RefsIn(arena, openNodes) && current < |arena0|
      requires 0 < |open0| && |open1| == |open0| - 1 && multiset(open1) == multiset(open0) - multiset{current}
      requires Appended(arena0, open1, arena, openNodes)
      requires Known() == known0 + Successors(grid, Key(arena0[current]))
      requires NewChildren(arena, |arena0|, known0, arena0[current], current)
      requires orderOfCreation == order0 + |LegalMoves(grid, Key(arena0[current]))|
      requires NumberedIn(arena, |arena0|, order0, orderOfCreation)
      ensures ExpandedFrom(arena0, open0, known0, order0, current)
    {
      PrefixSlice(open1, openNodes);
    }

    /**
     * The arena and queue after `current` was polled from `open0` and
     * expanded, with `known0` known before: the remaining entries of
     * `open0` come first, then the queued children, appended to `arena0`;
     * the known identities gained exactly the successor states of the
     * polled node, and the appended children are distinct and were unknown.
     * The creation counter advanced from `order0` by one per legal move,
     * and the appended children carry increasing numbers from that range.
     */
    ghost predicate ExpandedFrom(arena0: seq<Node>, open0: seq<nat>, known0: set<StateKey>, order0: int, current: nat)
      reads this`arena, this`openNodes, this`closedNodes, this`orderOfCreation
      requires RefsIn(arena, openNodes) && current < |arena|
    {
      && orderOfCreation == order0 + |LegalMoves(grid, Key(arena[current]))|
      && NumberedIn(arena, |arena0|, order0, orderOfCreation)
      && 0 < |open0| <= |openNodes| + 1
      && multiset(openNodes[..|open0| - 1]) == multiset(open0) - multiset{current}
      && Appended(arena0, openNodes[..|open0| - 1], arena, openNodes)
      && Known() == known0 + Successors(grid, Key(arena[current]))
      && NewChildren(arena, |arena0|, known0, arena[current], current)
    }

    /**
     * The start of `calculatePath`: build the root node from the start
     * cell and add it to the queue. From scratch the search invariant
     * then holds.
     */
    method QueueRoot()
      requires Valid()
      modifies this`arena, this`openNodes
      ensures Valid()
      ensures arena == old(arena) + [NewNode(avatarInitialPosition.x, avatarInitialPosition.y, 0, NoParent, false, false,
                                             initialBlueCapes, initialRedCapes, ActionNil)]
      ensures openNodes == old(openNodes) + [|old(arena)|]
      ensures old(Fresh()) ==> SearchInv()
    {
      var root := NewNode(avatarInitialPosition.x, avatarInitialPosition.y, 0, NoParent, false, false,
                          initialBlueCapes, initialRedCapes, ActionNil);
      RootOk(arena);
      InsertKeeps(arena, openNodes, root);
      if Fresh() {
        RootSearchInv(arena, root);
        assert openNodes + [|arena|] == [|arena|];
      }
      arena, openNodes := arena + [root], openNodes + [|arena|];
    }

    /** A queue holding only the root, with nothing closed, satisfies the search invariant. */
    lemma RootSearchInv(nodes: seq<Node>, root: Node)
      requires Key(root) == StartKey() && root.cost == 0
      ensures RefsIn(nodes + [root], [|nodes|])
      ensures Covered(grid, StartKey(), {}, KeysOf(nodes + [root], [|nodes|]))
      ensures TidyOf(nodes + [root], [|nodes|], {})
    {
      var open: seq<nat> := [];
      KeysOfPush(nodes, open, root);
      assert open + [|nodes|] == [|nodes|];
      assert (nodes + [root])[|nodes|] == root;
    }

    /** The root node `calculatePath` queues first, and its identity. */
    lemma RootOk(nodes: seq<Node>)
      requires WellFormed(nodes) && InGrid(grid, avatarInitialPosition)
      ensures var root := NewNode(avatarInitialPosition.x, avatarInitialPosition.y, 0, NoParent, false, false,
                                  initialBlueCapes, initialRedCapes, ActionNil);
              Key(root) == StartKey() && NodeOk(nodes + [root], |nodes|)
    {
    }

    /**
     * The search of `calculatePath`: queue the root, peek, and search
     * until the queue empties or a node on the portal is reached. From an
     * empty queue and closed set the node returned stands on the portal
     * exactly when the portal is reachable, and then at a shortest distance.
     */
    method Search() returns (current: nat)
      requires Valid()
      modifies this`arena, this`openNodes, this`closedNodes, this`orderOfCreation
      ensures Valid() && current < |arena|
      ensures CellOf(arena[current]) != portal ==> openNodes == []
      ensures old(Fresh()) && CellOf(arena[current]) == portal ==> PortalAtLeast(arena[current].cost)
      ensures old(Fresh()) && CellOf(arena[current]) != portal ==> PortalUnreachable()
    {
      ghost var fromScratch := Fresh();
      QueueRoot();
      var m := Head(arena, openNodes);
      current := openNodes[m];
      while openNodes != [] && CellOf(arena[current]) != portal
        invariant Valid() && current < |arena|
        invariant fromScratch && CellOf(arena[current]) != portal ==> SearchInv()
        invariant fromScratch && CellOf(arena[current]) == portal ==> PortalAtLeast(arena[current].cost)
        decreases if CellOf(arena[current]) == portal then 0 else 1, |Universe() - Known()|, |openNodes|
      {
        ghost var known := Known();
        current := ExpandNext(fromScratch);
        KnownWithin();
        if CellOf(arena[current]) != portal && Known() != known {
          SmallerRemainder(Universe(), known, Known());
        }
      }
      if fromScratch && CellOf(arena[current]) != portal {
        assert OpenKeys() == {};
        forall acts | Replay(grid, StartKey(), acts).Some?
          ensures KeyCell(Replay(grid, StartKey(), acts).value) != portal
        {
          ClosedHoldsAllReachable(grid, StartKey(), closedNodes, acts);
        }
      }
    }

    /**
     * The path construction of `calculatePath`: walk the parent links of `goal` up
     * to the root, pushing each last action. The stack then pops the goal's
     * route in order from the root.
     */
    method PushPath(goal: nat)
      requires WellFormed(arena) && goal < |arena|
      modifies this`path
      ensures path == old(path) + Reversed(Trace(arena, goal))
    {
      var nodes := arena;
      var next := ParentAt(goal);
      ghost var rest := Trace(nodes, goal);
      while next.ParentAt? && nodes[next.index].lastAction != ActionNil
        invariant next.ParentAt? ==> next.index < |nodes| && rest == Trace(nodes, next.index)
        invariant next.NoParent? ==> rest == []
        invariant path + Reversed(rest) == old(path) + Reversed(Trace(nodes, goal))
        decreases if next.ParentAt? then next.index + 1 else 0
      {
        var i := next.index;
        FatherLink(nodes, i);
        var p := nodes[i].father.index;
        ReversedSnoc(Trace(nodes, p), nodes[i].lastAction);
        AppendAssoc(path, [nodes[i].lastAction], Reversed(Trace(nodes, p)));
        path := path + [nodes[i].lastAction];
        next := nodes[i].father;
        rest := Trace(nodes, p);
      }
      if next.ParentAt? {
        FatherLink(nodes, next.index);
      }
    }

    /** A well-formed entry has a parent exactly when it was reached by a move, and its parent comes first. */
    lemma FatherLink(nodes: seq<Node>, i: nat)
      requires WellFormed(nodes) && i < |nodes|
      ensures nodes[i].father.NoParent? <==> nodes[i].lastAction == ActionNil
      ensures nodes[i].father.ParentAt? ==> nodes[i].father.index < i
      ensures nodes[i].father.ParentAt? ==> Trace(nodes, i) == Trace(nodes, nodes[i].father.index) + [nodes[i].lastAction]
      ensures nodes[i].father.NoParent? ==> Trace(nodes, i) == []
    {
      assert NodeOk(nodes, i);
    }

    /**
     * `calculatePath`: search, then push the goal's route onto the path
     * stack. From an empty queue and closed set it succeeds exactly when the
     * portal is reachable, and the pushed moves are a shortest route from
     * the start to the portal.
     */
    method CalculatePath() returns (found: bool, goal: nat)
      requires Valid()
      modifies this
      ensures Valid() && goal < |arena|
      ensures found <==> CellOf(arena[goal]) == portal
      ensures found ==> path == old(path) + Reversed(Trace(arena, goal))
      ensures found ==> Replay(grid, StartKey(), Trace(arena, goal)) == Some(Key(arena[goal]))
      ensures found ==> |Trace(arena, goal)| == arena[goal].cost
      ensures !found ==> path == old(path) && openNodes == []
      ensures old(Fresh()) && found ==> PortalAtLeast(arena[goal].cost)
      ensures old(Fresh()) && !found ==> PortalUnreachable()
      ensures old(Fresh()) && avatarInitialPosition == portal ==> found && path == old(path)
    {
      goal := Search();
      found := CellOf(arena[goal]) == portal;
      if found {
        TraceReachesNode(arena, goal);
        PushPath(goal);
      }
      if old(Fresh()) && avatarInitialPosition == portal {
        assert Replay(grid, StartKey(), []) == Some(StartKey());
      }
    }

    /**
     * The end of `act`: pop the top of the path stack, or return
     * `ACTION_NIL` when it is empty. The popped move is the first of the
     * moves still to be made, and the rest stay in order.
     */
    method Pop() returns (a: Action)
      modifies this`path
      ensures old(path) == [] ==> a == ActionNil && path == []
      ensures old(path) != [] ==> [a] + Reversed(path) == Reversed(old(path))
    {
      if path != [] {
        PopTakesFront(path);
        a := path[|path| - 1];
        path := path[..|path| - 1];
      } else {
        a := ActionNil;
      }
    }

    /**
     * The stack-draining part of `act`: with an empty path and the game
     * still running the path is planned first; then one move is popped.
     * Successive calls return the planned moves from the root towards the
     * goal.
     */
    method Act(gameOver: bool) returns (a: Action, ghost planned: bool, ghost found: bool, ghost goal: nat)
      requires Valid()
      modifies this
      ensures Valid()
      ensures planned <==> old(path) == [] && !gameOver
      ensures !planned ==> arena == old(arena) && openNodes == old(openNodes) && closedNodes == old(closedNodes)
      ensures !planned ==> orderOfCreation == old(orderOfCreation)
      ensures old(path) != [] ==> [a] + Reversed(path) == Reversed(old(path))
      ensures old(path) == [] && gameOver ==> a == ActionNil && path == []
      ensures planned && !found ==> a == ActionNil && path == []
      ensures planned && found ==> goal < |arena| && CellOf(arena[goal]) == portal
      ensures planned && found ==> [a] + Reversed(path) == if Trace(arena, goal) == [] then [ActionNil] else Trace(arena, goal)
      ensures planned && found && old(Fresh()) ==> PortalAtLeast(|Trace(arena, goal)|)
      ensures planned && !found && old(Fresh()) ==> PortalUnreachable()
    {
      planned, found, goal := false, false, 0;
      if path == [] && !gameOver {
        planned := true;
        found, goal := CalculatePath();
        if found {
          ReversedTwice(Trace(arena, goal));
        }
      }
      a := Pop();
    }
  }
}
