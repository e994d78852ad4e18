/**
 * The online planner of AgenteLRTAStar.java: one LRTA*-style step per call.
 * The agent expands its current node, seeds each child's heuristic from a
 * persistent table (or the Manhattan distance to the portal for a state it
 * has never seen), stable-sorts the children, raises the table entry of the
 * node it leaves to `max(h, second.cost + first.h)` and moves to the best
 * child.
 */
module Lrta {
  import opened Nodes
  import opened Expansion

  // ---------------------------------------------------------------------
  // The initial heuristic
  // ---------------------------------------------------------------------

  function Abs(v: int): nat
  {
    if v < 0 then -v else v
  }

  /** `Math.abs(x - portal.x) + Math.abs(y - portal.y)`: never negative, and 0 exactly on the portal. */
  function Manhattan(c: Cell, portal: Cell): (d: nat)
    ensures d == 0 <==> c == portal
  {
    Abs(c.x - portal.x) + Abs(c.y - portal.y)
  }

  /** `Math.max`. */
  function Max(a: int, b: int): (m: int)
    ensures m >= a && m >= b && (m == a || m == b)
  {
    if a >= b then a else b
  }

  // ---------------------------------------------------------------------
  // Collections.sort
  // ---------------------------------------------------------------------

  /** The position of the first element of `s` that is minimal under `compareTo`. */
  function FirstMin(s: seq<Node>): (i: nat)
    requires s != []
    ensures i < |s|
  {
    if |s| == 1 then 0
    else
      var k := FirstMin(s[1..]) + 1;
      if Compare(s[0], s[k]) <= 0 then 0 else k
  }

  /** No element precedes the one `FirstMin` picks, and every element before it is strictly after it. */
  lemma {:induction false} FirstMinIsFirstMinimal(s: seq<Node>)
    requires s != []
    ensures forall j | 0 <= j < |s| :: Compare(s[FirstMin(s)], s[j]) <= 0
    ensures forall j | 0 <= j < FirstMin(s) :: Compare(s[j], s[FirstMin(s)]) > 0
    decreases |s|
  {
    if |s| > 1 {
      var t := s[1..];
      FirstMinIsFirstMinimal(t);
      var k := FirstMin(t) + 1;
      assert s[k] == t[k - 1];
      forall j | 1 <= j < |s| ensures Compare(s[k], s[j]) <= 0 {
        assert s[j] == t[j - 1];
      }
      forall j | 0 <= j < |s| ensures Compare(s[FirstMin(s)], s[j]) <= 0 {
        if FirstMin(s) == 0 && j > 0 {
          CompareIsTotalPreorder(s[0], s[k], s[j]);
        }
      }
      forall j | 1 <= j < FirstMin(s) ensures Compare(s[j], s[FirstMin(s)]) > 0 {
        assert s[j] == t[j - 1];
      }
    }
  }

  /** The element `FirstMin` picks is ranked no later than any element of `s`. */
  lemma FirstMinBelowAll(s: seq<Node>, x: Node)
    requires x in multiset(s)
    ensures Compare(s[FirstMin(s)], x) <= 0
  {
    FirstMinIsFirstMinimal(s);
    var k :| 0 <= k < |s| && s[k] == x;
  }

  /** `s` without its element at position `i`. */
  function Without(s: seq<Node>, i: nat): seq<Node>
    requires i < |s|
  {
    s[..i] + s[i + 1..]
  }

  /**
   * A stable sort by `compareTo`: repeatedly take the first minimal element.
   * Equal-ranked elements therefore leave in their original order.
   */
  function StableSort(s: seq<Node>): (r: seq<Node>)
    ensures |r| == |s|
    decreases |s|
  {
    if s == [] then []
    else
      var i := FirstMin(s);
      [s[i]] + StableSort(Without(s, i))
  }

  /** Removing position `i` removes exactly one occurrence of `s[i]`. */
  lemma WithoutRemovesOne(s: seq<Node>, i: nat)
    requires i < |s|
    ensures multiset(Without(s, i)) + multiset{s[i]} == multiset(s)
  {
    assert s == s[..i] + [s[i]] + s[i + 1..];
  }

  /** The sort is a permutation. */
  lemma {:induction false} SortPermutes(s: seq<Node>)
    ensures multiset(StableSort(s)) == multiset(s)
    decreases |s|
  {
    if s != [] {
      var i := FirstMin(s);
      var w := Without(s, i);
      SortPermutes(w);
      WithoutRemovesOne(s, i);
      assert StableSort(s) == [s[i]] + StableSort(w);
    }
  }

  /** `r` is in ascending `compareTo` order. */
  ghost predicate Ordered(r: seq<Node>)
  {
    forall i, j | 0 <= i < j < |r| :: Compare(r[i], r[j]) <= 0
  }

  /** Putting an element ranked no later than all of an ordered sequence in front keeps it ordered. */
  lemma ConsOrdered(x: Node, t: seq<Node>)
    requires Ordered(t)
    requires forall y | y in multiset(t) :: Compare(x, y) <= 0
    ensures Ordered([x] + t)
  {
    var r := [x] + t;
    forall i, j | 0 <= i < j < |r| ensures Compare(r[i], r[j]) <= 0 {
      assert r[j] == t[j - 1];
      if i > 0 {
        assert r[i] == t[i - 1];
      } else {
        assert t[j - 1] in multiset(t);
      }
    }
  }

  /** The sort orders by `compareTo`. */
  lemma {:induction false} SortOrders(s: seq<Node>)
    ensures Ordered(StableSort(s))
    decreases |s|
  {
    if s != [] {
      var m := FirstMin(s);
      var rest := Without(s, m);
      SortOrders(rest);
      SortPermutes(rest);
      WithoutRemovesOne(s, m);
      forall y | y in multiset(StableSort(rest)) ensures Compare(s[m], y) <= 0 {
        FirstMinBelowAll(s, y);
      }
      ConsOrdered(s[m], StableSort(rest));
    }
  }

  /**
   * Among children of equal cost and creation order listed in strictly
   * increasing move rank, the head of the sorted sequence has the least
   * heuristic, and every child of a lower move rank has a strictly greater one.
   */
  lemma {:induction false} SortedHeadIsBest(children: seq<Node>) returns (m: nat)
    requires children != []
    requires forall i | 0 <= i < |children| :: children[i].cost == 1 && children[i].orderOfCreation == 0
    requires forall i, j | 0 <= i < j < |children| :: Rank(children[i].lastAction) < Rank(children[j].lastAction)
    ensures m < |children| && StableSort(children)[0] == children[m]
    ensures forall j | 0 <= j < |children| :: children[m].heuristic <= children[j].heuristic
    ensures forall j | 0 <= j < |children| && Rank(children[j].lastAction) < Rank(children[m].lastAction) ::
              children[m].heuristic < children[j].heuristic
  {
    m := FirstMin(children);
    FirstMinIsFirstMinimal(children);
    forall j | 0 <= j < |children| ensures children[m].heuristic <= children[j].heuristic {
      RankIsHeuristic(children[m], children[j]);
    }
    forall j | 0 <= j < |children| && Rank(children[j].lastAction) < Rank(children[m].lastAction)
      ensures children[m].heuristic < children[j].heuristic
    {
      assert j < m;
      RankIsHeuristic(children[j], children[m]);
    }
  }

  /** The first two places of the sorted sequence hold elements of the input. */
  lemma SortedFromChildren(s: seq<Node>)
    requires s != []
    ensures StableSort(s)[0] in s
    ensures |s| > 1 ==> StableSort(s)[1] in s
  {
    SortPermutes(s);
    assert StableSort(s)[0] in multiset(StableSort(s));
    if |s| > 1 {
      assert StableSort(s)[1] in multiset(StableSort(s));
    }
  }

  /** Children of equal cost and creation order are ranked by heuristic alone. */
  lemma {:induction false} RankIsHeuristic(a: Node, b: Node)
    requires a.cost == b.cost && a.orderOfCreation == b.orderOfCreation
    ensures Compare(a, b) <= 0 <==> a.heuristic <= b.heuristic
  {
  }

  /**
   * Recording children whose heuristic is a function of their identity,
   * and that agree with the entries already present, leaves every child's
   * identity mapped to that child's heuristic.
   */
  lemma {:induction false} Recorded(table0: map<StateKey, int>, table1: map<StateKey, int>, children: seq<Node>)
    requires forall i, j | 0 <= i < |children| && 0 <= j < |children| && Key(children[i]) == Key(children[j]) ::
               children[i].heuristic == children[j].heuristic
    requires forall i | 0 <= i < |children| && Key(children[i]) in table0 :: table0[Key(children[i])] == children[i].heuristic
    requires table1.Keys == table0.Keys + (set j | 0 <= j < |children| :: Key(children[j]))
    requires forall k | k in table0 :: table1[k] == table0[k]
    requires forall k | k in table1 && k !in table0 ::
               exists j | 0 <= j < |children| :: Key(children[j]) == k && table1[k] == children[j].heuristic
    ensures forall i | 0 <= i < |children| :: Key(children[i]) in table1 && table1[Key(children[i])] == children[i].heuristic
  {
    forall i | 0 <= i < |children|
      ensures Key(children[i]) in table1 && table1[Key(children[i])] == children[i].heuristic
    {
      var k := Key(children[i]);
      assert k in table1;
      if k !in table0 {
        var j :| 0 <= j < |children| && Key(children[j]) == k && table1[k] == children[j].heuristic;
      }
    }
  }

  /** The value of `calculateNextMovement`: a move, or the failure of `children.get(0)` when there is no child. */
  datatype Outcome = Move(action: Action) | NoChildren

  class LrtaAgent {
    const grid: Grid
    const portal: Cell
    const initialBlueCapes: seq<Cell>
    const initialRedCapes: seq<Cell>

    /** `null` before the first call. */
    var currentNode: Option<Node>
    /** The learned heuristics, keyed by search-state identity. */
    var nodes: map<StateKey, int>

    /**
     * The current node stands on the grid, costs 1 like every node the agent
     * builds, and carries the heuristic the table holds for it.
     */
    ghost predicate Valid()
      reads this`currentNode, this`nodes
    {
      match currentNode
      case None => nodes == map[]
      case Some(cur) =>
        && InGrid(grid, CellOf(cur)) && cur.cost == 1
        && (Key(cur) in nodes ==> nodes[Key(cur)] == cur.heuristic)
    }

    constructor (grid: Grid, portal: Cell, blueCapes: seq<Cell>, redCapes: seq<Cell>)
      ensures this.grid == grid && this.portal == portal
      ensures initialBlueCapes == blueCapes && initialRedCapes == redCapes
      ensures currentNode == None && nodes == map[]
      ensures Valid()
    {
      this.grid := grid;
      this.portal := portal;
      initialBlueCapes := blueCapes;
      initialRedCapes := redCapes;
      currentNode := None;
      nodes := map[];
    }

    /** The heuristic `nodeChildren` gives a child state: the learned value if the state is known, otherwise the Manhattan distance. */
    function Seed(table: map<StateKey, int>, k: StateKey): int
    {
      if k in table then table[k] else Manhattan(KeyCell(k), portal)
    }

    /** Child `c` with its heuristic seeded from `table`. */
    function WithSeed(table: map<StateKey, int>, c: Node): Node
    {
      c.(heuristic := Seed(table, Key(c)))
    }

    /** The child of `father` by move `a` as `nodeChildren` returns it: cost 1 and a seeded heuristic. */
    function Seeded(table: map<StateKey, int>, father: Node, a: Action): Node
    {
      WithSeed(table, Child(father, a, 1, NoParent))
    }

    /**
     * `nodeChildren`: one child per legal move of `father`, in the order
     * RIGHT, LEFT, UP, DOWN, each of cost 1 and creation order 0, carrying
     * the parent's capes and lists after the pickup rule and the heuristic
     * seeded from the table.
     */
    method NodeChildren(father: Node) returns (children: seq<Node>)
      requires InGrid(grid, CellOf(father))
      ensures |children| == |LegalMoves(grid, Key(father))|
      ensures forall i | 0 <= i < |children| :: children[i] == Seeded(nodes, father, LegalMoves(grid, Key(father))[i])
    {
      children := Survivors(grid, father, 1, NoParent);
      ghost var placeholders := children;
      children := SeedAll(father, children);
      forall j | 0 <= j < |children|
        ensures children[j] == Seeded(nodes, father, LegalMoves(grid, Key(father))[j])
      {
        assert placeholders[j] == Placeholder(father, LegalMoves(grid, Key(father))[j], 1, NoParent);
      }
    }

    /**
     * The last loop of `nodeChildren`: apply the pickup rule to each child in
     * turn, then give it the learned heuristic of its state if the table has
     * one and its Manhattan distance to the portal otherwise.
     */
    method SeedAll(father: Node, placeholders: seq<Node>) returns (children: seq<Node>)
      ensures |children| == |placeholders|
      ensures forall j | 0 <= j < |children| :: children[j] == WithSeed(nodes, PickUp(father, placeholders[j]))
    {
      children := placeholders;
      var i := 0;
      while i < |children|
        invariant 0 <= i <= |children| == |placeholders|
        invariant forall j | 0 <= j < i :: children[j] == WithSeed(nodes, PickUp(father, placeholders[j]))
        invariant forall j | i <= j < |children| :: children[j] == placeholders[j]
      {
        var child := PickUp(father, children[i]);
        if Key(child) in nodes {
          child := child.(heuristic := nodes[Key(child)]);
        } else {
          child := child.(heuristic := Manhattan(CellOf(child), portal));
        }
        children := children[i := child];
        i := i + 1;
      }
    }

    /**
     * `children` are the successors of `father` by the moves `acts`, in that
     * order: each stands on the move's target cell with the state `StepKey`
     * gives, costs 1, has creation order 0 and carries the heuristic seeded
     * from `table`.
     */
    ghost predicate SeededChildren(table: map<StateKey, int>, father: Node, acts: seq<Action>, children: seq<Node>)
    {
      && |children| == |acts|
      && forall i | 0 <= i < |children| ::
           && StepKey(grid, Key(father), acts[i]) == Some(Key(children[i]))
           && CellOf(children[i]) == Target(father.x, father.y, acts[i])
           && children[i].cost == 1 && children[i].orderOfCreation == 0
           && children[i].lastAction == acts[i] && children[i].heuristic == Seed(table, Key(children[i]))
    }

    /** The children `NodeChildren` builds are the seeded successors of their parent. */
    lemma {:induction false} SeededSteps(table: map<StateKey, int>, father: Node, acts: seq<Action>, children: seq<Node>)
      requires acts == LegalMoves(grid, Key(father)) && |children| == |acts|
      requires forall i | 0 <= i < |children| :: children[i] == Seeded(table, father, acts[i])
      ensures SeededChildren(table, father, acts, children)
    {
      forall i | 0 <= i < |children|
        ensures StepKey(grid, Key(father), acts[i]) == Some(Key(children[i]))
        ensures children[i].cost == 1 && children[i].orderOfCreation == 0 && children[i].lastAction == acts[i]
      {
        ChildIsStep(grid, father, acts[i], 1, NoParent);
      }
    }

    /**
     * `best` is the child LRTA* moves to from `cur` under `table`: its move
     * is legal and leads to its state, it carries that state's seeded
     * heuristic, no legal move leads to a state seeded lower, and every move
     * tried before it leads to one seeded strictly higher (the first of the
     * best, as a stable sort leaves it).
     */
    ghost predicate BestMove(table: map<StateKey, int>, cur: Node, best: Node)
    {
      var moves := LegalMoves(grid, Key(cur));
      && best.lastAction in moves
      && StepKey(grid, Key(cur), best.lastAction) == Some(Key(best))
      && best.heuristic == Seed(table, Key(best))
      && (forall a | a in moves :: best.heuristic <= Seed(table, StepKey(grid, Key(cur), a).value))
      && (forall a | a in moves && Rank(a) < Rank(best.lastAction) ::
            best.heuristic < Seed(table, StepKey(grid, Key(cur), a).value))
    }

    /** `BestMove` determines the move: two best children take the same move to the same state with the same heuristic. */
    lemma {:induction false} BestMoveUnique(table: map<StateKey, int>, cur: Node, b1: Node, b2: Node)
      requires BestMove(table, cur, b1) && BestMove(table, cur, b2)
      ensures b1.lastAction == b2.lastAction && Key(b1) == Key(b2) && b1.heuristic == b2.heuristic
    {
      var moves := LegalMoves(grid, Key(cur));
      assert b1.heuristic <= Seed(table, StepKey(grid, Key(cur), b2.lastAction).value) == b2.heuristic;
      assert b2.heuristic <= Seed(table, StepKey(grid, Key(cur), b1.lastAction).value) == b1.heuristic;
      assert b1.lastAction in moves && b2.lastAction in moves;
      assert Rank(b1.lastAction) == Rank(b2.lastAction);
    }

    /** The first child after sorting is the best move and costs 1. */
    lemma {:induction false} BestChild(table: map<StateKey, int>, father: Node, children: seq<Node>)
      requires children != [] && SeededChildren(table, father, LegalMoves(grid, Key(father)), children)
      ensures var b := StableSort(children)[0];
        BestMove(table, father, b) && b.cost == 1
    {
      var acts := LegalMoves(grid, Key(father));
      forall i, j | 0 <= i < j < |children| ensures Rank(children[i].lastAction) < Rank(children[j].lastAction) {
        assert Rank(acts[i]) < Rank(acts[j]);
      }
      var m := SortedHeadIsBest(children);
      var b := children[m];
      assert acts[m] in acts;
      forall a | a in acts ensures b.heuristic <= Seed(table, StepKey(grid, Key(father), a).value) {
        var j := ChildOfMove(table, father, children, a);
      }
      forall a | a in acts && Rank(a) < Rank(b.lastAction)
        ensures b.heuristic < Seed(table, StepKey(grid, Key(father), a).value)
      {
        var j := ChildOfMove(table, father, children, a);
      }
    }

    /** Every legal move has its child, which carries the seeded heuristic of the move's successor state. */
    lemma {:induction false} ChildOfMove(table: map<StateKey, int>, father: Node, children: seq<Node>, a: Action)
      returns (j: nat)
      requires SeededChildren(table, father, LegalMoves(grid, Key(father)), children)
      requires a in LegalMoves(grid, Key(father))
      ensures j < |children| && children[j].lastAction == a
      ensures children[j].heuristic == Seed(table, StepKey(grid, Key(father), a).value)
    {
      var acts := LegalMoves(grid, Key(father));
      j :| 0 <= j < |acts| && acts[j] == a;
    }

    /** `k` is the state some legal move from `cur` leads to. */
    ghost predicate Successor(cur: Node, k: StateKey)
    {
      exists a | a in LegalMoves(grid, Key(cur)) :: StepKey(grid, Key(cur), a) == Some(k)
    }

    /**
     * Every entry the insertion loop adds for seeded children is a successor
     * state holding its seeded heuristic.
     */
    lemma {:induction false} NewEntriesSeeded(table0: map<StateKey, int>, table1: map<StateKey, int>, cur: Node,
                                              children: seq<Node>)
      requires SeededChildren(table0, cur, LegalMoves(grid, Key(cur)), children)
      requires forall k | k in table1 && k !in table0 ::
                 exists j | 0 <= j < |children| :: Key(children[j]) == k && table1[k] == children[j].heuristic
      ensures forall k | k in table1 && k !in table0 :: Successor(cur, k) && table1[k] == Seed(table0, k)
    {
      var acts := LegalMoves(grid, Key(cur));
      forall k | k in table1 && k !in table0 ensures Successor(cur, k) && table1[k] == Seed(table0, k) {
        var j :| 0 <= j < |children| && Key(children[j]) == k && table1[k] == children[j].heuristic;
        assert acts[j] in acts && StepKey(grid, Key(cur), acts[j]) == Some(k);
      }
    }

    /**
     * The insertion loop of `calculateNextMovement`: every child identity missing
     * from the table is added with that child's heuristic; entries already
     * present are not overwritten.
     */
    method Remember(children: seq<Node>)
      modifies this`nodes
      ensures nodes.Keys == old(nodes).Keys + (set j | 0 <= j < |children| :: Key(children[j]))
      ensures forall k | k in old(nodes) :: nodes[k] == old(nodes)[k]
      ensures forall k | k in nodes && k !in old(nodes) ::
                exists j | 0 <= j < |children| :: Key(children[j]) == k && nodes[k] == children[j].heuristic
      ensures children == [] ==> nodes == old(nodes)
    {
      var table := nodes;
      var i := 0;
      while i < |children|
        invariant 0 <= i <= |children|
        invariant table.Keys == nodes.Keys + (set j | 0 <= j < i :: Key(children[j]))
        invariant forall k | k in nodes :: table[k] == nodes[k]
        invariant forall k | k in table && k !in nodes ::
                    exists j | 0 <= j < i :: Key(children[j]) == k && table[k] == children[j].heuristic
      {
        if Key(children[i]) !in table {
          table := table[Key(children[i]) := children[i].heuristic];
        }
        i := i + 1;
      }
      nodes := table;
    }

    /** The node the step starts from: `currentNode`, created at `avatar` on the first call. */
    function Origin(avatar: Cell): Node
      reads this`currentNode
    {
      match currentNode
      case Some(n) => n
      case None =>
        NewNodeWithHeuristic(avatar.x, avatar.y, 1, Manhattan(avatar, portal), NoParent, false, false,
                             initialBlueCapes, initialRedCapes, ActionNil)
    }

    /**
     * The first part of `calculateNextMovement`: build the children of `cur`
     * and record each child's state. Afterwards every child's state maps to
     * that child's heuristic, the entries present before are unchanged, and
     * every new entry is a successor state holding its seeded heuristic.
     */
    method RecordChildren(cur: Node) returns (children: seq<Node>)
      requires InGrid(grid, CellOf(cur))
      modifies this`nodes
      ensures SeededChildren(old(nodes), cur, LegalMoves(grid, Key(cur)), children)
      ensures forall i | 0 <= i < |children| ::
                Key(children[i]) in nodes && nodes[Key(children[i])] == children[i].heuristic
      ensures forall k | k in old(nodes) :: k in nodes && nodes[k] == old(nodes)[k]
      ensures forall k | k in nodes && k !in old(nodes) :: Successor(cur, k) && nodes[k] == Seed(old(nodes), k)
      ensures children == [] ==> nodes == old(nodes)
    {
      children := NodeChildren(cur);
      SeededSteps(nodes, cur, LegalMoves(grid, Key(cur)), children);
      Remember(children);
      Recorded(old(nodes), nodes, children);
      NewEntriesSeeded(old(nodes), nodes, cur, children);
    }

    /**
     * The two children `calculateNextMovement` reads after sorting: both are
     * children, both cost 1, the best one stands on the grid, its state
     * differs from the parent's and holds its heuristic in the table, and
     * every successor state is in the table.
     */
    lemma {:induction false} Picked(table0: map<StateKey, int>, table1: map<StateKey, int>, cur: Node, children: seq<Node>)
      requires children != [] && SeededChildren(table0, cur, LegalMoves(grid, Key(cur)), children)
      requires forall i | 0 <= i < |children| ::
                 Key(children[i]) in table1 && table1[Key(children[i])] == children[i].heuristic
      ensures var sorted := StableSort(children);
        && var first, second := sorted[0], if |sorted| > 1 then sorted[1] else sorted[0];
        && first in children && second in children && first.cost == 1 && second.cost == 1
        && InGrid(grid, CellOf(first)) && Key(first) != Key(cur)
        && Key(first) in table1 && table1[Key(first)] == first.heuristic
        && forall a | a in LegalMoves(grid, Key(cur)) :: StepKey(grid, Key(cur), a).value in table1
    {
      var sorted := StableSort(children);
      SortedFromChildren(children);
      var b :| 0 <= b < |children| && children[b] == sorted[0];
      ChildMoves(table0, cur, children, b);
      SuccessorsRecorded(table0, table1, cur, children);
    }

    /** A seeded child stands on the grid next to its parent, so its state is not the parent's. */
    lemma {:induction false} ChildMoves(table: map<StateKey, int>, cur: Node, children: seq<Node>, b: nat)
      requires SeededChildren(table, cur, LegalMoves(grid, Key(cur)), children) && b < |children|
      ensures InGrid(grid, CellOf(children[b])) && Key(children[b]) != Key(cur)
    {
      var acts := LegalMoves(grid, Key(cur));
      assert acts[b] in acts;
      TargetIsNeighbour(cur.x, cur.y, acts[b]);
    }

    /** Once every child's state is in the table, so is every successor state. */
    lemma {:induction false} SuccessorsRecorded(table0: map<StateKey, int>, table1: map<StateKey, int>, cur: Node,
                                                children: seq<Node>)
      requires SeededChildren(table0, cur, LegalMoves(grid, Key(cur)), children)
      requires forall i | 0 <= i < |children| :: Key(children[i]) in table1
      ensures forall a | a in LegalMoves(grid, Key(cur)) :: StepKey(grid, Key(cur), a).value in table1
    {
      var acts := LegalMoves(grid, Key(cur));
      forall a | a in acts ensures StepKey(grid, Key(cur), a).value in table1 {
        var j :| 0 <= j < |acts| && acts[j] == a;
      }
    }

    /**
     * `table1` is `table0` after recording the children of `cur`: every
     * successor state is recorded, the entries present before keep their
     * values, and every new entry is a successor state holding its seeded
     * heuristic.
     */
    ghost predicate Learned(table0: map<StateKey, int>, table1: map<StateKey, int>, cur: Node)
    {
      && (forall a | a in LegalMoves(grid, Key(cur)) :: StepKey(grid, Key(cur), a).value in table1)
      && (forall k | k in table0 :: k in table1 && table1[k] == table0[k])
      && (forall k | k in table1 && k !in table0 :: Successor(cur, k) && table1[k] == Seed(table0, k))
    }

    /**
     * `table1` is `table0` after a step from `cur` to `best`: every successor
     * state is recorded, the entries of other states keep their values, the
     * only other new entries are successor states holding their seeded
     * heuristic, and the parent's entry becomes max(h, 1 + best h).
     */
    ghost predicate BackedUp(table0: map<StateKey, int>, table1: map<StateKey, int>, cur: Node, best: Node)
    {
      && (forall a | a in LegalMoves(grid, Key(cur)) :: StepKey(grid, Key(cur), a).value in table1)
      && (forall k | k in table0 && k != Key(cur) :: k in table1 && table1[k] == table0[k])
      && (forall k | k in table1 && k !in table0 && k != Key(cur) :: Successor(cur, k) && table1[k] == Seed(table0, k))
      && Key(cur) in table1 && table1[Key(cur)] == Max(cur.heuristic, 1 + best.heuristic)
    }

    /**
     * Writing max(h, 1 + best h) for the parent into a table that recorded
     * the children of `cur` on top of `table0` backs it up, and never lowers an entry of `table0` as long as
     * the parent's own entry, if any, is its heuristic.
     */
    lemma {:induction false} Backup(table0: map<StateKey, int>, table1: map<StateKey, int>, cur: Node, best: Node, v: int)
      requires Learned(table0, table1, cur)
      requires Key(cur) in table0 ==> table0[Key(cur)] == cur.heuristic
      requires Key(best) != Key(cur) && Key(best) in table1 && table1[Key(best)] == best.heuristic
      requires v == Max(cur.heuristic, 1 + best.heuristic)
      ensures BackedUp(table0, table1[Key(cur) := v], cur, best)
      ensures forall k | k in table0 :: k in table1[Key(cur) := v] && table0[k] <= table1[Key(cur) := v][k]
      ensures Key(best) in table1[Key(cur) := v] && table1[Key(cur) := v][Key(best)] == best.heuristic
    {
    }

    /**
     * The part of `calculateNextMovement` up to the sort: build and record the children
     * of `cur`, then sort them (`SortOrders` gives the ascending order).
     * There is one per legal move; the first is the best move under the
     * table as it was, stands on the grid off the parent's state and keeps
     * its heuristic in the table; every successor state is recorded, every
     * new entry is a successor holding its seeded heuristic, and no entry
     * present before changes.
     */
    method SortedChildren(cur: Node) returns (sorted: seq<Node>)
      requires InGrid(grid, CellOf(cur))
      modifies this`nodes
      ensures |sorted| == |LegalMoves(grid, Key(cur))|
      ensures sorted == [] ==> nodes == old(nodes)
      ensures Learned(old(nodes), nodes, cur)
      ensures sorted != [] ==>
                && BestMove(old(nodes), cur, sorted[0]) && sorted[0].cost == 1
                && InGrid(grid, CellOf(sorted[0])) && Key(sorted[0]) != Key(cur)
                && Key(sorted[0]) in nodes && nodes[Key(sorted[0])] == sorted[0].heuristic
      ensures |sorted| > 1 ==> sorted[1].cost == 1
    {
      ghost var table0 := nodes;
      var children := RecordChildren(cur);
      sorted := StableSort(children);
      if children == [] {
        SuccessorsRecorded(table0, nodes, cur, children);
        return;
      }
      BestChild(table0, cur, children);
      Picked(table0, nodes, cur, children);
    }

    /**
     * `calculateNextMovement` past the portal test, from a current node `cur`
     * off the portal. With no child it fails before touching the table;
     * otherwise it records every child's state, moves to the best child, and
     * raises the entry of the state it leaves to `max(h, 1 + best h)`.
     */
    method Advance(cur: Node) returns (out: Outcome)
      requires Valid() && currentNode == Some(cur) && CellOf(cur) != portal
      modifies this`currentNode, this`nodes
      ensures Valid()
      ensures forall k | k in old(nodes) :: k in nodes && old(nodes)[k] <= nodes[k]
      ensures LegalMoves(grid, Key(cur)) == [] ==> out == NoChildren && currentNode == Some(cur) && nodes == old(nodes)
      ensures LegalMoves(grid, Key(cur)) != [] ==>
                && out.Move? && currentNode.Some? && out.action == currentNode.value.lastAction
                && BestMove(old(nodes), cur, currentNode.value)
                && BackedUp(old(nodes), nodes, cur, currentNode.value)
    {
      ghost var table0 := nodes;
      var sorted := SortedChildren(cur);
      if |sorted| == 0 {
        return NoChildren;
      }
      var first := sorted[0];
      var second := if |sorted| > 1 then sorted[1] else first;
      var backedUp := Max(cur.heuristic, second.cost + first.heuristic);
      Backup(table0, nodes, cur, first, backedUp);
      nodes := nodes[Key(cur) := backedUp];
      currentNode := Some(first);
      out := Move(first.lastAction);
      assert BestMove(table0, cur, first) && BackedUp(table0, nodes, cur, first);
    }

    /**
     * `calculateNextMovement`: one LRTA* step from `Origin(avatar)`. On the
     * portal it returns `ACTION_NIL` and changes nothing else; otherwise it
     * is `Advance` from that node. Learned values never decrease.
     */
    method CalculateNextMovement(avatar: Cell) returns (out: Outcome)
      requires Valid()
      requires currentNode.None? ==> InGrid(grid, avatar)
      modifies this`currentNode, this`nodes
      ensures Valid()
      ensures forall k | k in old(nodes) :: k in nodes && old(nodes)[k] <= nodes[k]
      ensures CellOf(old(Origin(avatar))) == portal ==>
                out == Move(ActionNil) && currentNode == Some(old(Origin(avatar))) && nodes == old(nodes)
      ensures CellOf(old(Origin(avatar))) != portal && LegalMoves(grid, Key(old(Origin(avatar)))) == [] ==>
                out == NoChildren && currentNode == Some(old(Origin(avatar))) && nodes == old(nodes)
      ensures CellOf(old(Origin(avatar))) != portal && LegalMoves(grid, Key(old(Origin(avatar)))) != [] ==>
                && out.Move? && currentNode.Some? && out.action == currentNode.value.lastAction
                && BestMove(old(nodes), old(Origin(avatar)), currentNode.value)
                && BackedUp(old(nodes), nodes, old(Origin(avatar)), currentNode.value)
    {
      if currentNode.None? {
        currentNode := Some(NewNodeWithHeuristic(avatar.x, avatar.y, 1, Manhattan(avatar, portal), NoParent,
                                                 false, false, initialBlueCapes, initialRedCapes, ActionNil));
      }
      var cur := currentNode.value;
      if CellOf(cur) == portal {
        return Move(ActionNil);
      }
      out := Advance(cur);
    }
  }
}
