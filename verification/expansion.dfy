/**
 * Successor generation shared by both agents (`nodeChildren` in
 * AgenteDijkstra.java and AgenteLRTAStar.java): the four cardinal moves in
 * the fixed order RIGHT, LEFT, UP, DOWN, kept when the target cell is on the
 * grid and not forbidden, dropped on a coloured wall unless the parent holds
 * the matching cape, and arriving with a copy of the parent's pickup lists
 * from which the target cell's pickup is consumed.
 *
 * The specification of a successor is `StepKey` (on state keys) and `Child`
 * (on nodes); `Candidates` and `RemoveBlocked` are the imperative steps of
 * the source, proved against it.
 */
module Expansion {
  import opened Nodes

  datatype Option<T> = None | Some(value: T)

  /** The immutable per-episode world: grid extent, forbidden cells and the two wall colours. */
  datatype Grid = Grid(
    gridWidth: int,
    gridHeight: int,
    forbiddenBoxes: set<Cell>,
    blueWalls: set<Cell>,
    redWalls: set<Cell>)

  /** The cell a search state stands on. */
  function KeyCell(k: StateKey): Cell
  {
    Cell(k.x, k.y)
  }

  predicate InGrid(g: Grid, c: Cell)
  {
    0 <= c.x < g.gridWidth && 0 <= c.y < g.gridHeight
  }

  /** Position of a move in the order `nodeChildren` tries them. */
  function Rank(a: Action): int
  {
    match a
    case ActionRight => 0
    case ActionLeft => 1
    case ActionUp => 2
    case ActionDown => 3
    case ActionNil => 4
  }

  /** The cell reached from (x, y) by action `a`; y grows downwards. */
  function Target(x: int, y: int, a: Action): Cell
  {
    match a
    case ActionRight => Cell(x + 1, y)
    case ActionLeft => Cell(x - 1, y)
    case ActionUp => Cell(x, y - 1)
    case ActionDown => Cell(x, y + 1)
    case ActionNil => Cell(x, y)
  }

  lemma TargetIsNeighbour(x: int, y: int, a: Action)
    requires a != ActionNil
    ensures var c := Target(x, y, a);
            (if c.x < x then x - c.x else c.x - x) + (if c.y < y then y - c.y else c.y - y) == 1
  {
  }

  // ---------------------------------------------------------------------
  // Legality of a move
  // ---------------------------------------------------------------------

  /** First filter: on the grid and not a forbidden box. */
  predicate Open(g: Grid, k: StateKey, a: Action)
  {
    a != ActionNil && InGrid(g, Target(k.x, k.y, a)) && Target(k.x, k.y, a) !in g.forbiddenBoxes
  }

  /** A blue wall needs the parent's blue cape. */
  predicate BluePassable(g: Grid, k: StateKey, c: Cell)
  {
    !(c in g.blueWalls && !k.blueCape)
  }

  /** A red wall needs the parent's red cape. */
  predicate RedPassable(g: Grid, k: StateKey, c: Cell)
  {
    !(c in g.redWalls && !k.redCape)
  }

  predicate Passable(g: Grid, k: StateKey, c: Cell)
  {
    BluePassable(g, k, c) && RedPassable(g, k, c)
  }

  /** A move from state `k` that `nodeChildren` keeps. */
  predicate Enterable(g: Grid, k: StateKey, a: Action)
  {
    Open(g, k, a) && Passable(g, k, Target(k.x, k.y, a))
  }

  /** The tests above as function values, for filtering. */
  function OpenTest(g: Grid, k: StateKey): Action -> bool
  {
    a => Open(g, k, a)
  }

  function PassTest(g: Grid, k: StateKey): Action -> bool
  {
    a => Passable(g, k, Target(k.x, k.y, a))
  }

  function EnterTest(g: Grid, k: StateKey): Action -> bool
  {
    a => Enterable(g, k, a)
  }

  /** Keeps a node unless it stands on one of `walls` and the parent lacks the matching cape. */
  function WallTest(walls: set<Cell>, cape: bool): Node -> bool
  {
    n => !(CellOf(n) in walls && !cape)
  }

  function PassNodeTest(g: Grid, k: StateKey): Node -> bool
  {
    n => Passable(g, k, CellOf(n))
  }

  // ---------------------------------------------------------------------
  // Filtering sequences
  // ---------------------------------------------------------------------

  /** The elements of `s` satisfying `p`, in their original order. */
  function Filter<T>(s: seq<T>, p: T -> bool): (r: seq<T>)
    ensures |r| <= |s|
    ensures forall x | x in r :: x in s && p(x)
    ensures forall x | x in s && p(x) :: x in r
  {
    if s == [] then [] else (if p(s[0]) then [s[0]] else []) + Filter(s[1..], p)
  }

  lemma {:induction false} FilterFilter<T>(s: seq<T>, p: T -> bool, q: T -> bool, r: T -> bool)
    requires forall x :: r(x) == (p(x) && q(x))
    ensures Filter(Filter(s, p), q) == Filter(s, r)
  {
    if s != [] {
      FilterFilter(s[1..], p, q, r);
      var rest := Filter(s[1..], p);
      if p(s[0]) {
        assert Filter(s, p) == [s[0]] + rest;
        assert ([s[0]] + rest)[1..] == rest;
      } else {
        assert Filter(s, p) == rest;
      }
    }
  }

  lemma {:induction false} FilterConcat<T>(s: seq<T>, t: seq<T>, p: T -> bool)
    ensures Filter(s + t, p) == Filter(s, p) + Filter(t, p)
  {
    if s == [] {
      assert s + t == t;
    } else {
      var st := s + t;
      assert st[0] == s[0] && st[1..] == s[1..] + t;
      FilterConcat(s[1..], t, p);
      var head := if p(s[0]) then [s[0]] else [];
      calc {
        Filter(st, p);
        head + Filter(st[1..], p);
        head + (Filter(s[1..], p) + Filter(t, p));
        (head + Filter(s[1..], p)) + Filter(t, p);
        Filter(s, p) + Filter(t, p);
      }
    }
  }

  /** One step of a reverse removal loop: index `i` is dropped exactly when it fails `p`. */
  lemma RemoveStep<T>(orig: seq<T>, kept: seq<T>, i: int, p: T -> bool, drop: bool)
    requires 0 <= i < |orig|
    requires kept == orig[..i + 1] + Filter(orig[i + 1..], p)
    requires drop == !p(orig[i])
    ensures i < |kept| && kept[i] == orig[i]
    ensures (if drop then kept[..i] + kept[i + 1..] else kept) == orig[..i] + Filter(orig[i..], p)
  {
    assert orig[i..][0] == orig[i] && orig[i..][1..] == orig[i + 1..];
    assert orig[..i + 1] == orig[..i] + [orig[i]];
    assert kept[..i] == orig[..i];
    assert kept[i + 1..] == Filter(orig[i + 1..], p);
    if !drop {
      AppendAssoc(orig[..i], [orig[i]], Filter(orig[i + 1..], p));
    }
  }

  lemma AppendAssoc<T>(a: seq<T>, b: seq<T>, c: seq<T>)
    ensures (a + b) + c == a + (b + c)
  {
  }

  // ---------------------------------------------------------------------
  // The moves kept from a state
  // ---------------------------------------------------------------------

  /** `[a]` when `b` holds, otherwise `[]`: the effect of one guarded `add`. */
  function Opt(b: bool, a: Action): seq<Action>
  {
    if b then [a] else []
  }

  lemma FilterOpt(b: bool, a: Action, p: Action -> bool)
    ensures Filter(Opt(b, a), p) == Opt(b && p(a), a)
  {
    if b {
      assert [a][1..] == [];
      assert Filter([a], p) == Opt(p(a), a) + [];
    }
  }

  /** Strictly increasing in the generation order RIGHT, LEFT, UP, DOWN. */
  predicate InMoveOrder(s: seq<Action>)
  {
    forall i, j :: 0 <= i < j < |s| ==> Rank(s[i]) < Rank(s[j])
  }

  lemma InMoveOrderAppend(s: seq<Action>, b: bool, a: Action)
    requires InMoveOrder(s)
    requires forall x | x in s :: Rank(x) < Rank(a)
    ensures InMoveOrder(s + Opt(b, a))
  {
    if b {
      var r := s + [a];
      forall i, j | 0 <= i < j < |r| ensures Rank(r[i]) < Rank(r[j]) {
        if j == |s| {
          assert r[i] == s[i] && s[i] in s;
        }
      }
    } else {
      assert s + [] == s;
    }
  }

  /** Membership in the four guarded `add`s, move by move. */
  lemma InOpts(b1: bool, b2: bool, b3: bool, b4: bool, x: Action)
    ensures x in Opt(b1, ActionRight) + Opt(b2, ActionLeft) + Opt(b3, ActionUp) + Opt(b4, ActionDown)
            <==> (x == ActionRight && b1) || (x == ActionLeft && b2) || (x == ActionUp && b3) || (x == ActionDown && b4)
  {
  }

  /** The moves passing the first filter (on the grid, not forbidden), in generation order. */
  function OpenMoves(g: Grid, k: StateKey): seq<Action>
  {
    Opt(Open(g, k, ActionRight), ActionRight) + Opt(Open(g, k, ActionLeft), ActionLeft)
    + Opt(Open(g, k, ActionUp), ActionUp) + Opt(Open(g, k, ActionDown), ActionDown)
  }

  /**
   * The moves `nodeChildren` keeps from state `k`: at most four, exactly the
   * enterable ones, in the order RIGHT, LEFT, UP, DOWN.
   */
  function LegalMoves(g: Grid, k: StateKey): (r: seq<Action>)
    ensures |r| <= 4
    ensures forall a :: a in r <==> Enterable(g, k, a)
    ensures InMoveOrder(r)
  {
    var b1, b2, b3, b4 := Enterable(g, k, ActionRight), Enterable(g, k, ActionLeft),
                          Enterable(g, k, ActionUp), Enterable(g, k, ActionDown);
    OptsInOrder(b1, b2, b3, b4);
    forall a ensures a in Opt(b1, ActionRight) + Opt(b2, ActionLeft) + Opt(b3, ActionUp) + Opt(b4, ActionDown)
                     <==> Enterable(g, k, a)
    {
      InOpts(b1, b2, b3, b4, a);
    }
    Opt(b1, ActionRight) + Opt(b2, ActionLeft) + Opt(b3, ActionUp) + Opt(b4, ActionDown)
  }

  /** The four guarded `add`s produce at most four moves, in generation order. */
  lemma OptsInOrder(b1: bool, b2: bool, b3: bool, b4: bool)
    ensures var r := Opt(b1, ActionRight) + Opt(b2, ActionLeft) + Opt(b3, ActionUp) + Opt(b4, ActionDown);
      |r| <= 4 && InMoveOrder(r)
  {
    var o1, o2, o3 := Opt(b1, ActionRight), Opt(b2, ActionLeft), Opt(b3, ActionUp);
    InMoveOrderAppend([], b1, ActionRight);
    assert [] + o1 == o1;
    InMoveOrderAppend(o1, b2, ActionLeft);
    InMoveOrderAppend(o1 + o2, b3, ActionUp);
    InMoveOrderAppend(o1 + o2 + o3, b4, ActionDown);
  }

  /** Dropping the wall-blocked moves from the open ones leaves the legal ones. */
  lemma OpenThenPassable(g: Grid, k: StateKey)
    ensures Filter(OpenMoves(g, k), PassTest(g, k)) == LegalMoves(g, k)
  {
    var p := PassTest(g, k);
    var o1 := Opt(Open(g, k, ActionRight), ActionRight);
    var o2 := Opt(Open(g, k, ActionLeft), ActionLeft);
    var o3 := Opt(Open(g, k, ActionUp), ActionUp);
    var o4 := Opt(Open(g, k, ActionDown), ActionDown);
    FilterConcat(o1 + o2 + o3, o4, p);
    FilterConcat(o1 + o2, o3, p);
    FilterConcat(o1, o2, p);
    FilterOpt(Open(g, k, ActionRight), ActionRight, p);
    FilterOpt(Open(g, k, ActionLeft), ActionLeft, p);
    FilterOpt(Open(g, k, ActionUp), ActionUp, p);
    FilterOpt(Open(g, k, ActionDown), ActionDown, p);
  }

  // ---------------------------------------------------------------------
  // Pickups
  // ---------------------------------------------------------------------

  /** `ArrayList.indexOf`: the position of the first occurrence of `c`. */
  function IndexOf(s: seq<Cell>, c: Cell): (i: nat)
    requires c in s
    ensures i < |s| && s[i] == c && c !in s[..i]
  {
    if s[0] == c then 0
    else
      var i := 1 + IndexOf(s[1..], c);
      assert s[..i] == [s[0]] + s[1..][..i - 1];
      i
  }

  /** `ArrayList.remove(Object)`: drop the first occurrence of `c`, if any. */
  function RemoveFirst(s: seq<Cell>, c: Cell): seq<Cell>
  {
    if c in s then
      var i := IndexOf(s, c);
      s[..i] + s[i + 1..]
    else
      s
  }

  /**
   * `RemoveFirst` leaves a list without `c` unchanged, and otherwise cuts out
   * exactly the first occurrence: one copy of `c` fewer, one element shorter,
   * nothing new.
   */
  lemma RemoveFirstSpec(s: seq<Cell>, c: Cell)
    ensures var r := RemoveFirst(s, c);
      && (c !in s ==> r == s)
      && (c in s ==> r == s[..IndexOf(s, c)] + s[IndexOf(s, c) + 1..])
      && multiset(r) == multiset(s) - multiset{c}
      && |r| == (if c in s then |s| - 1 else |s|)
      && (forall x | x in r :: x in s)
  {
    if c in s {
      var i := IndexOf(s, c);
      var r := s[..i] + s[i + 1..];
      assert s == s[..i] + [c] + s[i + 1..];
      assert multiset(s) == multiset(s[..i]) + multiset{c} + multiset(s[i + 1..]);
      assert multiset(r) == multiset(s[..i]) + multiset(s[i + 1..]);
      forall x | x in r ensures x in s {
        assert x in multiset(r);
      }
    } else {
      assert multiset(s)[c] == 0;
    }
  }

  /**
   * Arrival of a child at cell `c`, starting from a copy of its parent's
   * capes and lists: a blue pickup is consumed and gives the blue cape
   * (dropping the red one); then a red pickup is consumed and gives the red
   * cape (dropping the blue one), so red wins if a cell holds both.
   */
  function Arrive(k: StateKey, c: Cell): StateKey
  {
    var afterBlue :=
      if c in k.blueCapesRemaining then
        k.(blueCapesRemaining := RemoveFirst(k.blueCapesRemaining, c), blueCape := true, redCape := false)
      else k;
    var afterRed :=
      if c in afterBlue.redCapesRemaining then
        afterBlue.(redCapesRemaining := RemoveFirst(afterBlue.redCapesRemaining, c), blueCape := false, redCape := true)
      else afterBlue;
    afterRed.(x := c.x, y := c.y)
  }

  /** The pickup rule of `nodeChildren`, as the caller sees it. */
  lemma ArriveRule(k: StateKey, c: Cell)
    ensures var r := Arrive(k, c);
      && r.x == c.x && r.y == c.y
      && multiset(r.blueCapesRemaining) == multiset(k.blueCapesRemaining) - multiset{c}
      && multiset(r.redCapesRemaining) == multiset(k.redCapesRemaining) - multiset{c}
      && (c in k.redCapesRemaining ==> r.redCape && !r.blueCape)
      && (c !in k.redCapesRemaining && c in k.blueCapesRemaining ==> r.blueCape && !r.redCape)
      && (c !in k.redCapesRemaining && c !in k.blueCapesRemaining ==>
            r.blueCape == k.blueCape && r.redCape == k.redCape
            && r.blueCapesRemaining == k.blueCapesRemaining && r.redCapesRemaining == k.redCapesRemaining)
      && (!(k.blueCape && k.redCape) ==> !(r.blueCape && r.redCape))
  {
    RemoveFirstSpec(k.blueCapesRemaining, c);
    RemoveFirstSpec(k.redCapesRemaining, c);
  }

  /** Arriving only ever removes pickups: each list gets no longer and gains no cell. */
  lemma ArriveShrinks(k: StateKey, c: Cell)
    ensures var r := Arrive(k, c);
      && |r.blueCapesRemaining| <= |k.blueCapesRemaining|
      && (forall x | x in r.blueCapesRemaining :: x in k.blueCapesRemaining)
      && |r.redCapesRemaining| <= |k.redCapesRemaining|
      && (forall x | x in r.redCapesRemaining :: x in k.redCapesRemaining)
  {
    RemoveFirstSpec(k.blueCapesRemaining, c);
    RemoveFirstSpec(k.redCapesRemaining, c);
  }

  /** A pickup present once in the parent's list is gone from the child's. */
  lemma ArriveConsumes(k: StateKey, c: Cell)
    requires multiset(k.blueCapesRemaining)[c] <= 1 && multiset(k.redCapesRemaining)[c] <= 1
    ensures c !in Arrive(k, c).blueCapesRemaining && c !in Arrive(k, c).redCapesRemaining
  {
    var r := Arrive(k, c);
    ArriveRule(k, c);
    assert multiset(r.blueCapesRemaining)[c] == 0;
    assert multiset(r.redCapesRemaining)[c] == 0;
  }

  /** The successor relation on search states: `None` when the move is not kept. */
  function StepKey(g: Grid, k: StateKey, a: Action): (r: Option<StateKey>)
    ensures r.Some? <==> a in LegalMoves(g, k)
  {
    if Enterable(g, k, a) then Some(Arrive(k, Target(k.x, k.y, a))) else None
  }

  // ---------------------------------------------------------------------
  // Children as nodes
  // ---------------------------------------------------------------------

  /**
   * The placeholder child built by one of the four `if`s: the target cell,
   * the given cost and father, no capes, empty lists (the source's null lists,
   * overwritten before use) and the move as last action.
   */
  function Placeholder(father: Node, a: Action, cost: int, link: Parent): Node
  {
    var c := Target(father.x, father.y, a);
    NewNode(c.x, c.y, cost, link, false, false, [], [], a)
  }

  function Placeholders(father: Node, acts: seq<Action>, cost: int, link: Parent): (r: seq<Node>)
    ensures |r| == |acts|
    ensures forall i :: 0 <= i < |acts| ==> r[i] == Placeholder(father, acts[i], cost, link)
  {
    if acts == [] then [] else [Placeholder(father, acts[0], cost, link)] + Placeholders(father, acts[1..], cost, link)
  }

  /** One iteration of the last loop of `nodeChildren`: copy the parent's capes and lists, then apply the pickup rule. */
  function PickUp(father: Node, child: Node): (r: Node)
    ensures Key(r) == Arrive(Key(father), CellOf(child))
    ensures r.cost == child.cost && r.heuristic == child.heuristic && r.father == child.father
    ensures r.lastAction == child.lastAction && r.orderOfCreation == child.orderOfCreation
  {
    var k := Arrive(Key(father), CellOf(child));
    child.(blueCape := k.blueCape, redCape := k.redCape,
           blueCapesRemaining := k.blueCapesRemaining, redCapesRemaining := k.redCapesRemaining)
  }

  /** The child of `father` by move `a`, before the agent-specific fields are set. */
  function Child(father: Node, a: Action, cost: int, link: Parent): Node
  {
    PickUp(father, Placeholder(father, a, cost, link))
  }

  /** A child's identity is the successor state of its parent's identity. */
  lemma ChildIsStep(g: Grid, father: Node, a: Action, cost: int, link: Parent)
    requires a in LegalMoves(g, Key(father))
    ensures StepKey(g, Key(father), a) == Some(Key(Child(father, a, cost, link)))
    ensures var c := Child(father, a, cost, link);
      && c.cost == cost && c.father == link && c.lastAction == a && c.heuristic == 0
      && InGrid(g, CellOf(c)) && CellOf(c) !in g.forbiddenBoxes
      && (CellOf(c) in g.blueWalls ==> father.blueCape)
      && (CellOf(c) in g.redWalls ==> father.redCape)
  {
  }

  lemma {:induction false} FilterPlaceholders(father: Node, acts: seq<Action>, cost: int, link: Parent,
                                              p: Node -> bool, q: Action -> bool)
    requires forall a :: q(a) == p(Placeholder(father, a, cost, link))
    ensures Filter(Placeholders(father, acts, cost, link), p) == Placeholders(father, Filter(acts, q), cost, link)
  {
    if acts != [] {
      FilterPlaceholders(father, acts[1..], cost, link, p, q);
      var ps := Placeholders(father, acts, cost, link);
      assert ps[1..] == Placeholders(father, acts[1..], cost, link);
      assert ps[0] == Placeholder(father, acts[0], cost, link);
    }
  }

  // ---------------------------------------------------------------------
  // The imperative steps of nodeChildren
  // ---------------------------------------------------------------------

  /**
   * The four guarded `children.add` calls: one placeholder per move whose
   * target is on the grid and not forbidden, in the order RIGHT, LEFT, UP, DOWN.
   */
  method Candidates(g: Grid, father: Node, cost: int, link: Parent) returns (children: seq<Node>)
    requires InGrid(g, CellOf(father))
    ensures children == Placeholders(father, OpenMoves(g, Key(father)), cost, link)
  {
    ghost var k := Key(father);
    ghost var acts: seq<Action> := [];
    children := [];
    assert Placeholders(father, [], cost, link) == [];
    var right := father.x + 1 <= g.gridWidth - 1 && Cell(father.x + 1, father.y) !in g.forbiddenBoxes;
    CandidateStep(g, father, cost, link, children, acts, ActionRight, right);
    if right {
      children := children + [Placeholder(father, ActionRight, cost, link)];
    }
    acts := Opt(Open(g, k, ActionRight), ActionRight);
    var left := father.x - 1 >= 0 && Cell(father.x - 1, father.y) !in g.forbiddenBoxes;
    CandidateStep(g, father, cost, link, children, acts, ActionLeft, left);
    if left {
      children := children + [Placeholder(father, ActionLeft, cost, link)];
    }
    acts := acts + Opt(Open(g, k, ActionLeft), ActionLeft);
    var up := father.y - 1 >= 0 && Cell(father.x, father.y - 1) !in g.forbiddenBoxes;
    CandidateStep(g, father, cost, link, children, acts, ActionUp, up);
    if up {
      children := children + [Placeholder(father, ActionUp, cost, link)];
    }
    acts := acts + Opt(Open(g, k, ActionUp), ActionUp);
    var down := father.y + 1 <= g.gridHeight - 1 && Cell(father.x, father.y + 1) !in g.forbiddenBoxes;
    CandidateStep(g, father, cost, link, children, acts, ActionDown, down);
    if down {
      children := children + [Placeholder(father, ActionDown, cost, link)];
    }
    acts := acts + Opt(Open(g, k, ActionDown), ActionDown);
  }

  /** One guarded `children.add`: its guard is `Open` for a parent on the grid. */
  lemma CandidateStep(g: Grid, father: Node, cost: int, link: Parent,
                      children: seq<Node>, acts: seq<Action>, a: Action, guard: bool)
    requires InGrid(g, CellOf(father)) && a != ActionNil
    requires children == Placeholders(father, acts, cost, link)
    requires guard == match a
      case ActionRight => father.x + 1 <= g.gridWidth - 1 && Cell(father.x + 1, father.y) !in g.forbiddenBoxes
      case ActionLeft => father.x - 1 >= 0 && Cell(father.x - 1, father.y) !in g.forbiddenBoxes
      case ActionUp => father.y - 1 >= 0 && Cell(father.x, father.y - 1) !in g.forbiddenBoxes
      case _ => father.y + 1 <= g.gridHeight - 1 && Cell(father.x, father.y + 1) !in g.forbiddenBoxes
    ensures guard == Open(g, Key(father), a)
    ensures (if guard then children + [Placeholder(father, a, cost, link)] else children)
            == Placeholders(father, acts + Opt(Open(g, Key(father), a), a), cost, link)
  {
    var r := Placeholders(father, acts + Opt(guard, a), cost, link);
    if guard {
      assert r == children + [Placeholder(father, a, cost, link)];
    } else {
      assert acts + [] == acts;
    }
  }

  /**
   * One reverse index loop: remove every child standing on one of `walls`
   * unless the parent holds the matching cape (`cape`); the survivors keep
   * their order.
   */
  method RemoveWalled(walls: set<Cell>, cape: bool, children: seq<Node>) returns (kept: seq<Node>)
    ensures kept == Filter(children, WallTest(walls, cape))
  {
    ghost var ok := WallTest(walls, cape);
    kept := children;
    var i := |kept| - 1;
    while i >= 0
      invariant -1 <= i < |children|
      invariant kept == children[..i + 1] + Filter(children[i + 1..], ok)
    {
      assert i < |kept| && kept[i] == children[i] by {
        assert kept[..i + 1] == children[..i + 1];
      }
      RemoveStep(children, kept, i, ok, CellOf(kept[i]) in walls && !cape);
      if CellOf(kept[i]) in walls && !cape {
        kept := kept[..i] + kept[i + 1..];
      }
      i := i - 1;
    }
    assert children[0..] == children;
  }

  /**
   * The two reverse index loops of `nodeChildren`: remove the children
   * standing on a blue wall without the parent's blue cape, then those on a
   * red wall without the parent's red cape; the survivors keep their order.
   */
  method RemoveBlocked(g: Grid, father: Node, children: seq<Node>) returns (kept: seq<Node>)
    ensures kept == Filter(children, PassNodeTest(g, Key(father)))
  {
    kept := RemoveWalled(g.blueWalls, father.blueCape, children);
    kept := RemoveWalled(g.redWalls, father.redCape, kept);
    FilterFilter(children, WallTest(g.blueWalls, father.blueCape), WallTest(g.redWalls, father.redCape),
                 PassNodeTest(g, Key(father)));
  }

  /**
   * `Candidates` followed by `RemoveBlocked` yields one placeholder per legal
   * move, in generation order.
   */
  lemma CandidatesThenRemoveBlocked(g: Grid, father: Node, cost: int, link: Parent)
    ensures Filter(Placeholders(father, OpenMoves(g, Key(father)), cost, link), PassNodeTest(g, Key(father)))
            == Placeholders(father, LegalMoves(g, Key(father)), cost, link)
  {
    var k := Key(father);
    FilterPlaceholders(father, OpenMoves(g, k), cost, link, PassNodeTest(g, k), PassTest(g, k));
    OpenThenPassable(g, k);
  }

  /** Generation and wall removal in `nodeChildren`: the placeholders of the legal moves, in generation order. */
  method Survivors(g: Grid, father: Node, cost: int, link: Parent) returns (children: seq<Node>)
    requires InGrid(g, CellOf(father))
    ensures children == Placeholders(father, LegalMoves(g, Key(father)), cost, link)
  {
    children := Candidates(g, father, cost, link);
    children := RemoveBlocked(g, father, children);
    CandidatesThenRemoveBlocked(g, father, cost, link);
  }
}
