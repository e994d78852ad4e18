/**
 * The search node shared by both agents (Node.java): a grid cell, the two
 * cape flags and the two ordered lists of cape pickups still on the board,
 * plus bookkeeping (cost g, heuristic h, parent link, last action and
 * creation order).
 *
 * Identity, ordering and hashing are the three contracts the searches rely
 * on: `Equals` decides "same search state", `Compare` orders the open list
 * and `HashCode` places a node in a hash bucket.
 */
module Nodes {

  /** A grid cell; the source's `tools.Vector2d` only ever holds integral values here. */
  datatype Cell = Cell(x: int, y: int)

  /** The host's action vocabulary (ontology.Types.ACTIONS) as far as the agents use it. */
  datatype Action = ActionNil | ActionLeft | ActionRight | ActionUp | ActionDown

  /** The `father` reference: none for a root, otherwise the index of the parent in the owning arena. */
  datatype Parent = NoParent | ParentAt(index: nat)

  datatype Node = Node(
    x: int,
    y: int,
    cost: int,
    heuristic: int,
    father: Parent,
    blueCape: bool,
    redCape: bool,
    blueCapesRemaining: seq<Cell>,
    redCapesRemaining: seq<Cell>,
    lastAction: Action,
    orderOfCreation: int)

  /** The part of a node that makes it "the same search state". */
  datatype StateKey = StateKey(
    x: int,
    y: int,
    blueCape: bool,
    redCape: bool,
    blueCapesRemaining: seq<Cell>,
    redCapesRemaining: seq<Cell>)

  function Key(n: Node): StateKey
  {
    StateKey(n.x, n.y, n.blueCape, n.redCape, n.blueCapesRemaining, n.redCapesRemaining)
  }

  function CellOf(n: Node): Cell
  {
    Cell(n.x, n.y)
  }

  // ---------------------------------------------------------------------
  // Constructors
  // ---------------------------------------------------------------------

  /**
   * The ten-argument constructor: copies every argument into its field;
   * `orderOfCreation` keeps its initial value 0. The pickup lists are stored
   * as given (in Java by reference).
   */
  function NewNodeWithHeuristic(x: int, y: int, cost: int, heuristic: int, father: Parent,
                                blueCape: bool, redCape: bool,
                                blueCapesRemaining: seq<Cell>, redCapesRemaining: seq<Cell>,
                                lastAction: Action): (n: Node)
    ensures Key(n) == StateKey(x, y, blueCape, redCape, blueCapesRemaining, redCapesRemaining)
    ensures n.cost == cost && n.heuristic == heuristic && n.father == father
    ensures n.lastAction == lastAction && n.orderOfCreation == 0
  {
    Node(x, y, cost, heuristic, father, blueCape, redCape,
         blueCapesRemaining, redCapesRemaining, lastAction, 0)
  }

  /**
   * The nine-argument constructor: delegates to the ten-argument one with
   * heuristic 0, passing its `redCape` parameter into the `blueCape` slot and
   * its `blueCape` parameter into the `redCape` slot.
   */
  function NewNode(x: int, y: int, cost: int, father: Parent, redCape: bool, blueCape: bool,
                   blueCapesRemaining: seq<Cell>, redCapesRemaining: seq<Cell>,
                   lastAction: Action): (n: Node)
    ensures n.heuristic == 0 && n.orderOfCreation == 0
    ensures n.blueCape == redCape && n.redCape == blueCape
    ensures n.x == x && n.y == y && n.cost == cost && n.father == father && n.lastAction == lastAction
    ensures n.blueCapesRemaining == blueCapesRemaining && n.redCapesRemaining == redCapesRemaining
  {
    NewNodeWithHeuristic(x, y, cost, 0, father, redCape, blueCape,
                         blueCapesRemaining, redCapesRemaining, lastAction)
  }

  /**
   * The constructor's swap is invisible whenever both flags are equal, which
   * is how every caller uses it.
   */
  lemma NewNodeSwapHarmless(x: int, y: int, cost: int, father: Parent, cape: bool,
                            blue: seq<Cell>, red: seq<Cell>, a: Action)
    ensures var n := NewNode(x, y, cost, father, cape, cape, blue, red, a);
            n.blueCape == cape && n.redCape == cape
  {
  }

  // ---------------------------------------------------------------------
  // equals
  // ---------------------------------------------------------------------

  /** The element-by-element comparison of the two pickup lists (the two index loops). */
  predicate SameElements(s: seq<Cell>, t: seq<Cell>)
    requires |s| == |t|
  {
    forall i :: 0 <= i < |s| ==> s[i] == t[i]
  }

  /**
   * `equals`: position and capes first, then the list sizes, then both lists
   * element by element. It is exactly equality of the state keys, so cost,
   * heuristic, father, last action and creation order are ignored.
   */
  function Equals(a: Node, b: Node): (r: bool)
    ensures r <==> Key(a) == Key(b)
  {
    if !(a.x == b.x && a.y == b.y && a.redCape == b.redCape && a.blueCape == b.blueCape) then false
    else if |a.blueCapesRemaining| != |b.blueCapesRemaining|
         || |a.redCapesRemaining| != |b.redCapesRemaining| then false
    else if !SameElements(a.blueCapesRemaining, b.blueCapesRemaining) then
      false
    else if !SameElements(a.redCapesRemaining, b.redCapesRemaining) then
      false
    else
      assert a.blueCapesRemaining == b.blueCapesRemaining;
      assert a.redCapesRemaining == b.redCapesRemaining;
      true
  }

  /** `equals` is an equivalence relation. */
  lemma EqualsIsEquivalence(a: Node, b: Node, c: Node)
    ensures Equals(a, a)
    ensures Equals(a, b) ==> Equals(b, a)
    ensures Equals(a, b) && Equals(b, c) ==> Equals(a, c)
  {
  }

  /** Two nodes that differ only in bookkeeping fields are equal. */
  lemma EqualsIgnoresBookkeeping(a: Node, cost: int, heuristic: int, father: Parent,
                                 lastAction: Action, order: int)
    ensures Equals(a, a.(cost := cost, heuristic := heuristic, father := father,
                         lastAction := lastAction, orderOfCreation := order))
  {
  }

  // ---------------------------------------------------------------------
  // compareTo
  // ---------------------------------------------------------------------

  /** `Integer.compare`: -1, 0 or 1. */
  function IntCompare(a: int, b: int): (r: int)
    ensures r == -1 || r == 0 || r == 1
    ensures r < 0 <==> a < b
    ensures r == 0 <==> a == b
  {
    if a < b then -1 else if a == b then 0 else 1
  }

  /** Strict ascending lexicographic order on (cost + heuristic, cost, orderOfCreation). */
  ghost predicate Precedes(a: Node, b: Node)
  {
    || a.cost + a.heuristic < b.cost + b.heuristic
    || (a.cost + a.heuristic == b.cost + b.heuristic && a.cost < b.cost)
    || (a.cost + a.heuristic == b.cost + b.heuristic && a.cost == b.cost
        && a.orderOfCreation < b.orderOfCreation)
  }

  ghost predicate SameRank(a: Node, b: Node)
  {
    a.cost + a.heuristic == b.cost + b.heuristic && a.cost == b.cost
    && a.orderOfCreation == b.orderOfCreation
  }

  /** `compareTo`: f first, then g, then creation order. */
  function Compare(a: Node, b: Node): (r: int)
    ensures r == -1 || r == 0 || r == 1
    ensures r == -1 <==> Precedes(a, b)
    ensures r == 1 <==> Precedes(b, a)
    ensures r == 0 <==> SameRank(a, b)
  {
    var byF := IntCompare(a.cost + a.heuristic, b.cost + b.heuristic);
    if byF != 0 then byF
    else
      var byG := IntCompare(a.cost, b.cost);
      if byG != 0 then byG
      else IntCompare(a.orderOfCreation, b.orderOfCreation)
  }

  /** `compareTo` is antisymmetric and transitive: a total preorder. */
  lemma CompareIsTotalPreorder(a: Node, b: Node, c: Node)
    ensures Compare(a, b) == -Compare(b, a)
    ensures Compare(a, b) <= 0 && Compare(b, c) <= 0 ==> Compare(a, c) <= 0
    ensures Compare(a, b) < 0 && Compare(b, c) <= 0 ==> Compare(a, c) < 0
    ensures Compare(a, b) <= 0 && Compare(b, c) < 0 ==> Compare(a, c) < 0
  {
  }

  /** `compareTo` never looks at position, capes, pickups, father or last action. */
  lemma CompareIgnoresState(a: Node, b: Node, a': Node, b': Node)
    requires a.cost == a'.cost && a.heuristic == a'.heuristic && a.orderOfCreation == a'.orderOfCreation
    requires b.cost == b'.cost && b.heuristic == b'.heuristic && b.orderOfCreation == b'.orderOfCreation
    ensures Compare(a, b) == Compare(a', b')
  {
  }

  // ---------------------------------------------------------------------
  // hashCode
  // ---------------------------------------------------------------------

  const TwoTo31: int := 0x8000_0000
  const TwoTo32: int := 0x1_0000_0000

  /** Java `int` arithmetic: reduce to the two's complement range. */
  function Wrap32(v: int): (r: int)
    ensures -TwoTo31 <= r < TwoTo31
    ensures (v - r) % TwoTo32 == 0
    ensures -TwoTo31 <= v < TwoTo31 ==> r == v
  {
    var m := v % TwoTo32;
    if m >= TwoTo31 then m - TwoTo32 else m
  }

  /** `Boolean.hashCode`. */
  function BoolHash(b: bool): int
  {
    if b then 1231 else 1237
  }

  /** One step of `Arrays.hashCode`: `31 * result + element`, in `int` arithmetic. */
  function HashStep(acc: int, element: int): int
  {
    Wrap32(31 * acc + element)
  }

  /**
   * The `Arrays.hashCode` fold, seeded with 1, over the position, the red flag,
   * the size of the red list and the size of the blue list, in that order.
   * It reads the red flag and the two list sizes but neither the blue flag
   * nor the contents of the lists.
   */
  function HashCode(n: Node): (h: int)
    ensures -TwoTo31 <= h < TwoTo31
  {
    var h0 := HashStep(1, Wrap32(n.x));
    var h1 := HashStep(h0, Wrap32(n.y));
    var h2 := HashStep(h1, BoolHash(n.redCape));
    var h3 := HashStep(h2, |n.redCapesRemaining|);
    HashStep(h3, |n.blueCapesRemaining|)
  }

  /** Equal nodes have equal hash codes, so hashed sets and maps key on `Equals`. */
  lemma HashConsistentWithEquals(a: Node, b: Node)
    requires Equals(a, b)
    ensures HashCode(a) == HashCode(b)
  {
  }

  /**
   * The hash is coarser than `equals`: nodes that differ only in the blue
   * flag, or in the contents of same-size pickup lists, collide.
   */
  lemma HashIgnoresBlueCapeAndContents(a: Node, blue: bool, bl: seq<Cell>, rl: seq<Cell>)
    requires |bl| == |a.blueCapesRemaining| && |rl| == |a.redCapesRemaining|
    ensures HashCode(a.(blueCape := blue, blueCapesRemaining := bl, redCapesRemaining := rl))
            == HashCode(a)
  {
  }
}
