/**
 * `solveDecisionTree` (apps/exercises/modules/shared/decision_tree.js):
 * backward induction over a decision tree. A terminal node is worth 0, an
 * edge is worth its payoff plus its child, a chance node the
 * probability-weighted sum of its edges and a decision node its best
 * edge; edges of a decision node that fall short of the best by more than
 * a tolerance are marked excluded.
 *
 * The node ids `cloneTreeWithIds` hands out are the nodes' paths from the
 * root, and an edge is named by the path of its child.
 */
module TreeSolver {
  import opened DecisionTree
  import Lottery
  import DuiRules

  /** `parsePayoff`: the payoff, or 0 when it is missing or not a finite number. */
  function ParsePayoff(e: Edge): (v: real)
    ensures e.payoff.None? ==> v == 0.0
    ensures e.payoff.Some? ==> v == e.payoff.value
  {
    if e.payoff.Some? then e.payoff.value else 0.0
  }

  /**
   * `parseProbability`: the probability, read as a percentage when it is
   * above 1, and 0 when missing or not a finite number; a fraction or a
   * percentage between 0 and 100 gives a probability between 0 and 1.
   */
  function ParseProbability(e: Edge): (p: real)
    ensures e.probability.None? ==> p == 0.0
    ensures e.probability.Some? && 0.0 <= e.probability.value <= 100.0 ==> 0.0 <= p <= 1.0
    ensures e.probability.Some? && e.probability.value <= 1.0 ==> p == e.probability.value
    ensures e.probability.Some? && e.probability.value > 1.0 ==> p * 100.0 == e.probability.value
  {
    if e.probability.None? then 0.0
    else if e.probability.value > 1.0 then e.probability.value / 100.0
    else e.probability.value
  }

  /** The walk stops at a node without edges or whose type resolves to terminal. */
  predicate Stops(n: Node) {
    IsLeaf(n) || ResolveNodeType(n) == Terminal
  }

  /** `edgeResults[i].edgeValue`: payoff plus the child's value, edge by edge. */
  function EdgeValues(n: Node): (vs: seq<real>)
    ensures |vs| == |n.children|
    decreases n, 0
  {
    seq(|n.children|, i requires 0 <= i < |n.children| => ParsePayoff(n.children[i]) + Value(n.children[i].node))
  }

  function Probabilities(n: Node): (ps: seq<real>)
    ensures |ps| == |n.children|
  {
    seq(|n.children|, i requires 0 <= i < |n.children| => ParseProbability(n.children[i]))
  }

  /**
   * The value `walk` returns: 0 where it stops, the expected edge value at
   * a chance node, and the largest edge value at a decision node, which is
   * the value of one of its edges.
   */
  function Value(n: Node): (v: real)
    ensures !Stops(n) && ResolveNodeType(n) != Chance ==>
      v in EdgeValues(n) && forall i :: 0 <= i < |n.children| ==> EdgeValues(n)[i] <= v
    decreases n, 1
  {
    if Stops(n) then 0.0
    else if ResolveNodeType(n) == Chance then Lottery.Dot(EdgeValues(n), Probabilities(n))
    else DuiRules.MaxReal(EdgeValues(n))
  }

  /** `const tolerance = 1e-6`. */
  const Tolerance: real := 0.000001

  // ------------------------------------------- what the walk records

  /** The entries of `values` the walks below the first `i` edges record. */
  function ChildValues(n: Node, path: seq<nat>, i: nat): map<seq<nat>, real>
    requires i <= |n.children|
    decreases n, 1, i
  {
    if i == 0 then map[]
    else ChildValues(n, path, i - 1) + ValuesOf(n.children[i - 1].node, path + [i - 1])
  }

  /** The entries set for the terminal children among the first `i` edges: their edge values. */
  function TerminalValues(n: Node, path: seq<nat>, i: nat): map<seq<nat>, real>
    requires i <= |n.children|
    decreases n, 1, i
  {
    if i == 0 then map[]
    else
      var m := TerminalValues(n, path, i - 1);
      if ResolveNodeType(n.children[i - 1].node) == Terminal then m[path + [i - 1] := EdgeValues(n)[i - 1]] else m
  }

  /** Everything `walk(node)` records in `values`, for a node whose id is `path`. */
  function ValuesOf(n: Node, path: seq<nat>): map<seq<nat>, real>
    decreases n, 2
  {
    if Stops(n) then map[path := 0.0]
    else (ChildValues(n, path, |n.children|) + TerminalValues(n, path, |n.children|))[path := Value(n)]
  }

  /** The edges the walks below the first `i` edges mark excluded. */
  function ChildExcluded(n: Node, path: seq<nat>, i: nat): set<seq<nat>>
    requires i <= |n.children|
    decreases n, 1, i
  {
    if i == 0 then {}
    else ChildExcluded(n, path, i - 1) + ExcludedOf(n.children[i - 1].node, path + [i - 1])
  }

  /** The first `i` edges of a decision node whose value falls short of `best` by more than the tolerance. */
  function ShortEdges(n: Node, path: seq<nat>, i: nat, best: real): set<seq<nat>>
    requires i <= |n.children|
    decreases i
  {
    if i == 0 then {}
    else ShortEdges(n, path, i - 1, best) + (if EdgeValues(n)[i - 1] < best - Tolerance then {path + [i - 1]} else {})
  }

  /** Everything `walk(node)` marks excluded in `edgeStates`. */
  function ExcludedOf(n: Node, path: seq<nat>): set<seq<nat>>
    decreases n, 2
  {
    if Stops(n) then {}
    else if ResolveNodeType(n) == Chance then ChildExcluded(n, path, |n.children|)
    else ChildExcluded(n, path, |n.children|) + ShortEdges(n, path, |n.children|, Value(n))
  }

  lemma MapUnionAssoc<K, V>(a: map<K, V>, b: map<K, V>, c: map<K, V>)
    ensures (a + b) + c == a + (b + c)
  {
  }

  lemma MapUnionUpdate<K, V>(a: map<K, V>, b: map<K, V>, c: map<K, V>, k: K, v: V)
    ensures ((a + b) + c)[k := v] == a + (b + c)[k := v]
  {
  }

  // ------------------------------------------------------------ the walk

  /** The maps `walk` fills in, with node ids replaced by paths. */
  class Solver {
    var values: map<seq<nat>, real>
    var excluded: set<seq<nat>>

    constructor ()
      ensures values == map[] && excluded == {}
    {
      values := map[];
      excluded := {};
    }

    /** `walk(node)`: returns the node's value and records it and everything below. */
    method Walk(node: Node, path: seq<nat>) returns (value: real)
      modifies this
      ensures value == Value(node)
      ensures values == old(values) + ValuesOf(node, path)
      ensures excluded == old(excluded) + ExcludedOf(node, path)
      decreases node, 1
    {
      if Stops(node) {
        values := values[path := 0.0];
        return 0.0;
      }
      var edgeValues := WalkEdges(node, path);
      SetTerminalValues(node, path, edgeValues);
      if ResolveNodeType(node) == Chance {
        value := Lottery.ExpectedValue(edgeValues, Probabilities(node));
      } else {
        value := DuiRules.MaxReal(edgeValues);
        MarkShortEdges(node, path, edgeValues, value);
      }
      MapUnionUpdate(old(values), ChildValues(node, path, |node.children|),
        TerminalValues(node, path, |node.children|), path, value);
      values := values[path := value];
    }

    /** `node.children.map(...)`: walks every edge in order and collects the edge values. */
    method WalkEdges(node: Node, path: seq<nat>) returns (edgeValues: seq<real>)
      modifies this
      ensures edgeValues == EdgeValues(node)
      ensures values == old(values) + ChildValues(node, path, |node.children|)
      ensures excluded == old(excluded) + ChildExcluded(node, path, |node.children|)
      decreases node, 0
    {
      hide Value, ValuesOf, ExcludedOf;
      edgeValues := [];
      var i := 0;
      while i < |node.children|
        invariant 0 <= i <= |node.children|
        invariant edgeValues == EdgeValues(node)[..i]
        invariant values == old(values) + ChildValues(node, path, i)
        invariant excluded == old(excluded) + ChildExcluded(node, path, i)
      {
        var edge := node.children[i];
        var childValue := Walk(edge.node, path + [i]);
        MapUnionAssoc(old(values), ChildValues(node, path, i), ValuesOf(edge.node, path + [i]));
        assert EdgeValues(node)[..i + 1] == EdgeValues(node)[..i] + [ParsePayoff(edge) + childValue];
        edgeValues := edgeValues + [ParsePayoff(edge) + childValue];
        i := i + 1;
      }
    }

    /** A terminal child's value becomes its edge value. */
    method SetTerminalValues(node: Node, path: seq<nat>, edgeValues: seq<real>)
      requires edgeValues == EdgeValues(node)
      modifies this
      ensures values == old(values) + TerminalValues(node, path, |node.children|)
      ensures excluded == old(excluded)
    {
      var i := 0;
      while i < |node.children|
        invariant 0 <= i <= |node.children|
        invariant values == old(values) + TerminalValues(node, path, i)
        invariant excluded == old(excluded)
      {
        if ResolveNodeType(node.children[i].node) == Terminal {
          values := values[path + [i] := edgeValues[i]];
        }
        i := i + 1;
      }
    }

    /** Marks the edges whose value is below `maxValue - tolerance`. */
    method MarkShortEdges(node: Node, path: seq<nat>, edgeValues: seq<real>, maxValue: real)
      requires edgeValues == EdgeValues(node)
      modifies this
      ensures excluded == old(excluded) + ShortEdges(node, path, |node.children|, maxValue)
      ensures values == old(values)
    {
      var i := 0;
      while i < |node.children|
        invariant 0 <= i <= |node.children|
        invariant excluded == old(excluded) + ShortEdges(node, path, i, maxValue)
        invariant values == old(values)
      {
        if edgeValues[i] < maxValue - Tolerance {
          excluded := excluded + {path + [i]};
        }
        i := i + 1;
      }
    }
  }

  /**
   * `solveDecisionTree`: the root's value with the values and excluded
   * edges of the whole tree.
   */
  method SolveDecisionTree(tree: Node) returns (rootValue: real, values: map<seq<nat>, real>, excluded: set<seq<nat>>)
    ensures rootValue == Value(tree)
    ensures values == ValuesOf(tree, []) && [] in values && values[[]] == rootValue
    ensures excluded == ExcludedOf(tree, [])
  {
    var solver := new Solver();
    rootValue := solver.Walk(tree, []);
    values := solver.values;
    excluded := solver.excluded;
  }

  // ---------------------------------------------------------- properties

  /**
   * At a chance node whose probabilities are nonnegative and add up to 1,
   * the value lies between the smallest and the largest edge value.
   */
  lemma ChanceValueBounds(n: Node)
    requires !Stops(n) && ResolveNodeType(n) == Chance
    requires forall i :: 0 <= i < |n.children| ==> Probabilities(n)[i] >= 0.0
    requires Lottery.Sum(Probabilities(n)) == 1.0
    ensures DuiRules.MinReal(EdgeValues(n)) <= Value(n) <= DuiRules.MaxReal(EdgeValues(n))
  {
    ChanceValue(n);
    DotBetween(EdgeValues(n), Probabilities(n));
  }

  lemma DotBetween(vs: seq<real>, ps: seq<real>)
    requires 0 < |vs| == |ps|
    requires forall i :: 0 <= i < |ps| ==> ps[i] >= 0.0
    requires Lottery.Sum(ps) == 1.0
    ensures DuiRules.MinReal(vs) <= Lottery.Dot(vs, ps) <= DuiRules.MaxReal(vs)
  {
    var lo := DuiRules.MinReal(vs);
    var hi := DuiRules.MaxReal(vs);
    hide Lottery.Dot, Lottery.Sum, DuiRules.MinReal, DuiRules.MaxReal;
    Lottery.DotLowerBound(vs, ps, lo);
    Lottery.DotUpperBound(vs, ps, hi);
    assert lo * Lottery.Sum(ps) == lo;
    assert hi * Lottery.Sum(ps) == hi;
  }

  lemma ChanceValue(n: Node)
    requires !Stops(n) && ResolveNodeType(n) == Chance
    ensures Value(n) == Lottery.Dot(EdgeValues(n), Probabilities(n))
  {
  }

  /** Every edge the walk below `path` excludes lies strictly below `path`. */
  lemma {:induction false} ExcludedBelow(n: Node, path: seq<nat>, p: seq<nat>)
    requires p in ExcludedOf(n, path)
    ensures |p| > |path| && p[..|path|] == path
    decreases n, 2
  {
    if ResolveNodeType(n) != Chance && p in ShortEdges(n, path, |n.children|, Value(n)) {
      ShortEdgesMeaning(n, path, |n.children|, Value(n), p);
    } else {
      ChildExcludedBelow(n, path, |n.children|, p);
    }
  }

  lemma {:induction false} ChildExcludedBelow(n: Node, path: seq<nat>, i: nat, p: seq<nat>)
    requires i <= |n.children| && p in ChildExcluded(n, path, i)
    ensures |p| > |path| + 1 && p[..|path|] == path && p[|path|] < i
    decreases n, 1, i
  {
    if p in ChildExcluded(n, path, i - 1) {
      ChildExcludedBelow(n, path, i - 1, p);
    } else {
      ExcludedBelow(n.children[i - 1].node, path + [i - 1], p);
      assert p[..|path|] == p[..|path| + 1][..|path|];
      assert p[|path|] == p[..|path| + 1][|path|];
    }
  }

  lemma {:induction false} ShortEdgesMeaning(n: Node, path: seq<nat>, i: nat, best: real, p: seq<nat>)
    requires i <= |n.children|
    ensures p in ShortEdges(n, path, i, best) <==>
      |p| == |path| + 1 && p[..|path|] == path && p[|path|] < i && EdgeValues(n)[p[|path|]] < best - Tolerance
    decreases i
  {
    if i > 0 {
      ShortEdgesMeaning(n, path, i - 1, best, p);
      if p == path + [i - 1] {
        assert p[..|path|] == path && p[|path|] == i - 1;
      }
    }
  }

  /**
   * The edges the walk marks excluded directly below a node are exactly,
   * at a decision node, those whose value falls short of the node's value
   * by more than the tolerance, and at a chance node none.
   */
  lemma ExcludedEdges(n: Node, path: seq<nat>, j: nat)
    requires !Stops(n) && j < |n.children|
    ensures ResolveNodeType(n) == Chance ==> path + [j] !in ExcludedOf(n, path)
    ensures ResolveNodeType(n) != Chance ==>
      (path + [j] in ExcludedOf(n, path) <==> EdgeValues(n)[j] < Value(n) - Tolerance)
  {
    var p := path + [j];
    assert p[..|path|] == path && p[|path|] == j;
    if p in ChildExcluded(n, path, |n.children|) {
      ChildExcludedBelow(n, path, |n.children|, p);
    }
    ShortEdgesMeaning(n, path, |n.children|, Value(n), p);
  }

  /** At a decision node at least one edge, a best one, is never excluded. */
  lemma SomeEdgeKept(n: Node, path: seq<nat>)
    requires !Stops(n) && ResolveNodeType(n) == Decision
    ensures exists j :: 0 <= j < |n.children| && path + [j] !in ExcludedOf(n, path) && EdgeValues(n)[j] == Value(n)
  {
    var j :| 0 <= j < |n.children| && EdgeValues(n)[j] == Value(n);
    ExcludedEdges(n, path, j);
  }

  lemma {:induction false} TerminalValuesAt(n: Node, path: seq<nat>, i: nat, j: nat)
    requires j < i <= |n.children| && ResolveNodeType(n.children[j].node) == Terminal
    ensures path + [j] in TerminalValues(n, path, i)
    ensures TerminalValues(n, path, i)[path + [j]] == EdgeValues(n)[j]
    decreases i
  {
    if j < i - 1 {
      TerminalValuesAt(n, path, i - 1, j);
      assert (path + [j])[|path|] != (path + [i - 1])[|path|];
    }
  }

  /**
   * Below a node the walk does not stop at, the value recorded for a
   * terminal child is its edge's payoff.
   */
  lemma TerminalChildValue(n: Node, path: seq<nat>, j: nat)
    requires !Stops(n) && j < |n.children| && ResolveNodeType(n.children[j].node) == Terminal
    ensures path + [j] in ValuesOf(n, path)
    ensures ValuesOf(n, path)[path + [j]] == ParsePayoff(n.children[j])
  {
    TerminalValuesAt(n, path, |n.children|, j);
    assert path + [j] != path by {
      assert |path + [j]| != |path|;
    }
  }

  /** The walk reaches the node at `q`: it does not stop at any node above it. */
  predicate Reached(n: Node, q: seq<nat>)
    decreases |q|
  {
    |q| == 0 || (!Stops(n) && q[0] < |n.children| && Reached(n.children[q[0]].node, q[1..]))
  }

  lemma {:induction false} ReachedValid(n: Node, q: seq<nat>)
    requires Reached(n, q)
    ensures ValidPath(n, q)
    decreases |q|
  {
    if |q| > 0 {
      ReachedValid(n.children[q[0]].node, q[1..]);
    }
  }

  lemma {:induction false} ValuesOfKeys(n: Node, path: seq<nat>, k: seq<nat>)
    requires k in ValuesOf(n, path)
    ensures |k| >= |path| && k[..|path|] == path
    decreases n, 2
  {
    if !Stops(n) && k != path {
      if k in TerminalValues(n, path, |n.children|) {
        TerminalValuesKeys(n, path, |n.children|, k);
      } else {
        ChildValuesKeys(n, path, |n.children|, k);
      }
    }
  }

  lemma {:induction false} TerminalValuesKeys(n: Node, path: seq<nat>, i: nat, k: seq<nat>)
    requires i <= |n.children| && k in TerminalValues(n, path, i)
    ensures |k| == |path| + 1 && k[..|path|] == path
    decreases i
  {
    if k in TerminalValues(n, path, i - 1) {
      TerminalValuesKeys(n, path, i - 1, k);
    } else {
      assert k == path + [i - 1];
    }
  }

  lemma {:induction false} ChildValuesKeys(n: Node, path: seq<nat>, i: nat, k: seq<nat>)
    requires i <= |n.children| && k in ChildValues(n, path, i)
    ensures |k| > |path| && k[..|path|] == path && k[|path|] < i
    decreases n, 1, i
  {
    if k in ValuesOf(n.children[i - 1].node, path + [i - 1]) {
      ValuesOfKeys(n.children[i - 1].node, path + [i - 1], k);
      assert k[..|path|] == k[..|path| + 1][..|path|];
      assert k[|path|] == k[..|path| + 1][|path|];
    } else {
      ChildValuesKeys(n, path, i - 1, k);
    }
  }

  /** Each child's entries survive in the union over the children. */
  lemma {:induction false} ChildValuesAt(n: Node, path: seq<nat>, i: nat, j: nat, k: seq<nat>)
    requires j < i <= |n.children| && k in ValuesOf(n.children[j].node, path + [j])
    ensures k in ChildValues(n, path, i)
    ensures ChildValues(n, path, i)[k] == ValuesOf(n.children[j].node, path + [j])[k]
    decreases i
  {
    if j < i - 1 {
      ChildValuesAt(n, path, i - 1, j, k);
      ValuesOfChildKeys(n, path, j, k);
      if k in ValuesOf(n.children[i - 1].node, path + [i - 1]) {
        ValuesOfChildKeys(n, path, i - 1, k);
        assert false;
      }
    }
  }

  lemma ValuesOfChildKeys(n: Node, path: seq<nat>, j: nat, k: seq<nat>)
    requires j < |n.children| && k in ValuesOf(n.children[j].node, path + [j])
    ensures |k| > |path| && k[|path|] == j
  {
    ValuesOfKeys(n.children[j].node, path + [j], k);
    assert k[|path|] == k[..|path| + 1][|path|];
  }

  /** The value `values` holds for the node at `q`: its edge's payoff at a terminal node, its own value otherwise. */
  function ShownValue(n: Node, q: seq<nat>): real
    requires ValidPath(n, q)
  {
    if |q| > 0 && ResolveNodeType(At(n, q)) == Terminal then ParsePayoff(EdgeAt(n, q)) else Value(At(n, q))
  }

  /**
   * Every node the walk reaches gets an entry in `values`: a terminal
   * node (other than the root) the payoff of the edge into it, any other
   * node its backward-induction value.
   */
  lemma {:induction false} ValuesOfAt(n: Node, path: seq<nat>, q: seq<nat>)
    requires Reached(n, q)
    ensures ValidPath(n, q)
    ensures path + q in ValuesOf(n, path)
    ensures ValuesOf(n, path)[path + q] == ShownValue(n, q)
    decreases |q|
  {
    ReachedValid(n, q);
    if |q| == 0 {
      assert path + q == path;
    } else {
      var j := q[0];
      var child := n.children[j].node;
      var k := path + q;
      assert k != path by {
        assert |k| != |path|;
      }
      var all := |n.children|;
      if |q| == 1 {
        assert k == path + [j];
        assert At(n, q) == child && EdgeAt(n, q) == n.children[j];
        if ResolveNodeType(child) == Terminal {
          TerminalValuesAt(n, path, all, j);
          assert Value(child) == 0.0;
          assert EdgeValues(n)[j] == ParsePayoff(n.children[j]);
        } else {
          ValuesOfAt(child, path + [j], []);
          assert path + [j] + [] == k;
          ChildValuesAt(n, path, all, j, k);
          if k in TerminalValues(n, path, all) {
            TerminalValuesKeys(n, path, all, k);
            TerminalValueChild(n, path, all, k);
            assert false;
          }
        }
      } else {
        ValuesOfAt(child, path + [j], q[1..]);
        assert path + [j] + q[1..] == k;
        ChildValuesAt(n, path, all, j, k);
        if k in TerminalValues(n, path, all) {
          TerminalValuesKeys(n, path, all, k);
          assert false;
        }
      }
    }
  }

  lemma {:induction false} TerminalValueChild(n: Node, path: seq<nat>, i: nat, k: seq<nat>)
    requires i <= |n.children| && k in TerminalValues(n, path, i)
    ensures |k| == |path| + 1 && k[|path|] < i && ResolveNodeType(n.children[k[|path|]].node) == Terminal
    decreases i
  {
    if k in TerminalValues(n, path, i - 1) {
      TerminalValueChild(n, path, i - 1, k);
    } else {
      assert k == path + [i - 1];
    }
  }

  /**
   * `solveDecisionTree` records, for every node the walk reaches, the
   * payoff of the edge into a terminal node and the backward-induction
   * value of any other node.
   */
  lemma SolvedValues(tree: Node, q: seq<nat>)
    requires Reached(tree, q)
    ensures ValidPath(tree, q) && q in ValuesOf(tree, []) && ValuesOf(tree, [])[q] == ShownValue(tree, q)
  {
    ValuesOfAt(tree, [], q);
    assert [] + q == q;
  }

  lemma ExcludedChildKeys(n: Node, path: seq<nat>, j: nat, k: seq<nat>)
    requires j < |n.children| && k in ExcludedOf(n.children[j].node, path + [j])
    ensures |k| > |path| + 1 && k[|path|] == j
  {
    ExcludedBelow(n.children[j].node, path + [j], k);
    assert k[|path|] == k[..|path| + 1][|path|];
  }

  /** Below the first `i` edges, an edge under child `j` is excluded exactly when that child's walk excludes it. */
  lemma {:induction false} ChildExcludedMember(n: Node, path: seq<nat>, i: nat, j: nat, k: seq<nat>)
    requires j < i <= |n.children| && |k| > |path| && k[|path|] == j
    ensures k in ChildExcluded(n, path, i) <==> k in ExcludedOf(n.children[j].node, path + [j])
    decreases i
  {
    if j == i - 1 {
      if k in ChildExcluded(n, path, i - 1) {
        ChildExcludedBelow(n, path, i - 1, k);
      }
    } else {
      ChildExcludedMember(n, path, i - 1, j, k);
      if k in ExcludedOf(n.children[i - 1].node, path + [i - 1]) {
        ExcludedChildKeys(n, path, i - 1, k);
      }
    }
  }

  /**
   * The edge into the node at `q` is one `walk` marks excluded: the walk
   * reaches its parent, the parent is not a chance node, and the edge's
   * value is more than the tolerance below the parent's value.
   */
  predicate ExcludedEdge(n: Node, q: seq<nat>) {
    && |q| > 0
    && Reached(n, q[..|q| - 1])
    && (ReachedValid(n, q[..|q| - 1]);
        var parent := At(n, q[..|q| - 1]);
        var j := q[|q| - 1];
        && !Stops(parent) && j < |parent.children|
        && ResolveNodeType(parent) != Chance
        && EdgeValues(parent)[j] < Value(parent) - Tolerance)
  }

  lemma ExcludedEdgeStep(n: Node, q: seq<nat>)
    requires |q| >= 2
    ensures ExcludedEdge(n, q) <==>
      !Stops(n) && q[0] < |n.children| && ExcludedEdge(n.children[q[0]].node, q[1..])
  {
    var front := q[..|q| - 1];
    assert front[1..] == q[1..][..|q[1..]| - 1];
    assert q[1..][|q[1..]| - 1] == q[|q| - 1];
    if Reached(n, front) {
      ReachedValid(n, front);
    }
  }

  /**
   * `edgeStates` after the walk below `path`: the edge into the node at
   * `q` is excluded exactly when it is an excluded edge in the sense above.
   */
  lemma {:induction false} ExcludedOfMeaning(n: Node, path: seq<nat>, q: seq<nat>)
    ensures path + q in ExcludedOf(n, path) <==> ExcludedEdge(n, q)
    decreases |q|
  {
    var k := path + q;
    if k in ExcludedOf(n, path) {
      ExcludedBelow(n, path, k);
    }
    if |q| == 0 || Stops(n) {
      if |q| >= 2 {
        ExcludedEdgeStep(n, q);
      }
    } else if |q| == 1 {
      var j := q[0];
      assert q[..0] == [];
      assert k == path + [j];
      if j < |n.children| {
        ExcludedEdges(n, path, j);
      } else if k in ExcludedOf(n, path) {
        if k in ChildExcluded(n, path, |n.children|) {
          ChildExcludedBelow(n, path, |n.children|, k);
        } else {
          ShortEdgesMeaning(n, path, |n.children|, Value(n), k);
        }
      }
    } else {
      var j := q[0];
      ExcludedEdgeStep(n, q);
      assert k[|path|] == j;
      if k in ExcludedOf(n, path) && ResolveNodeType(n) != Chance {
        if k in ShortEdges(n, path, |n.children|, Value(n)) {
          ShortEdgesMeaning(n, path, |n.children|, Value(n), k);
        }
      }
      if j < |n.children| {
        ChildExcludedMember(n, path, |n.children|, j, k);
        ExcludedOfMeaning(n.children[j].node, path + [j], q[1..]);
        assert path + [j] + q[1..] == k;
      } else if k in ChildExcluded(n, path, |n.children|) {
        ChildExcludedBelow(n, path, |n.children|, k);
      }
    }
  }
}
