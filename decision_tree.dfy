/**
 * apps/exercises/modules/shared/decision_tree.js: the tree itself — nodes,
 * edges, the resolved node type, leaf counting, paths into the tree and
 * the abstract branch labels written onto every edge.
 *
 * A tree is a value here: `cloneTree` followed by updates of the clone is
 * the same as building a new value, and the input is never changed.
 */
module DecisionTree {
  import opened Wrappers
  import TreeText

  datatype NodeType = Decision | Chance | Terminal

  /** An edge label: missing, a plain string, or one text per language. */
  datatype EdgeLabel = NoLabel | Plain(text: string) | Localized(pt: string, en: string)

  /**
   * A node: its declared type (if any), whether the generator marked it as
   * required (on the path that must reach full depth), and its edges.
   */
  datatype Node = Node(kind: Option<NodeType>, required: bool, children: seq<Edge>)

  /** An edge: its label, its payoff and probability (None when missing or not a finite number) and its child. */
  datatype Edge = Edge(name: EdgeLabel, payoff: Option<real>, probability: Option<real>, node: Node)

  /** A node without edges. */
  predicate IsLeaf(n: Node) {
    |n.children| == 0
  }

  /** `{ type: NODE_TYPES.TERMINAL }`, the node a pruned subtree is replaced by. */
  function TerminalNode(): (t: Node)
    ensures IsLeaf(t) && !t.required
  {
    Node(Some(Terminal), false, [])
  }

  /**
   * `resolveNodeType`: the declared type wins; an untyped node is a
   * decision node when it has edges and terminal otherwise.
   */
  function ResolveNodeType(n: Node): (t: NodeType)
    ensures n.kind.Some? ==> t == n.kind.value
    ensures n.kind.None? ==> (t == Decision <==> !IsLeaf(n)) && (t == Terminal <==> IsLeaf(n))
  {
    if n.kind.Some? then n.kind.value
    else if |n.children| > 0 then Decision
    else Terminal
  }

  // -------------------------------------------------------------- tallies

  /** What is counted over a subtree: leaves, nodes, or required nodes. */
  datatype Tally = Leaves | Nodes | Required

  function Own(k: Tally, n: Node): nat {
    match k
    case Leaves => if IsLeaf(n) then 1 else 0
    case Nodes => 1
    case Required => if n.required then 1 else 0
  }

  function SumNat(s: seq<nat>): nat {
    if |s| == 0 then 0 else SumNat(s[..|s| - 1]) + s[|s| - 1]
  }

  /** The tallies of the children of `n`, in edge order. */
  function ChildTallies(k: Tally, n: Node): (s: seq<nat>)
    ensures |s| == |n.children|
    decreases n, 0
  {
    seq(|n.children|, i requires 0 <= i < |n.children| => Count(k, n.children[i].node))
  }

  /** The tally of a subtree: its own contribution plus its children's. */
  function Count(k: Tally, n: Node): nat
    decreases n, 1
  {
    Own(k, n) + SumNat(ChildTallies(k, n))
  }

  lemma ChildTalliesAt(k: Tally, n: Node, i: int)
    requires 0 <= i < |n.children|
    ensures ChildTallies(k, n)[i] == Count(k, n.children[i].node)
  {
  }

  /**
   * `countLeaves`: a node without edges counts 1, any other node the sum
   * over its edges.
   */
  function CountLeaves(n: Node): (leaves: nat)
    ensures leaves >= 1
  {
    CountLeavesPositive(n);
    Count(Leaves, n)
  }

  lemma {:induction false} SumNatPositive(s: seq<nat>)
    requires |s| > 0 && forall i :: 0 <= i < |s| ==> s[i] >= 1
    ensures SumNat(s) >= 1
  {
  }

  lemma CountLeavesPositive(n: Node)
    ensures Count(Leaves, n) >= 1
    decreases n
  {
    if !IsLeaf(n) {
      CountLeavesPositive(n.children[0].node);
      ChildTalliesAt(Leaves, n, 0);
      var s := ChildTallies(Leaves, n);
      assert s == s[..|s| - 1] + [s[|s| - 1]];
      SumNatAtLeast(s, 0);
    }
  }

  lemma {:induction false} SumNatAtLeast(s: seq<nat>, i: int)
    requires 0 <= i < |s|
    ensures SumNat(s) >= s[i]
  {
    if i < |s| - 1 {
      SumNatAtLeast(s[..|s| - 1], i);
    }
  }

  /** The number of nodes in a subtree. */
  function Size(n: Node): (size: nat)
    ensures size >= 1
  {
    Count(Nodes, n)
  }

  // --------------------------------------------------------------- sums

  lemma {:induction false} SumNatAppend(a: seq<nat>, b: seq<nat>)
    ensures SumNat(a + b) == SumNat(a) + SumNat(b)
    decreases |b|
  {
    if |b| > 0 {
      SumNatAppend(a, b[..|b| - 1]);
      assert (a + b)[..|a + b| - 1] == a + b[..|b| - 1];
    } else {
      assert a + b == a;
    }
  }

  lemma SumNatUpdate(s: seq<nat>, i: int, v: nat)
    requires 0 <= i < |s|
    ensures SumNat(s[i := v]) == SumNat(s) - s[i] + v
  {
    assert s == s[..i] + [s[i]] + s[i + 1..];
    assert s[i := v] == s[..i] + [v] + s[i + 1..];
    SumNatAppend(s[..i] + [s[i]], s[i + 1..]);
    SumNatAppend(s[..i], [s[i]]);
    SumNatAppend(s[..i] + [v], s[i + 1..]);
    SumNatAppend(s[..i], [v]);
  }

  lemma SumNatRemove(s: seq<nat>, i: int)
    requires 0 <= i < |s|
    ensures SumNat(s[..i] + s[i + 1..]) == SumNat(s) - s[i]
  {
    hide SumNat;
    var a, b := s[..i], s[i + 1..];
    SplitAround(s, i);
    SumNatSingle(s[i]);
    SumNatAppend(a + [s[i]], b);
    SumNatAppend(a, [s[i]]);
    SumNatAppend(a, b);
  }

  lemma SplitAround(s: seq<nat>, i: int)
    requires 0 <= i < |s|
    ensures s == s[..i] + [s[i]] + s[i + 1..]
  {
    assert s[i..] == [s[i]] + s[i + 1..];
    assert s == s[..i] + s[i..];
  }

  lemma SumNatSingle(x: nat)
    ensures SumNat([x]) == x
  {
  }

  // -------------------------------------------------------------- paths

  /** A path of 0-based edge indices from `n` downwards. */
  predicate ValidPath(n: Node, p: seq<nat>)
    decreases |p|
  {
    |p| == 0 || (p[0] < |n.children| && ValidPath(n.children[p[0]].node, p[1..]))
  }

  /** The node a valid path leads to. */
  function At(n: Node, p: seq<nat>): Node
    requires ValidPath(n, p)
    decreases |p|
  {
    if |p| == 0 then n else At(n.children[p[0]].node, p[1..])
  }

  /** The tree with the node at `p` replaced by `sub`, everything else kept. */
  function ReplaceAt(n: Node, p: seq<nat>, sub: Node): (r: Node)
    requires ValidPath(n, p)
    ensures |p| > 0 ==> r.kind == n.kind && r.required == n.required && |r.children| == |n.children|
    decreases |p|
  {
    if |p| == 0 then sub
    else
      var e := n.children[p[0]];
      n.(children := n.children[p[0] := e.(node := ReplaceAt(e.node, p[1..], sub))])
  }

  /**
   * Replacing a subtree changes every tally by the difference between the
   * new and the old subtree, as long as the replaced node is not the root
   * (the parent keeps its edges, so it stays an inner node).
   */
  lemma {:induction false} CountReplaceAt(k: Tally, n: Node, p: seq<nat>, sub: Node)
    requires ValidPath(n, p)
    ensures Count(k, ReplaceAt(n, p, sub)) == Count(k, n) - Count(k, At(n, p)) + Count(k, sub)
    ensures Count(k, At(n, p)) <= Count(k, n)
    decreases |p|
  {
    if |p| > 0 {
      var i := p[0];
      var child := n.children[i].node;
      CountReplaceAt(k, child, p[1..], sub);
      var r := ReplaceAt(n, p, sub);
      var newChild := ReplaceAt(child, p[1..], sub);
      assert r.children[i].node == newChild;
      assert ChildTallies(k, r) == ChildTallies(k, n)[i := Count(k, newChild)] by {
        forall j | 0 <= j < |r.children|
          ensures ChildTallies(k, r)[j] == ChildTallies(k, n)[i := Count(k, newChild)][j]
        {
          ChildTalliesAt(k, r, j);
          ChildTalliesAt(k, n, j);
        }
      }
      ChildTalliesAt(k, n, i);
      SumNatUpdate(ChildTallies(k, n), i, Count(k, newChild));
      SumNatAtLeast(ChildTallies(k, n), i);
      assert Own(k, r) == Own(k, n);
    }
  }

  lemma {:induction false} ReplaceAtValid(n: Node, p: seq<nat>, sub: Node)
    requires ValidPath(n, p)
    ensures ValidPath(ReplaceAt(n, p, sub), p) && At(ReplaceAt(n, p, sub), p) == sub
    decreases |p|
  {
    if |p| > 0 {
      ReplaceAtValid(n.children[p[0]].node, p[1..], sub);
    }
  }

  lemma {:induction false} ValidPathSnoc(n: Node, p: seq<nat>, i: nat)
    requires ValidPath(n, p) && i < |At(n, p).children|
    ensures ValidPath(n, p + [i]) && At(n, p + [i]) == At(n, p).children[i].node
    decreases |p|
  {
    if |p| > 0 {
      ValidPathSnoc(n.children[p[0]].node, p[1..], i);
      assert (p + [i])[1..] == p[1..] + [i];
    }
  }

  lemma {:induction false} ValidPathPrefix(n: Node, p: seq<nat>, k: nat)
    requires ValidPath(n, p) && k <= |p|
    ensures ValidPath(n, p[..k])
    decreases |p|
  {
    if k > 0 {
      ValidPathPrefix(n.children[p[0]].node, p[1..], k - 1);
      assert p[..k][1..] == p[1..][..k - 1];
    }
  }

  /**
   * The generator marks the root and, below every required node, the one
   * child on which the tree must reach full depth: a required node only
   * ever hangs below a required node.
   */
  predicate RequiredUnderRequired(n: Node)
    decreases n
  {
    forall i :: 0 <= i < |n.children| ==>
      (n.children[i].node.required ==> n.required) && RequiredUnderRequired(n.children[i].node)
  }

  lemma {:induction false} SumNatZero(s: seq<nat>)
    requires forall i :: 0 <= i < |s| ==> s[i] == 0
    ensures SumNat(s) == 0
  {
    if |s| > 0 {
      SumNatZero(s[..|s| - 1]);
    }
  }

  /** Below a node that is not required there is no required node. */
  lemma {:induction false} NoRequiredBelow(n: Node)
    requires RequiredUnderRequired(n) && !n.required
    ensures Count(Required, n) == 0
    decreases n
  {
    var s := ChildTallies(Required, n);
    forall i | 0 <= i < |s| ensures s[i] == 0 {
      NoRequiredBelow(n.children[i].node);
      ChildTalliesAt(Required, n, i);
    }
    SumNatZero(s);
  }

  lemma {:induction false} RequiredUnderRequiredAt(n: Node, p: seq<nat>)
    requires RequiredUnderRequired(n) && ValidPath(n, p)
    ensures RequiredUnderRequired(At(n, p))
    decreases |p|
  {
    if |p| > 0 {
      RequiredUnderRequiredAt(n.children[p[0]].node, p[1..]);
    }
  }

  /** Replacing a subtree keeps the marking closed when the new subtree is no "more required" than the old one. */
  lemma {:induction false} RequiredUnderRequiredReplaceAt(n: Node, p: seq<nat>, sub: Node)
    requires RequiredUnderRequired(n) && ValidPath(n, p)
    requires RequiredUnderRequired(sub) && (sub.required ==> At(n, p).required)
    ensures RequiredUnderRequired(ReplaceAt(n, p, sub))
    decreases |p|
  {
    if |p| > 0 {
      var i := p[0];
      var child := n.children[i].node;
      RequiredUnderRequiredReplaceAt(child, p[1..], sub);
      var r := ReplaceAt(n, p, sub);
      forall j | 0 <= j < |r.children|
        ensures (r.children[j].node.required ==> r.required) && RequiredUnderRequired(r.children[j].node)
      {
        if j == i {
          assert r.children[j].node == ReplaceAt(child, p[1..], sub);
        } else {
          assert r.children[j] == n.children[j];
        }
      }
    }
  }

  // ------------------------------------------------ abstract branch labels

  /**
   * `resolveLocalizedText`: the text a label shows in language `lang` — the
   * entry for that language when it is non-empty, else the Portuguese
   * one, else the English one.
   */
  function ResolveLocalizedText(name: EdgeLabel, lang: string): (text: string)
    ensures name.NoLabel? ==> text == ""
    ensures name.Plain? ==> text == name.text
    ensures name.Localized? ==> text in {name.pt, name.en}
    ensures name.Localized? && name.pt != "" && lang != "en" ==> text == name.pt
  {
    match name
    case NoLabel => ""
    case Plain(t) => t
    case Localized(pt, en) =>
      if lang == "pt" && pt != "" then pt
      else if lang == "en" && en != "" then en
      else if pt != "" then pt
      else en
  }

  /** `makeLabel`: a label that reads `text` in every language, localized or plain as asked. */
  function MakeLabel(text: string, localized: bool): (name: EdgeLabel)
    ensures name.Localized? == localized && !name.NoLabel?
    ensures forall lang :: ResolveLocalizedText(name, lang) == text
  {
    if localized then Localized(text, text) else Plain(text)
  }

  /** The 1-based version of a path of edge indices, as `[...path, index + 1]` builds it. */
  function OneBased(p: seq<nat>): (q: seq<int>)
    ensures |q| == |p| && forall i :: 0 <= i < |p| ==> q[i] == p[i] + 1
  {
    seq(|p|, i requires 0 <= i < |p| => p[i] + 1)
  }

  /**
   * The `walk` of `applyAbstractBranchLabels` below a node reached by the
   * 1-based path `path`: edge i gets the label of `path + [i + 1]`, and the
   * walk continues into its child.
   */
  function Relabel(n: Node, path: seq<int>, localized: bool): (r: Node)
    ensures r.kind == n.kind && r.required == n.required && |r.children| == |n.children|
    decreases n
  {
    n.(children := seq(|n.children|, i requires 0 <= i < |n.children| =>
      var e := n.children[i];
      e.(name := MakeLabel(TreeText.BuildAbstractBranchLabel(path + [i + 1]), localized),
         node := Relabel(e.node, path + [i + 1], localized))))
  }

  /** `applyAbstractBranchLabels(rawTree, options)`: labels every edge of a copy of the tree. */
  function ApplyAbstractBranchLabels(tree: Node, localized: bool): (r: Node)
    ensures r.kind == tree.kind && r.required == tree.required && |r.children| == |tree.children|
    ensures forall i :: 0 <= i < |tree.children| ==>
      r.children[i].payoff == tree.children[i].payoff && r.children[i].probability == tree.children[i].probability
  {
    Relabel(tree, [], localized)
  }

  /** The edge a non-empty valid path ends with. */
  function EdgeAt(n: Node, p: seq<nat>): Edge
    requires |p| > 0 && ValidPath(n, p)
    decreases |p|
  {
    if |p| == 1 then n.children[p[0]] else EdgeAt(n.children[p[0]].node, p[1..])
  }

  /** The label `applyAbstractBranchLabels` gives the edge at the end of `p`, below a node at `prefix`. */
  function LabelOf(prefix: seq<int>, p: seq<nat>, localized: bool): EdgeLabel {
    MakeLabel(TreeText.BuildAbstractBranchLabel(prefix + OneBased(p)), localized)
  }

  lemma RelabelChild(n: Node, prefix: seq<int>, i: nat, localized: bool)
    requires i < |n.children|
    ensures Relabel(n, prefix, localized).children[i]
         == n.children[i].(name := LabelOf(prefix, [i], localized),
                           node := Relabel(n.children[i].node, prefix + [i + 1], localized))
  {
    hide TreeText.BuildAbstractBranchLabel;
    assert prefix + OneBased([i]) == prefix + [i + 1];
  }

  /** Relabelling commutes with following a path. */
  lemma {:induction false} RelabelAt(n: Node, prefix: seq<int>, p: seq<nat>, localized: bool)
    requires ValidPath(n, p)
    ensures ValidPath(Relabel(n, prefix, localized), p)
    ensures At(Relabel(n, prefix, localized), p) == Relabel(At(n, p), prefix + OneBased(p), localized)
    decreases |p|
  {
    hide Relabel, TreeText.BuildAbstractBranchLabel;
    if |p| == 0 {
      assert prefix + OneBased(p) == prefix;
    } else {
      var i := p[0];
      RelabelChild(n, prefix, i, localized);
      RelabelAt(n.children[i].node, prefix + [i + 1], p[1..], localized);
      assert prefix + [i + 1] + OneBased(p[1..]) == prefix + OneBased(p);
    }
  }

  /** The edge at the end of a path after relabelling: the same edge with its new label and relabelled child. */
  lemma {:induction false} RelabelEdgeAt(n: Node, prefix: seq<int>, p: seq<nat>, localized: bool)
    requires |p| > 0 && ValidPath(n, p)
    ensures ValidPath(Relabel(n, prefix, localized), p)
    ensures EdgeAt(Relabel(n, prefix, localized), p)
         == EdgeAt(n, p).(name := LabelOf(prefix, p, localized),
                          node := Relabel(EdgeAt(n, p).node, prefix + OneBased(p), localized))
    decreases |p|
  {
    hide Relabel, TreeText.BuildAbstractBranchLabel;
    RelabelAt(n, prefix, p, localized);
    var i := p[0];
    RelabelChild(n, prefix, i, localized);
    if |p| == 1 {
      assert OneBased(p) == [i + 1];
      assert p == [i];
    } else {
      RelabelEdgeAt(n.children[i].node, prefix + [i + 1], p[1..], localized);
      assert prefix + [i + 1] + OneBased(p[1..]) == prefix + OneBased(p);
    }
  }

  /**
   * `applyAbstractBranchLabels` keeps the shape, types, payoffs and
   * probabilities, and the edge reached by the 0-based path p carries the
   * label of the 1-based path: "A" for the first edge of the root, "A.2"
   * for the second edge below it, and so on. Different edges get
   * different labels.
   */
  lemma ApplyAbstractBranchLabelsMeaning(tree: Node, localized: bool, p: seq<nat>, q: seq<nat>)
    requires ValidPath(tree, p) && |p| > 0
    requires ValidPath(tree, q) && |q| > 0 && p != q
    ensures var r := ApplyAbstractBranchLabels(tree, localized);
      && ValidPath(r, p) && ValidPath(r, q)
      && At(r, p).kind == At(tree, p).kind
      && At(r, p).required == At(tree, p).required
      && |At(r, p).children| == |At(tree, p).children|
      && EdgeAt(r, p).name == MakeLabel(TreeText.BuildAbstractBranchLabel(OneBased(p)), localized)
      && EdgeAt(r, p).payoff == EdgeAt(tree, p).payoff
      && EdgeAt(r, p).probability == EdgeAt(tree, p).probability
      && EdgeAt(r, p).name != EdgeAt(r, q).name
  {
    RelabelAt(tree, [], p, localized);
    RelabelEdgeAt(tree, [], p, localized);
    RelabelEdgeAt(tree, [], q, localized);
    assert [] + OneBased(p) == OneBased(p);
    assert [] + OneBased(q) == OneBased(q);
    assert OneBased(p) != OneBased(q) by {
      if OneBased(p) == OneBased(q) {
        assert forall i :: 0 <= i < |p| ==> p[i] == q[i];
      }
    }
    TreeText.BranchLabelsDistinct(OneBased(p), OneBased(q));
  }
}
