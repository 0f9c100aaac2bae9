/**
 * The size presets of the decision-tree generator and `pruneToMaxLeaves`
 * (apps/exercises/modules/shared/decision_tree.js): while the tree has
 * more leaves than its preset allows, replace the deepest prunable
 * subtree by a terminal node, or, when there is none, cut off the largest
 * non-required branch of a node that has more branches than its depth's
 * minimum.
 *
 * The generator's `requiredNodes` set is the `required` flag of a node,
 * and a candidate's edge or parent node is named by its path from the
 * root.
 */
module TreePruning {
  import opened DecisionTree
  import Sorting

  // ------------------------------------------------------------ presets

  datatype SizeKey = Small | Medium | Large

  datatype BranchRange = BranchRange(min: nat, max: nat)

  /** The part of a size preset the structure and the pruning use. */
  datatype SizeConfig = SizeConfig(maxDepth: nat, branchByDepth: seq<BranchRange>, maxLeaves: nat)

  /** `DECISION_TREE_SIZE_CONFIG[sizeKey]`. */
  function Config(key: SizeKey): (c: SizeConfig)
    ensures |c.branchByDepth| == c.maxDepth >= 2
    ensures forall d :: 0 <= d < |c.branchByDepth| ==> 2 <= c.branchByDepth[d].min <= c.branchByDepth[d].max
    ensures c.maxLeaves >= 2
  {
    match key
    case Small => SizeConfig(2, [BranchRange(2, 3), BranchRange(2, 3)], 6)
    case Medium => SizeConfig(3, [BranchRange(2, 3), BranchRange(2, 3), BranchRange(2, 2)], 10)
    case Large => SizeConfig(4, [BranchRange(2, 3), BranchRange(2, 3), BranchRange(2, 3), BranchRange(2, 2)], 16)
  }

  /**
   * `getBranchRange(depth)?.min ?? 1`: the range of the depth, or of the
   * deepest configured level below it; 1 when no level is configured.
   */
  function MinBranches(c: SizeConfig, depth: nat): (m: nat)
    ensures |c.branchByDepth| == 0 ==> m == 1
    ensures |c.branchByDepth| > 0 ==> exists d :: 0 <= d < |c.branchByDepth| && m == c.branchByDepth[d].min
  {
    if |c.branchByDepth| == 0 then 1
    else c.branchByDepth[if depth < |c.branchByDepth| - 1 then depth else |c.branchByDepth| - 1].min
  }

  // ------------------------------------------------ replace candidates

  /** A subtree that may become a terminal node: its path, its parent's depth and its leaves. */
  datatype Candidate = Candidate(path: seq<nat>, depth: nat, leaves: nat)

  /** `rootTerminalCount >= 1`. */
  predicate RootHasLeafChild(root: Node) {
    exists i :: 0 <= i < |root.children| && IsLeaf(root.children[i].node)
  }

  /** The `walk` of `getCandidates` below the node at `pre`, edge by edge. */
  function ReplaceWalk(n: Node, pre: seq<nat>, rootHasLeaf: bool): seq<Candidate>
    decreases n, 1
  {
    ReplaceEdges(n, pre, rootHasLeaf, 0)
  }

  function ReplaceEdges(n: Node, pre: seq<nat>, rootHasLeaf: bool, i: nat): seq<Candidate>
    decreases n, 0, |n.children| - i
  {
    if i >= |n.children| then []
    else
      var child := n.children[i].node;
      var here := if !IsLeaf(child) && !child.required && !(|pre| == 0 && rootHasLeaf)
        then [Candidate(pre + [i], |pre|, CountLeaves(child))] else [];
      here + ReplaceWalk(child, pre + [i], rootHasLeaf) + ReplaceEdges(n, pre, rootHasLeaf, i + 1)
  }

  /** `getCandidates()`: every prunable subtree, in pre-order. */
  function ReplaceCandidates(root: Node): (cs: seq<Candidate>)
    ensures forall c :: c in cs ==> Replaceable(root, c.path) && c == ReplaceCandidateAt(root, c.path)
  {
    ReplaceWalkSound(root);
    ReplaceWalk(root, [], RootHasLeafChild(root))
  }

  /**
   * A subtree `getCandidates` offers: below the root, not a leaf, not
   * required, and not a child of a root that already has a leaf child.
   */
  predicate Replaceable(root: Node, p: seq<nat>) {
    && |p| >= 1 && ValidPath(root, p)
    && !IsLeaf(At(root, p)) && !At(root, p).required
    && !(|p| == 1 && RootHasLeafChild(root))
  }

  /** The candidate record `getCandidates` pushes for a replaceable path. */
  function ReplaceCandidateAt(root: Node, p: seq<nat>): Candidate
    requires |p| >= 1 && ValidPath(root, p)
  {
    Candidate(p, |p| - 1, CountLeaves(At(root, p)))
  }

  lemma {:induction false} ReplaceEdgesSound(root: Node, pre: seq<nat>, i: nat, c: Candidate)
    requires ValidPath(root, pre)
    requires c in ReplaceEdges(At(root, pre), pre, RootHasLeafChild(root), i)
    ensures |c.path| > |pre| && c.path[..|pre|] == pre
    ensures Replaceable(root, c.path) && c == ReplaceCandidateAt(root, c.path)
    decreases At(root, pre), 0, |At(root, pre).children| - i
  {
    var n := At(root, pre);
    var rh := RootHasLeafChild(root);
    if i < |n.children| {
      var child := n.children[i].node;
      ValidPathSnoc(root, pre, i);
      var here := if !IsLeaf(child) && !child.required && !(|pre| == 0 && rh)
        then [Candidate(pre + [i], |pre|, CountLeaves(child))] else [];
      assert ReplaceEdges(n, pre, rh, i) == here + ReplaceWalk(child, pre + [i], rh) + ReplaceEdges(n, pre, rh, i + 1);
      if c in here {
        assert (pre + [i])[..|pre|] == pre;
      } else if c in ReplaceWalk(child, pre + [i], rh) {
        ReplaceEdgesSound(root, pre + [i], 0, c);
        assert c.path[..|pre|] == c.path[..|pre| + 1][..|pre|];
      } else {
        ReplaceEdgesSound(root, pre, i + 1, c);
      }
    }
  }

  lemma {:induction false} ReplaceEdgesMonotone(n: Node, pre: seq<nat>, rh: bool, j: nat, i: nat, c: Candidate)
    requires j <= i && c in ReplaceEdges(n, pre, rh, i)
    ensures c in ReplaceEdges(n, pre, rh, j)
    decreases i - j
  {
    if j < i {
      ReplaceEdgesMonotone(n, pre, rh, j + 1, i, c);
    }
  }

  lemma {:induction false} ReplaceWalkComplete(root: Node, pre: seq<nat>, p: seq<nat>)
    requires Replaceable(root, p) && |pre| < |p| && p[..|pre|] == pre
    ensures ValidPath(root, pre)
    ensures ReplaceCandidateAt(root, p) in ReplaceWalk(At(root, pre), pre, RootHasLeafChild(root))
    decreases |p| - |pre|
  {
    ValidPathPrefix(root, p, |pre|);
    ValidPathPrefix(root, p, |pre| + 1);
    var i := p[|pre|];
    var next := p[..|pre| + 1];
    assert next == pre + [i];
    var n := At(root, pre);
    var rh := RootHasLeafChild(root);
    ValidPathStep(root, pre, i);
    ValidPathSnoc(root, pre, i);
    var child := n.children[i].node;
    var c := ReplaceCandidateAt(root, p);
    var here := if !IsLeaf(child) && !child.required && !(|pre| == 0 && rh)
      then [Candidate(pre + [i], |pre|, CountLeaves(child))] else [];
    assert ReplaceEdges(n, pre, rh, i) == here + ReplaceWalk(child, pre + [i], rh) + ReplaceEdges(n, pre, rh, i + 1);
    if |p| == |pre| + 1 {
      assert p == next;
      assert c in here;
    } else {
      ReplaceWalkComplete(root, next, p);
      assert next[..|pre| + 1] == next;
    }
    ReplaceEdgesMonotone(n, pre, rh, 0, i, c);
  }

  /** The next index of a valid path names an edge of the node reached so far. */
  lemma {:induction false} ValidPathStep(n: Node, pre: seq<nat>, i: nat)
    requires ValidPath(n, pre) && ValidPath(n, pre + [i])
    ensures i < |At(n, pre).children|
    decreases |pre|
  {
    if |pre| > 0 {
      assert (pre + [i])[1..] == pre[1..] + [i];
      ValidPathStep(n.children[pre[0]].node, pre[1..], i);
    } else {
      assert pre + [i] == [i];
    }
  }

  /** Everything the walk from the root offers is a replaceable subtree. */
  lemma ReplaceWalkSound(root: Node)
    ensures forall c :: c in ReplaceWalk(root, [], RootHasLeafChild(root)) ==>
      Replaceable(root, c.path) && c == ReplaceCandidateAt(root, c.path)
  {
    forall c | c in ReplaceWalk(root, [], RootHasLeafChild(root))
      ensures Replaceable(root, c.path) && c == ReplaceCandidateAt(root, c.path)
    {
      ReplaceEdgesSound(root, [], 0, c);
    }
  }

  /**
   * `getCandidates` offers exactly the replaceable subtrees, each with its
   * parent's depth and its own leaf count.
   */
  lemma ReplaceCandidatesMeaning(root: Node, c: Candidate)
    ensures c in ReplaceCandidates(root) <==> Replaceable(root, c.path) && c == ReplaceCandidateAt(root, c.path)
  {
    if c in ReplaceCandidates(root) {
      ReplaceEdgesSound(root, [], 0, c);
    }
    if Replaceable(root, c.path) && c == ReplaceCandidateAt(root, c.path) {
      ReplaceWalkComplete(root, [], c.path);
    }
  }

  // --------------------------------------------------- trim candidates

  /** A branch that may be cut: its parent's path, its index there, the parent's depth and its leaves. */
  datatype Trim = Trim(parent: seq<nat>, index: nat, depth: nat, leaves: nat)

  /** The non-required children of the node at `pre`, from index `i` on. */
  function TrimHere(n: Node, pre: seq<nat>, i: nat): seq<Trim>
    decreases |n.children| - i
  {
    if i >= |n.children| then []
    else if n.children[i].node.required then TrimHere(n, pre, i + 1)
    else [Trim(pre, i, |pre|, CountLeaves(n.children[i].node))] + TrimHere(n, pre, i + 1)
  }

  /** The `walk` of `getTrimCandidates`: a node's own candidates, then its children's. */
  function TrimWalk(n: Node, pre: seq<nat>, c: SizeConfig): seq<Trim>
    decreases n, 1
  {
    (if |n.children| > MinBranches(c, |pre|) then TrimHere(n, pre, 0) else [])
    + TrimEdges(n, pre, c, 0)
  }

  function TrimEdges(n: Node, pre: seq<nat>, c: SizeConfig, i: nat): seq<Trim>
    decreases n, 0, |n.children| - i
  {
    if i >= |n.children| then []
    else TrimWalk(n.children[i].node, pre + [i], c) + TrimEdges(n, pre, c, i + 1)
  }

  /** `getTrimCandidates()`. */
  function TrimCandidates(root: Node, c: SizeConfig): (ts: seq<Trim>)
    ensures forall t :: t in ts ==> Trimmable(root, c, t.parent, t.index) && t == TrimAt(root, t.parent, t.index)
  {
    TrimWalkAllSound(root, c);
    TrimWalk(root, [], c)
  }

  /** A branch `getTrimCandidates` offers: of a node with more branches than its depth's minimum, and not required. */
  predicate Trimmable(root: Node, c: SizeConfig, parent: seq<nat>, index: nat) {
    && ValidPath(root, parent)
    && index < |At(root, parent).children|
    && |At(root, parent).children| > MinBranches(c, |parent|)
    && !At(root, parent).children[index].node.required
  }

  function TrimAt(root: Node, parent: seq<nat>, index: nat): Trim
    requires ValidPath(root, parent) && index < |At(root, parent).children|
  {
    Trim(parent, index, |parent|, CountLeaves(At(root, parent).children[index].node))
  }

  lemma {:induction false} TrimHereMeaning(n: Node, pre: seq<nat>, i: nat, t: Trim)
    ensures t in TrimHere(n, pre, i) <==>
      t.parent == pre && i <= t.index < |n.children| && !n.children[t.index].node.required
      && t == Trim(pre, t.index, |pre|, CountLeaves(n.children[t.index].node))
    decreases |n.children| - i
  {
    if i < |n.children| {
      TrimHereMeaning(n, pre, i + 1, t);
    }
  }

  lemma {:induction false} TrimEdgesSound(root: Node, c: SizeConfig, pre: seq<nat>, i: nat, t: Trim)
    requires ValidPath(root, pre)
    requires t in TrimEdges(At(root, pre), pre, c, i)
    ensures |t.parent| > |pre| && t.parent[..|pre|] == pre
    ensures Trimmable(root, c, t.parent, t.index) && t == TrimAt(root, t.parent, t.index)
    decreases At(root, pre), 0, |At(root, pre).children| - i
  {
    var n := At(root, pre);
    if i < |n.children| {
      var child := n.children[i].node;
      ValidPathSnoc(root, pre, i);
      if t in TrimWalk(child, pre + [i], c) {
        TrimWalkSound(root, c, pre + [i], t);
        assert t.parent[..|pre|] == t.parent[..|pre| + 1][..|pre|];
      } else {
        TrimEdgesSound(root, c, pre, i + 1, t);
      }
    }
  }

  lemma {:induction false} TrimWalkSound(root: Node, c: SizeConfig, pre: seq<nat>, t: Trim)
    requires ValidPath(root, pre)
    requires t in TrimWalk(At(root, pre), pre, c)
    ensures |t.parent| >= |pre| && t.parent[..|pre|] == pre
    ensures Trimmable(root, c, t.parent, t.index) && t == TrimAt(root, t.parent, t.index)
    decreases At(root, pre), 1
  {
    var n := At(root, pre);
    if t in TrimEdges(n, pre, c, 0) {
      TrimEdgesSound(root, c, pre, 0, t);
    } else {
      TrimHereMeaning(n, pre, 0, t);
      assert t.parent == pre;
    }
  }

  lemma {:induction false} TrimEdgesMonotone(n: Node, pre: seq<nat>, c: SizeConfig, j: nat, i: nat, t: Trim)
    requires j <= i && t in TrimEdges(n, pre, c, i)
    ensures t in TrimEdges(n, pre, c, j)
    decreases i - j
  {
    if j < i {
      TrimEdgesMonotone(n, pre, c, j + 1, i, t);
    }
  }

  lemma {:induction false} TrimWalkComplete(root: Node, c: SizeConfig, pre: seq<nat>, parent: seq<nat>, index: nat)
    requires Trimmable(root, c, parent, index) && |pre| <= |parent| && parent[..|pre|] == pre
    ensures ValidPath(root, pre)
    ensures TrimAt(root, parent, index) in TrimWalk(At(root, pre), pre, c)
    decreases |parent| - |pre|
  {
    ValidPathPrefix(root, parent, |pre|);
    var n := At(root, pre);
    var t := TrimAt(root, parent, index);
    if |pre| == |parent| {
      assert parent == pre;
      TrimHereMeaning(n, pre, 0, t);
    } else {
      ValidPathPrefix(root, parent, |pre| + 1);
      var i := parent[|pre|];
      var next := parent[..|pre| + 1];
      assert next == pre + [i];
      ValidPathStep(root, pre, i);
      ValidPathSnoc(root, pre, i);
      TrimWalkComplete(root, c, next, parent, index);
      assert next[..|pre| + 1] == next;
      assert TrimEdges(n, pre, c, i) == TrimWalk(n.children[i].node, pre + [i], c) + TrimEdges(n, pre, c, i + 1);
      TrimEdgesMonotone(n, pre, c, 0, i, t);
    }
  }

  /** Everything the walk from the root offers is a trimmable branch. */
  lemma TrimWalkAllSound(root: Node, c: SizeConfig)
    ensures forall t :: t in TrimWalk(root, [], c) ==>
      Trimmable(root, c, t.parent, t.index) && t == TrimAt(root, t.parent, t.index)
  {
    forall t | t in TrimWalk(root, [], c)
      ensures Trimmable(root, c, t.parent, t.index) && t == TrimAt(root, t.parent, t.index)
    {
      TrimWalkSound(root, c, [], t);
    }
  }

  /** `getTrimCandidates` offers exactly the trimmable branches, each with its parent's depth and its leaf count. */
  lemma TrimCandidatesMeaning(root: Node, c: SizeConfig, t: Trim)
    ensures t in TrimCandidates(root, c) <==>
      Trimmable(root, c, t.parent, t.index) && t == TrimAt(root, t.parent, t.index)
  {
    if t in TrimCandidates(root, c) {
      TrimWalkSound(root, c, [], t);
    }
    if Trimmable(root, c, t.parent, t.index) && t == TrimAt(root, t.parent, t.index) {
      TrimWalkComplete(root, c, [], t.parent, t.index);
    }
  }

  // ---------------------------------------------------------- choosing

  /** The order of `candidates.sort`: deeper first, then more leaves first. */
  predicate DeeperFirst(a: Candidate, b: Candidate) {
    a.depth > b.depth || (a.depth == b.depth && a.leaves >= b.leaves)
  }

  /** The order of `trimCandidates.sort`: more leaves first, then deeper first. */
  predicate LargerFirst(a: Trim, b: Trim) {
    a.leaves > b.leaves || (a.leaves == b.leaves && a.depth >= b.depth)
  }

  lemma FirstOfSortIsMember<T>(s: seq<T>, le: (T, T) -> bool)
    requires |s| > 0
    ensures |Sorting.Sort(s, le)| > 0 && Sorting.Sort(s, le)[0] in s
  {
    var r := Sorting.Sort(s, le);
    assert r[0] in multiset(r);
  }

  /** The candidate `pruneToMaxLeaves` replaces is one of the deepest, and the largest among those. */
  lemma ReplaceTargetDeepest(cands: seq<Candidate>)
    requires |cands| > 0
    ensures var t := Sorting.Sort(cands, DeeperFirst)[0];
      t in cands &&
      forall c :: c in cands ==> c.depth < t.depth || (c.depth == t.depth && c.leaves <= t.leaves)
  {
    FirstOfSortIsMember(cands, DeeperFirst);
    Sorting.SortSorted(cands, DeeperFirst);
    var r := Sorting.Sort(cands, DeeperFirst);
    forall c | c in cands
      ensures c.depth < r[0].depth || (c.depth == r[0].depth && c.leaves <= r[0].leaves)
    {
      assert c in multiset(r);
      var j :| 0 <= j < |r| && r[j] == c;
      if j > 0 {
        assert DeeperFirst(r[0], r[j]);
      }
    }
  }

  /** The branch `pruneToMaxLeaves` cuts has the most leaves, and is the deepest among those. */
  lemma TrimTargetLargest(trims: seq<Trim>)
    requires |trims| > 0
    ensures var t := Sorting.Sort(trims, LargerFirst)[0];
      t in trims &&
      forall u :: u in trims ==> u.leaves < t.leaves || (u.leaves == t.leaves && u.depth <= t.depth)
  {
    FirstOfSortIsMember(trims, LargerFirst);
    Sorting.SortSorted(trims, LargerFirst);
    var r := Sorting.Sort(trims, LargerFirst);
    forall u | u in trims
      ensures u.leaves < r[0].leaves || (u.leaves == r[0].leaves && u.depth <= r[0].depth)
    {
      assert u in multiset(r);
      var j :| 0 <= j < |r| && r[j] == u;
      if j > 0 {
        assert LargerFirst(r[0], r[j]);
      }
    }
  }

  // ------------------------------------------------------------ cutting

  /** `node.children.splice(index, 1)` on the node at `parent`. */
  function RemoveChild(root: Node, parent: seq<nat>, index: nat): (r: Node)
    requires ValidPath(root, parent) && index < |At(root, parent).children|
    ensures ValidPath(r, parent)
    ensures var p := At(root, parent);
      At(r, parent) == p.(children := p.children[..index] + p.children[index + 1..])
  {
    var p := At(root, parent);
    ReplaceAtValid(root, parent, p.(children := p.children[..index] + p.children[index + 1..]));
    ReplaceAt(root, parent, p.(children := p.children[..index] + p.children[index + 1..]))
  }

  lemma CountWithoutChild(k: Tally, n: Node, i: nat)
    requires i < |n.children| && |n.children| >= 2
    ensures Count(k, n.(children := n.children[..i] + n.children[i + 1..]))
         == Count(k, n) - Count(k, n.children[i].node)
  {
    var m := n.(children := n.children[..i] + n.children[i + 1..]);
    var s := ChildTallies(k, n);
    assert ChildTallies(k, m) == s[..i] + s[i + 1..] by {
      forall j | 0 <= j < |m.children| ensures ChildTallies(k, m)[j] == (s[..i] + s[i + 1..])[j] {
        ChildTalliesAt(k, m, j);
        if j < i {
          ChildTalliesAt(k, n, j);
        } else {
          ChildTalliesAt(k, n, j + 1);
        }
      }
    }
    ChildTalliesAt(k, n, i);
    SumNatRemove(s, i);
    assert Own(k, m) == Own(k, n);
  }

  /** Cutting a branch of a node with at least two branches removes exactly that branch's tally. */
  lemma CountRemoveChild(k: Tally, root: Node, parent: seq<nat>, index: nat)
    requires ValidPath(root, parent) && index < |At(root, parent).children|
    requires |At(root, parent).children| >= 2
    ensures Count(k, RemoveChild(root, parent, index))
         == Count(k, root) - Count(k, At(root, parent).children[index].node)
  {
    var p := At(root, parent);
    CountWithoutChild(k, p, index);
    CountReplaceAt(k, root, parent, p.(children := p.children[..index] + p.children[index + 1..]));
  }

  lemma RequiredUnderRequiredRemoveChild(root: Node, parent: seq<nat>, index: nat)
    requires RequiredUnderRequired(root)
    requires ValidPath(root, parent) && index < |At(root, parent).children|
    ensures RequiredUnderRequired(RemoveChild(root, parent, index))
  {
    var p := At(root, parent);
    var m := p.(children := p.children[..index] + p.children[index + 1..]);
    RequiredUnderRequiredAt(root, parent);
    assert RequiredUnderRequired(m) by {
      forall j | 0 <= j < |m.children|
        ensures (m.children[j].node.required ==> m.required) && RequiredUnderRequired(m.children[j].node)
      {
        if j < index {
          assert m.children[j] == p.children[j];
        } else {
          assert m.children[j] == p.children[j + 1];
        }
      }
    }
    RequiredUnderRequiredReplaceAt(root, parent, m);
  }

  // ----------------------------------------------------------- the loop

  /** One replacement keeps the leaf counter exact, keeps required nodes, and shrinks the tree. */
  lemma ReplaceStep(tree: Node, t: Candidate)
    requires Replaceable(tree, t.path) && t == ReplaceCandidateAt(tree, t.path)
    ensures var next := ReplaceAt(tree, t.path, TerminalNode());
      && CountLeaves(next) == CountLeaves(tree) - (t.leaves - 1)
      && Size(next) < Size(tree)
      && next.kind == tree.kind && next.required == tree.required
      && (RequiredUnderRequired(tree) ==>
            RequiredUnderRequired(next) && Count(Required, next) == Count(Required, tree))
  {
    var sub := At(tree, t.path);
    CountReplaceAt(Leaves, tree, t.path, TerminalNode());
    CountReplaceAt(Nodes, tree, t.path, TerminalNode());
    CountReplaceAt(Required, tree, t.path, TerminalNode());
    assert Count(Leaves, TerminalNode()) == 1 && Count(Nodes, TerminalNode()) == 1 && Count(Required, TerminalNode()) == 0;
    assert Size(sub) >= 2 by {
      ChildTalliesAt(Nodes, sub, 0);
      SumNatAtLeast(ChildTallies(Nodes, sub), 0);
    }
    if RequiredUnderRequired(tree) {
      RequiredUnderRequiredAt(tree, t.path);
      NoRequiredBelow(sub);
      RequiredUnderRequiredReplaceAt(tree, t.path, TerminalNode());
    }
  }

  /** One cut keeps the leaf counter exact, keeps required nodes, and shrinks the tree. */
  lemma TrimStep(tree: Node, c: SizeConfig, t: Trim)
    requires forall d :: 0 <= d < |c.branchByDepth| ==> c.branchByDepth[d].min >= 1
    requires Trimmable(tree, c, t.parent, t.index) && t == TrimAt(tree, t.parent, t.index)
    ensures var next := RemoveChild(tree, t.parent, t.index);
      && CountLeaves(next) == CountLeaves(tree) - t.leaves
      && Size(next) < Size(tree)
      && (|t.parent| > 0 ==> next.kind == tree.kind && next.required == tree.required)
      && (RequiredUnderRequired(tree) ==>
            RequiredUnderRequired(next) && Count(Required, next) == Count(Required, tree))
  {
    var child := At(tree, t.parent).children[t.index].node;
    assert MinBranches(c, |t.parent|) >= 1;
    CountRemoveChild(Leaves, tree, t.parent, t.index);
    CountRemoveChild(Nodes, tree, t.parent, t.index);
    CountRemoveChild(Required, tree, t.parent, t.index);
    if RequiredUnderRequired(tree) {
      RequiredUnderRequiredAt(tree, t.parent);
      assert RequiredUnderRequired(child);
      NoRequiredBelow(child);
      RequiredUnderRequiredRemoveChild(tree, t.parent, t.index);
    }
  }

  /**
   * `pruneToMaxLeaves` on the tree generated for a size preset. The
   * result has at most the preset's leaves, unless neither a subtree can
   * become terminal nor a branch can be cut; a tree already small enough
   * is returned as it is; leaves never increase; and when the required
   * marking is closed (as the generator builds it), no required node is
   * lost.
   */
  method PruneToMaxLeaves(root: Node, key: SizeKey) returns (pruned: Node)
    ensures CountLeaves(root) <= Config(key).maxLeaves ==> pruned == root
    ensures CountLeaves(pruned) <= Config(key).maxLeaves
         || (ReplaceCandidates(pruned) == [] && TrimCandidates(pruned, Config(key)) == [])
    ensures CountLeaves(pruned) <= CountLeaves(root)
    ensures RequiredUnderRequired(root) ==>
      RequiredUnderRequired(pruned) && Count(Required, pruned) == Count(Required, root)
  {
    var config := Config(key);
    pruned := root;
    var leaves := CountLeaves(pruned);
    if leaves <= config.maxLeaves {
      return;
    }
    while leaves > config.maxLeaves
      invariant leaves == CountLeaves(pruned) <= CountLeaves(root)
      invariant RequiredUnderRequired(root) ==>
        RequiredUnderRequired(pruned) && Count(Required, pruned) == Count(Required, root)
      decreases Size(pruned)
    {
      var candidates := ReplaceCandidates(pruned);
      if |candidates| > 0 {
        var target := Sorting.Sort(candidates, DeeperFirst)[0];
        FirstOfSortIsMember(candidates, DeeperFirst);
        ReplaceCandidatesMeaning(pruned, target);
        ReplaceStep(pruned, target);
        pruned := ReplaceAt(pruned, target.path, TerminalNode());
        leaves := leaves - (target.leaves - 1);
        continue;
      }
      var trims := TrimCandidates(pruned, config);
      if |trims| == 0 {
        break;
      }
      var target := Sorting.Sort(trims, LargerFirst)[0];
      FirstOfSortIsMember(trims, LargerFirst);
      TrimCandidatesMeaning(pruned, config, target);
      TrimStep(pruned, config, target);
      pruned := RemoveChild(pruned, target.parent, target.index);
      leaves := leaves - target.leaves;
    }
  }

  /**
   * When pruning stops above the limit, no node below the root can become
   * terminal and no node with more branches than its depth's minimum has
   * a branch that is not required.
   */
  lemma PruningStuck(tree: Node, c: SizeConfig, p: seq<nat>, parent: seq<nat>, index: nat)
    requires ReplaceCandidates(tree) == [] && TrimCandidates(tree, c) == []
    ensures !Replaceable(tree, p)
    ensures !Trimmable(tree, c, parent, index)
  {
    if Replaceable(tree, p) {
      ReplaceCandidatesMeaning(tree, ReplaceCandidateAt(tree, p));
    }
    if Trimmable(tree, c, parent, index) {
      TrimCandidatesMeaning(tree, c, TrimAt(tree, parent, index));
    }
  }
}
