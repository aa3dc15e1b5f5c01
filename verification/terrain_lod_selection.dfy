/** `TerrainLODSelectionAndCullingAlgorithm::GetChunksToRender`: the octree
    walk that picks the chunks to draw. Nodes are named by their paths from
    the node the walk starts at; the sphere-in-frustum test and the viewport
    area heuristic are floating-point computations on a node's corner and
    size, and enter as uninterpreted functions. */
module TerrainLodSelection {
  import opened TerrainTypes
  import opened OctreeFunctionLibrary
  import opened OctreeNode

  /** The walk's inputs besides the tree: the frustum test, the heuristic,
      the threshold (`MinimumViewportAreaThreshold`, 1.0 in the engine) and
      whether a regeneration callback was passed. */
  datatype Lod = Lod(
    visible: (Vec3, nat) -> bool,
    heuristic: (Vec3, nat) -> real,
    threshold: real,
    hasCallback: bool)
  {
    predicate Visible(n: Node) {
      visible(n.bottomLeftCorner, n.sizeInVoxels)
    }

    /** The heuristic lies strictly between 0 and the threshold: the node is
        small enough on screen to draw as it is. */
    predicate SmallEnough(n: Node) {
      var h := heuristic(n.bottomLeftCorner, n.sizeInVoxels);
      h < threshold && h > 0.0
    }
  }

  /** The vector the walk appends to, and the nodes handed to the callback,
      both in call order. */
  datatype Output = Output(render: seq<seq<Octant>>, regenerate: seq<seq<Octant>>)

  /** Output `a` is a prefix of output `b`: `b` only appended to `a`. */
  predicate Extends(a: Output, b: Output) {
    && |a.render| <= |b.render| && b.render[..|a.render|] == a.render
    && |a.regenerate| <= |b.regenerate| && b.regenerate[..|a.regenerate|] == a.regenerate
  }

  lemma ExtendsTransitive(a: Output, b: Output, c: Output)
    requires Extends(a, b) && Extends(b, c)
    ensures Extends(a, c)
  {
    assert c.render[..|a.render|] == c.render[..|b.render|][..|a.render|];
    assert c.regenerate[..|a.regenerate|] == c.regenerate[..|b.regenerate|][..|a.regenerate|];
  }

  /** `GetChunksToRender(frustum, out, onNode, …)` as written, where `at`
      is `onNode`'s path. */
  function GetChunksToRender(lod: Lod, out: Output, n: Node, at: seq<Octant>): (r: Output)
    requires Valid(n)
    ensures Extends(out, r)
    decreases n.mipLevel, 9, 0
  {
    VisitSlots(lod, out, n, at, 0)
  }

  /** Iterations `i` to 7 of the loop over child slots. */
  function VisitSlots(lod: Lod, out: Output, n: Node, at: seq<Octant>, i: nat): (r: Output)
    requires Valid(n) && i <= 8
    ensures Extends(out, r)
    decreases n.mipLevel, 8 - i, 1
  {
    if i == 8 then out
    else
      var next := VisitSlot(lod, out, n, at, i);
      var r := VisitSlots(lod, next, n, at, i + 1);
      ExtendsTransitive(out, next, r);
      r
  }

  /** Iteration `i`: a present child is culled, appended (and perhaps
      handed to the callback) or walked into; a null slot of a mip-0 node
      appends that node itself. */
  function VisitSlot(lod: Lod, out: Output, n: Node, at: seq<Octant>, i: Octant): (r: Output)
    requires Valid(n)
    ensures Extends(out, r)
    decreases n.mipLevel, 8 - i, 0
  {
    match n.children[i]
    case Some(c) =>
      if !lod.Visible(c) then out
      else if lod.SmallEnough(c) then
        Output(out.render + [at + [i]],
               if lod.hasCallback && c.NeedsRegenerating() then out.regenerate + [at + [i]] else out.regenerate)
      else GetChunksToRender(lod, out, c, at + [i])
    case None =>
      if n.mipLevel == 0 then Output(out.render + [at], out.regenerate) else out
  }

  // ---------------------------------------------------------------------
  // Reference description of the selection

  /** Every node strictly below `n` along `q` exists, is visible and is not
      small enough: the walk passes through all of them. */
  ghost predicate WalkedThrough(lod: Lod, n: Node, q: seq<Octant>)
    requires Valid(n)
    decreases |q|
  {
    |q| == 0 ||
      match n.children[q[0]]
      case None => false
      case Some(c) => lod.Visible(c) && !lod.SmallEnough(c) && WalkedThrough(lod, c, q[1..])
  }

  /** `q` names a node drawn because of its size: the walk reaches its
      parent and the node itself is visible and small enough. */
  ghost predicate ChosenBySize(lod: Lod, n: Node, q: seq<Octant>)
    requires Valid(n)
  {
    && |q| > 0
    && WalkedThrough(lod, n, q[..|q| - 1])
    && NodeAt(n, q).Some?
    && lod.Visible(NodeAt(n, q).value) && lod.SmallEnough(NodeAt(n, q).value)
  }

  /** `q` names a mip-0 node the walk reaches without stopping earlier. */
  ghost predicate ChosenAsLeaf(lod: Lod, n: Node, q: seq<Octant>)
    requires Valid(n)
  {
    WalkedThrough(lod, n, q) && NodeAt(n, q).Some? && NodeAt(n, q).value.mipLevel == 0
  }

  /** `q` names a node whose mesh the callback is asked to regenerate. */
  ghost predicate Regenerated(lod: Lod, n: Node, q: seq<Octant>)
    requires Valid(n)
  {
    lod.hasCallback && ChosenBySize(lod, n, q) && NodeAt(n, q).value.NeedsRegenerating()
  }

  lemma {:induction false} WalkedThroughReaches(lod: Lod, n: Node, q: seq<Octant>)
    requires Valid(n) && WalkedThrough(lod, n, q)
    ensures NodeAt(n, q).Some?
    decreases |q|
  {
    if |q| > 0 {
      WalkedThroughReaches(lod, n.children[q[0]].value, q[1..]);
    }
  }

  /** A size-chosen node and a leaf-chosen node are never the same: the
      walk would have stopped at the former. */
  lemma {:induction false} ChosenExclusive(lod: Lod, n: Node, q: seq<Octant>)
    requires Valid(n)
    ensures !(ChosenBySize(lod, n, q) && ChosenAsLeaf(lod, n, q))
    decreases |q|
  {
    if ChosenBySize(lod, n, q) && ChosenAsLeaf(lod, n, q) {
      var c := n.children[q[0]].value;
      assert NodeAt(n, q) == NodeAt(c, q[1..]);
      if |q| > 1 {
        assert q[1..][..|q[1..]| - 1] == q[..|q| - 1][1..];
        ChosenExclusive(lod, c, q[1..]);
      }
    }
  }

  // ---------------------------------------------------------------------
  // Counting the appends

  /** How many times a walk from `n` appends the node at `q`, when each
      node the walk reaches at mip level 0 is appended `leafCopies` times. */
  ghost function Copies(lod: Lod, n: Node, q: seq<Octant>, leafCopies: nat): nat
    requires Valid(n)
    decreases n.mipLevel, 9
  {
    if n.mipLevel == 0 then (if |q| == 0 then leafCopies else 0)
    else SlotCopies(lod, n, q, 0, leafCopies)
  }

  /** The appends of `q` that slots `i` to 7 of `n` account for. */
  ghost function SlotCopies(lod: Lod, n: Node, q: seq<Octant>, i: nat, leafCopies: nat): nat
    requires Valid(n) && i <= 8
    decreases n.mipLevel, 8 - i
  {
    if i == 8 then 0
    else
      var share := match n.children[i]
        case None => 0
        case Some(c) =>
          if !lod.Visible(c) then 0
          else if lod.SmallEnough(c) then (if q == [i] then 1 else 0)
          else if |q| > 0 && q[0] == i then Copies(lod, c, q[1..], leafCopies)
          else 0;
      share + SlotCopies(lod, n, q, i + 1, leafCopies)
  }

  /** How many times a walk from `n` hands the node at `q` to the
      callback. */
  ghost function Regens(lod: Lod, n: Node, q: seq<Octant>): nat
    requires Valid(n)
    decreases n.mipLevel, 9
  {
    if n.mipLevel == 0 then 0 else SlotRegens(lod, n, q, 0)
  }

  ghost function SlotRegens(lod: Lod, n: Node, q: seq<Octant>, i: nat): nat
    requires Valid(n) && i <= 8
    decreases n.mipLevel, 8 - i
  {
    if i == 8 then 0
    else
      var share := match n.children[i]
        case None => 0
        case Some(c) =>
          if !lod.Visible(c) then 0
          else if lod.SmallEnough(c) then (if q == [i] && lod.hasCallback && c.NeedsRegenerating() then 1 else 0)
          else if |q| > 0 && q[0] == i then Regens(lod, c, q[1..])
          else 0;
      share + SlotRegens(lod, n, q, i + 1)
  }

  /** Only slot `q[0]` accounts for appends of a non-empty `q`. */
  lemma {:induction false} SlotCopiesOne(lod: Lod, n: Node, q: seq<Octant>, i: nat, leafCopies: nat)
    requires Valid(n) && i <= 8 && |q| > 0
    ensures i <= q[0] ==> SlotCopies(lod, n, q, i, leafCopies) == SlotCopies(lod, n, q, q[0], leafCopies)
    ensures q[0] < i ==> SlotCopies(lod, n, q, i, leafCopies) == 0
    ensures i <= q[0] ==> SlotRegens(lod, n, q, i) == SlotRegens(lod, n, q, q[0])
    ensures q[0] < i ==> SlotRegens(lod, n, q, i) == 0
    decreases 8 - i
  {
    if i < 8 {
      SlotCopiesOne(lod, n, q, i + 1, leafCopies);
    }
  }

  /** No slot accounts for appends of `n` itself above mip level 0. */
  lemma {:induction false} SlotCopiesEmpty(lod: Lod, n: Node, i: nat, leafCopies: nat)
    requires Valid(n) && i <= 8
    ensures SlotCopies(lod, n, [], i, leafCopies) == 0
    ensures SlotRegens(lod, n, [], i) == 0
    decreases 8 - i
  {
    if i < 8 {
      SlotCopiesEmpty(lod, n, i + 1, leafCopies);
    }
  }

  /** The counts agree with the reference description: a size-chosen node
      is appended once and handed to the callback when it needs
      regenerating, a leaf-chosen node `leafCopies` times, any other node
      never. */
  lemma {:induction false} CopiesMeaning(lod: Lod, n: Node, q: seq<Octant>, leafCopies: nat)
    requires Valid(n)
    ensures Copies(lod, n, q, leafCopies) ==
      if ChosenBySize(lod, n, q) then 1 else if ChosenAsLeaf(lod, n, q) then leafCopies else 0
    ensures Regens(lod, n, q) == if Regenerated(lod, n, q) then 1 else 0
    decreases |q|
  {
    if |q| == 0 {
      SlotCopiesEmpty(lod, n, 0, leafCopies);
    } else if n.mipLevel == 0 {
      assert n.children[q[0]].None?;
    } else {
      var j := q[0];
      SlotCopiesOne(lod, n, q, 0, leafCopies);
      SlotCopiesOne(lod, n, q, j as nat + 1, leafCopies);
      match n.children[j]
      case None =>
        assert NodeAt(n, q).None?;
        if |q| > 1 {
          assert q[..|q| - 1][0] == j;
        }
      case Some(c) =>
        assert NodeAt(n, q) == NodeAt(c, q[1..]);
        if |q| > 1 {
          assert q[1..][..|q[1..]| - 1] == q[..|q| - 1][1..];
        }
        if lod.Visible(c) && !lod.SmallEnough(c) {
          CopiesMeaning(lod, c, q[1..], leafCopies);
        }
    }
  }

  /** Extending a prefix by one octant. */
  lemma PrefixStep(at: seq<Octant>, i: Octant, p: seq<Octant>)
    ensures at + [i] <= p <==> at <= p && |p| > |at| && p[|at|] == i
    ensures at + [i] <= p ==> p[|at| + 1..] == p[|at|..][1..]
    ensures p == at + [i] <==> at <= p && p[|at|..] == [i]
    ensures p == at <==> at <= p && |p[|at|..]| == 0
  {
    if at <= p && |p| > |at| && p[|at|] == i {
      assert p[..|at| + 1] == p[..|at|] + [p[|at|]];
    }
    if at <= p && p[|at|..] == [i] {
      assert p == p[..|at|] + p[|at|..];
    }
    if at <= p && |p[|at|..]| == 0 {
      assert p == p[..|at|];
    }
  }

  /** The walk as written appends each node as often as `Copies` with
      eight leaf copies says, and hands it to the callback as often as
      `Regens` says; whatever `out` held is kept. */
  lemma {:induction false} VisitCounts(lod: Lod, out: Output, n: Node, at: seq<Octant>, i: nat, p: seq<Octant>)
    requires Valid(n) && i <= 8
    ensures multiset(VisitSlots(lod, out, n, at, i).render)[p] == multiset(out.render)[p] +
      if n.mipLevel == 0 then (if p == at then 8 - i else 0)
      else if at <= p then SlotCopies(lod, n, p[|at|..], i, 8) else 0
    ensures multiset(VisitSlots(lod, out, n, at, i).regenerate)[p] == multiset(out.regenerate)[p] +
      if n.mipLevel > 0 && at <= p then SlotRegens(lod, n, p[|at|..], i) else 0
    decreases n.mipLevel, 8 - i, 1
  {
    if i < 8 {
      var next := VisitSlot(lod, out, n, at, i);
      SlotCounts(lod, out, n, at, i, p);
      VisitCounts(lod, next, n, at, i + 1, p);
    }
  }

  /** What one iteration adds. */
  lemma {:induction false} SlotCounts(lod: Lod, out: Output, n: Node, at: seq<Octant>, i: Octant, p: seq<Octant>)
    requires Valid(n)
    ensures multiset(VisitSlot(lod, out, n, at, i).render)[p] == multiset(out.render)[p] +
      if n.mipLevel == 0 then (if p == at then 1 else 0)
      else if at <= p then SlotCopies(lod, n, p[|at|..], i, 8) - SlotCopies(lod, n, p[|at|..], i as nat + 1, 8) else 0
    ensures multiset(VisitSlot(lod, out, n, at, i).regenerate)[p] == multiset(out.regenerate)[p] +
      if n.mipLevel > 0 && at <= p then SlotRegens(lod, n, p[|at|..], i) - SlotRegens(lod, n, p[|at|..], i as nat + 1) else 0
    decreases n.mipLevel, 8 - i, 0
  {
    PrefixStep(at, i, p);
    var r := VisitSlot(lod, out, n, at, i);
    match n.children[i]
    case None =>
      if n.mipLevel == 0 {
        assert r.render == out.render + [at] && r.regenerate == out.regenerate;
      } else {
        assert r == out;
      }
    case Some(c) =>
      assert n.mipLevel > 0;
      if !lod.Visible(c) {
        assert r == out;
      } else if lod.SmallEnough(c) {
        assert r.render == out.render + [at + [i]];
      } else {
        assert r == GetChunksToRender(lod, out, c, at + [i]);
        VisitCounts(lod, out, c, at + [i], 0, p);
      }
  }

  /** A node reached by the walk is appended once if it is small enough on
      screen and eight times, once per null child slot, if it is a mip-0
      node; the callback sees each size-chosen node that needs
      regenerating once, and never a leaf-chosen node. */
  lemma RenderedAsWritten(lod: Lod, n: Node, q: seq<Octant>)
    requires Valid(n)
    ensures var r := GetChunksToRender(lod, Output([], []), n, []);
      && multiset(r.render)[q] == (if ChosenBySize(lod, n, q) then 1 else if ChosenAsLeaf(lod, n, q) then 8 else 0)
      && multiset(r.regenerate)[q] == (if Regenerated(lod, n, q) then 1 else 0)
  {
    VisitCounts(lod, Output([], []), n, [], 0, q);
    CopiesMeaning(lod, n, q, 8);
    assert q[0..] == q;
  }

  /** Every node the walk passes through is visible and not small enough. */
  lemma {:induction false} WalkedThroughPrefix(lod: Lod, n: Node, q: seq<Octant>, k: nat)
    requires Valid(n) && WalkedThrough(lod, n, q) && k < |q|
    ensures NodeAt(n, q[..k + 1]).Some?
    ensures lod.Visible(NodeAt(n, q[..k + 1]).value) && !lod.SmallEnough(NodeAt(n, q[..k + 1]).value)
    decreases |q|
  {
    var c := n.children[q[0]].value;
    assert NodeAt(n, q[..k + 1]) == NodeAt(c, q[..k + 1][1..]);
    if k > 0 {
      assert q[..k + 1][1..] == q[1..][..k];
      WalkedThroughPrefix(lod, c, q[1..], k - 1);
    }
  }

  /** A culled node, and every node below it, is neither appended nor
      handed to the callback; nor is any node below a node drawn for its
      size. */
  lemma SkippedSubtrees(lod: Lod, n: Node, q: seq<Octant>, k: nat)
    requires Valid(n) && k < |q| && NodeAt(n, q[..k + 1]).Some?
    requires var m := NodeAt(n, q[..k + 1]).value;
      !lod.Visible(m) || (lod.SmallEnough(m) && k + 1 < |q|)
    ensures var r := GetChunksToRender(lod, Output([], []), n, []);
      q !in r.render && q !in r.regenerate
  {
    RenderedAsWritten(lod, n, q);
    assert k + 1 == |q| ==> q[..k + 1] == q;
    if ChosenAsLeaf(lod, n, q) {
      WalkedThroughPrefix(lod, n, q, k);
    }
    if ChosenBySize(lod, n, q) && k + 1 < |q| {
      assert q[..|q| - 1][..k + 1] == q[..k + 1];
      WalkedThroughPrefix(lod, n, q[..|q| - 1], k);
    }
  }

  /** A walk started at a mip-0 node appends that node eight times. */
  lemma LeafRootAppendedEightTimes(lod: Lod, bl: Vec3, meshFlag: bool)
    ensures var n := NewNode(0, bl, BaseCellSize, meshFlag);
      Valid(n) && GetChunksToRender(lod, Output([], []), n, []).render == [[], [], [], [], [], [], [], []]
  {
    var n := NewNode(0, bl, BaseCellSize, meshFlag);
    assert Valid(n);
    LeafSlots(lod, Output([], []), n, [], 0);
  }

  /** At a mip-0 node every remaining slot appends the node. */
  lemma {:induction false} LeafSlots(lod: Lod, out: Output, n: Node, at: seq<Octant>, i: nat)
    requires Valid(n) && n.mipLevel == 0 && i <= 8
    ensures VisitSlots(lod, out, n, at, i).render == out.render + seq(8 - i, _ => at)
    decreases 8 - i
  {
    if i < 8 {
      LeafSlots(lod, VisitSlot(lod, out, n, at, i), n, at, i + 1);
      assert [at] + seq(8 - (i + 1), _ => at) == seq(8 - i, _ => at);
    }
  }

  // ---------------------------------------------------------------------
  // The walk with each reached leaf appended once

  /** The walk with a reached mip-0 node appended once, before its (null)
      child slots would be looked at. */
  function GetChunksToRenderOnce(lod: Lod, out: Output, n: Node, at: seq<Octant>): (r: Output)
    requires Valid(n)
    ensures Extends(out, r)
    decreases n.mipLevel, 9, 0
  {
    if n.mipLevel == 0 then Output(out.render + [at], out.regenerate)
    else VisitSlotsOnce(lod, out, n, at, 0)
  }

  function VisitSlotsOnce(lod: Lod, out: Output, n: Node, at: seq<Octant>, i: nat): (r: Output)
    requires Valid(n) && i <= 8
    ensures Extends(out, r)
    decreases n.mipLevel, 8 - i, 1
  {
    if i == 8 then out
    else
      var next := VisitSlotOnce(lod, out, n, at, i);
      var r := VisitSlotsOnce(lod, next, n, at, i + 1);
      ExtendsTransitive(out, next, r);
      r
  }

  /** As `VisitSlot`, except that a null slot appends nothing. */
  function VisitSlotOnce(lod: Lod, out: Output, n: Node, at: seq<Octant>, i: Octant): (r: Output)
    requires Valid(n)
    ensures Extends(out, r)
    decreases n.mipLevel, 8 - i, 0
  {
    match n.children[i]
    case Some(c) =>
      if !lod.Visible(c) then out
      else if lod.SmallEnough(c) then
        Output(out.render + [at + [i]],
               if lod.hasCallback && c.NeedsRegenerating() then out.regenerate + [at + [i]] else out.regenerate)
      else GetChunksToRenderOnce(lod, out, c, at + [i])
    case None => out
  }

  lemma {:induction false} OnceCounts(lod: Lod, out: Output, n: Node, at: seq<Octant>, p: seq<Octant>)
    requires Valid(n)
    ensures multiset(GetChunksToRenderOnce(lod, out, n, at).render)[p] == multiset(out.render)[p] +
      if at <= p then Copies(lod, n, p[|at|..], 1) else 0
    ensures multiset(GetChunksToRenderOnce(lod, out, n, at).regenerate)[p] == multiset(out.regenerate)[p] +
      if at <= p then Regens(lod, n, p[|at|..]) else 0
    decreases n.mipLevel, 9, 0
  {
    PrefixStep(at, 0, p);
    if n.mipLevel > 0 {
      VisitOnceCounts(lod, out, n, at, 0, p);
    }
  }

  lemma {:induction false} VisitOnceCounts(lod: Lod, out: Output, n: Node, at: seq<Octant>, i: nat, p: seq<Octant>)
    requires Valid(n) && i <= 8
    ensures multiset(VisitSlotsOnce(lod, out, n, at, i).render)[p] == multiset(out.render)[p] +
      if at <= p then SlotCopies(lod, n, p[|at|..], i, 1) else 0
    ensures multiset(VisitSlotsOnce(lod, out, n, at, i).regenerate)[p] == multiset(out.regenerate)[p] +
      if at <= p then SlotRegens(lod, n, p[|at|..], i) else 0
    decreases n.mipLevel, 8 - i, 1
  {
    if i < 8 {
      var next := VisitSlotOnce(lod, out, n, at, i);
      SlotOnceCounts(lod, out, n, at, i, p);
      VisitOnceCounts(lod, next, n, at, i + 1, p);
    }
  }

  lemma {:induction false} SlotOnceCounts(lod: Lod, out: Output, n: Node, at: seq<Octant>, i: Octant, p: seq<Octant>)
    requires Valid(n)
    ensures multiset(VisitSlotOnce(lod, out, n, at, i).render)[p] == multiset(out.render)[p] +
      if at <= p then SlotCopies(lod, n, p[|at|..], i, 1) - SlotCopies(lod, n, p[|at|..], i as nat + 1, 1) else 0
    ensures multiset(VisitSlotOnce(lod, out, n, at, i).regenerate)[p] == multiset(out.regenerate)[p] +
      if at <= p then SlotRegens(lod, n, p[|at|..], i) - SlotRegens(lod, n, p[|at|..], i as nat + 1) else 0
    decreases n.mipLevel, 8 - i, 0
  {
    PrefixStep(at, i, p);
    if n.children[i].Some? {
      var c := n.children[i].value;
      if lod.Visible(c) && !lod.SmallEnough(c) {
        OnceCounts(lod, out, c, at + [i], p);
      }
    }
  }

  /** The corrected walk appends exactly the chosen nodes, each once, and
      hands the callback exactly the size-chosen nodes that need
      regenerating. */
  lemma RenderedOnce(lod: Lod, n: Node, q: seq<Octant>)
    requires Valid(n)
    ensures var r := GetChunksToRenderOnce(lod, Output([], []), n, []);
      && multiset(r.render)[q] == (if ChosenBySize(lod, n, q) || ChosenAsLeaf(lod, n, q) then 1 else 0)
      && (q in r.render <==> ChosenBySize(lod, n, q) || ChosenAsLeaf(lod, n, q))
      && (q in r.regenerate <==> Regenerated(lod, n, q))
  {
    OnceCounts(lod, Output([], []), n, [], q);
    CopiesMeaning(lod, n, q, 1);
    assert q[0..] == q;
  }
}
