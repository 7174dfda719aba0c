/** `filter_tree`: drop every child below a size threshold, keeping the order of
    the survivors, then do the same inside each survivor. */
module TreeFilter {
  import opened FileTree

  /** The children that `Vec::retain(|child| child.size >= min_size)` keeps. */
  function Retain(cs: seq<FileNode>, min: nat): (r: seq<FileNode>)
    ensures |r| <= |cs|
    ensures forall c :: c in r ==> c in cs && c.size >= min
  {
    if cs == [] then []
    else (if cs[0].size >= min then [cs[0]] else []) + Retain(cs[1..], min)
  }

  /** The positions of `cs`, in increasing order, whose node is at or above
      the threshold: an index-level reference for what `Retain` must keep. */
  function KeptIndices(cs: seq<FileNode>, min: nat): (ix: seq<nat>)
    ensures forall k :: 0 <= k < |ix| ==> ix[k] < |cs|
    ensures forall k, l :: 0 <= k < l < |ix| ==> ix[k] < ix[l]
    ensures forall i :: 0 <= i < |cs| ==> (i in ix <==> cs[i].size >= min)
  {
    if cs == [] then []
    else
      var n := |cs| - 1;
      KeptIndices(cs[..n], min) + (if cs[n].size >= min then [n] else [])
  }

  lemma {:induction false} RetainAppend(a: seq<FileNode>, b: seq<FileNode>, min: nat)
    ensures Retain(a + b, min) == Retain(a, min) + Retain(b, min)
  {
    if a == [] {
      assert a + b == b;
    } else {
      assert (a + b)[1..] == a[1..] + b;
      RetainAppend(a[1..], b, min);
    }
  }

  /** `Retain` keeps exactly the nodes at the kept positions, in order: it is
      the order-preserving subsequence of the children at or above `min`. */
  lemma {:induction false} RetainSelectsKept(cs: seq<FileNode>, min: nat)
    ensures var ix := KeptIndices(cs, min);
      |Retain(cs, min)| == |ix| &&
      forall k :: 0 <= k < |ix| ==> Retain(cs, min)[k] == cs[ix[k]]
  {
    if cs != [] {
      var n := |cs| - 1;
      assert cs == cs[..n] + [cs[n]];
      RetainAppend(cs[..n], [cs[n]], min);
      RetainSelectsKept(cs[..n], min);
    }
  }

  /** A node is kept exactly when it is a child at or above the threshold. */
  lemma {:induction false} RetainMembers(cs: seq<FileNode>, min: nat, c: FileNode)
    ensures c in Retain(cs, min) <==> c in cs && c.size >= min
  {
    if cs != [] {
      RetainMembers(cs[1..], min, c);
      assert c in cs <==> c == cs[0] || c in cs[1..];
    }
  }

  /** Retaining keeps everything when nothing is below the threshold. */
  lemma {:induction false} RetainAll(cs: seq<FileNode>, min: nat)
    requires forall c :: c in cs ==> c.size >= min
    ensures Retain(cs, min) == cs
  {
    if cs != [] {
      assert cs[0] in cs;
      RetainAll(cs[1..], min);
      assert cs == [cs[0]] + cs[1..];
    }
  }

  /** The decision to keep a child depends on its size only, so retaining
      commutes with any size-preserving rewrite of the children. */
  lemma {:induction false} RetainMapCommute(f: FileNode -> FileNode, cs: seq<FileNode>, min: nat)
    requires forall c :: f(c).size == c.size
    ensures Retain(MapNodes(f, cs), min) == MapNodes(f, Retain(cs, min))
  {
    if cs != [] {
      var head := if cs[0].size >= min then [cs[0]] else [];
      var fhead := if f(cs[0]).size >= min then [f(cs[0])] else [];
      assert fhead == MapNodes(f, head);
      assert cs == [cs[0]] + cs[1..];
      MapNodesAppend(f, [cs[0]], cs[1..]);
      assert MapNodes(f, cs)[1..] == MapNodes(f, cs[1..]);
      RetainMapCommute(f, cs[1..], min);
      MapNodesAppend(f, head, Retain(cs[1..], min));
    }
  }

  /** The tree after `filter_tree(node, min)`, stated bottom-up: filter inside
      every child, then drop the children below `min`. The source does it the
      other way round; `FilteredChildren` shows both orders agree. */
  function Filtered(node: FileNode, min: nat): (r: FileNode)
    ensures r.name == node.name && r.size == node.size && r.location == node.location
    decreases node
  {
    var inner := seq(|node.children|, i requires 0 <= i < |node.children| => Filtered(node.children[i], min));
    node.(children := Retain(inner, min))
  }

  /** Every child, at every depth, is at or above `min`. */
  predicate AllAtLeast(node: FileNode, min: nat)
    decreases node
  {
    forall c :: c in node.children ==> c.size >= min && AllAtLeast(c, min)
  }

  /** In the source's order: the surviving children are the retained ones,
      each filtered in turn; the node itself keeps its name, size and location. */
  lemma FilteredChildren(node: FileNode, min: nat)
    ensures Filtered(node, min).children == MapNodes(c => Filtered(c, min), Retain(node.children, min))
    ensures Filtered(node, min).name == node.name
    ensures Filtered(node, min).size == node.size
    ensures Filtered(node, min).location == node.location
  {
    var f := c => Filtered(c, min);
    assert MapNodes(f, node.children) ==
      seq(|node.children|, i requires 0 <= i < |node.children| => Filtered(node.children[i], min));
    RetainMapCommute(f, node.children, min);
  }

  /** After filtering, no child anywhere in the tree is below the threshold. */
  lemma {:induction false} FilteredAtLeast(node: FileNode, min: nat)
    ensures AllAtLeast(Filtered(node, min), min)
    decreases node
  {
    var inner := seq(|node.children|, i requires 0 <= i < |node.children| => Filtered(node.children[i], min));
    forall c | c in Filtered(node, min).children
      ensures c.size >= min && AllAtLeast(c, min)
    {
      RetainMembers(inner, min, c);
      var i :| 0 <= i < |inner| && inner[i] == c;
      FilteredAtLeast(node.children[i], min);
    }
  }

  /** A tree that already meets the threshold everywhere is left unchanged. */
  lemma {:induction false} FilteredFixpoint(node: FileNode, min: nat)
    requires AllAtLeast(node, min)
    ensures Filtered(node, min) == node
    decreases node
  {
    var inner := seq(|node.children|, i requires 0 <= i < |node.children| => Filtered(node.children[i], min));
    forall i | 0 <= i < |node.children|
      ensures inner[i] == node.children[i]
    {
      assert node.children[i] in node.children;
      FilteredFixpoint(node.children[i], min);
    }
    assert inner == node.children;
    RetainAll(node.children, min);
  }

  /** Filtering twice with the same threshold removes nothing further. */
  lemma FilterIdempotent(node: FileNode, min: nat)
    ensures Filtered(Filtered(node, min), min) == Filtered(node, min)
  {
    FilteredAtLeast(node, min);
    FilteredFixpoint(Filtered(node, min), min);
  }

  /** On a flat tree, filtering only drops children of the root. */
  lemma {:induction false} FilteredFlat(node: FileNode, min: nat)
    requires Flat(node)
    ensures Filtered(node, min) == node.(children := Retain(node.children, min))
  {
    var inner := seq(|node.children|, i requires 0 <= i < |node.children| => Filtered(node.children[i], min));
    forall i | 0 <= i < |node.children|
      ensures inner[i] == node.children[i]
    {
      assert node.children[i] in node.children;
      assert Retain(node.children[i].children, min) == [];
    }
    assert inner == node.children;
  }

  /** `Vec::retain(|child| child.size >= min_size)`: one pass over the children
      keeping, in order, those at or above `min`. */
  method RetainChildren(cs: seq<FileNode>, min: nat) returns (kept: seq<FileNode>)
    ensures kept == Retain(cs, min)
  {
    kept := [];
    var i := 0;
    while i < |cs|
      invariant 0 <= i <= |cs|
      invariant kept == Retain(cs[..i], min)
    {
      assert cs[..i + 1] == cs[..i] + [cs[i]];
      RetainAppend(cs[..i], [cs[i]], min);
      if cs[i].size >= min {
        kept := kept + [cs[i]];
      }
      i := i + 1;
    }
    assert cs[..i] == cs;
  }

  /** `filter_tree`: retain the children at or above `min`, then filter inside
      each survivor, in order. */
  method FilterTree(node: FileNode, min: nat) returns (r: FileNode)
    ensures r == Filtered(node, min)
    decreases node, 1
  {
    var kept := RetainChildren(node.children, min);
    var done := FilterEachChild(kept, min, node);
    FilteredChildren(node, min);
    r := node.(children := done);
  }

  /** `for child in &mut node.children { filter_tree(child, min_size) }`, over
      the children `cs` of `parent` that survived the retain. */
  method FilterEachChild(cs: seq<FileNode>, min: nat, ghost parent: FileNode) returns (done: seq<FileNode>)
    requires forall c :: c in cs ==> c in parent.children
    ensures done == MapNodes(c => Filtered(c, min), cs)
    decreases parent, 0
  {
    done := [];
    var j := 0;
    while j < |cs|
      invariant 0 <= j <= |cs|
      invariant done == MapNodes(c => Filtered(c, min), cs[..j])
    {
      assert cs[..j + 1] == cs[..j] + [cs[j]];
      MapNodesAppend(c => Filtered(c, min), cs[..j], [cs[j]]);
      assert cs[j] in cs;
      var child := FilterTree(cs[j], min);
      done := done + [child];
      j := j + 1;
    }
    assert cs[..j] == cs;
  }
}
