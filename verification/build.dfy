/** `build_tree`: one pass over the items of a directory walk, accumulating the
    root's size and appending every walked entry as a leaf child of the root.
    The walk itself (its order across siblings and its depth bound) is an
    input: the items it yields, in the order it yields them. */
module TreeBuilder {
  import opened FileTree

  /** One item of the walk: a walk error, or a visited entry with its base
      name, its path and the outcome of reading its metadata (the length in
      bytes, or `None` when the read fails). */
  datatype WalkItem =
    | WalkError
    | Visited(fileName: string, path: string, metadata: Option<nat>)

  /** Why a build stops: a visited entry whose metadata cannot be read makes
      the source's `metadata().unwrap()` abort the run. */
  datatype BuildError = MetadataUnreadable(path: string)

  predicate Unreadable(item: WalkItem)
  {
    item.Visited? && item.metadata.None?
  }

  /** Every visited entry's metadata can be read. */
  predicate AllReadable(walk: seq<WalkItem>)
  {
    forall i :: 0 <= i < |walk| ==> !Unreadable(walk[i])
  }

  /** The position of the first visited entry whose metadata cannot be read. */
  function FirstUnreadable(walk: seq<WalkItem>): (i: nat)
    requires !AllReadable(walk)
    ensures i < |walk| && Unreadable(walk[i])
    ensures AllReadable(walk[..i])
  {
    if Unreadable(walk[0]) then 0
    else
      assert !AllReadable(walk[1..]) by {
        var j :| 0 <= j < |walk| && Unreadable(walk[j]);
        assert walk[1..][j - 1] == walk[j];
      }
      var i := FirstUnreadable(walk[1..]);
      assert walk[..i + 1] == [walk[0]] + walk[1..][..i];
      ReadableSplit([walk[0]], walk[1..][..i]);
      i + 1
  }

  /** The leaf child the source pushes for a readable visited entry. */
  function Leaf(item: WalkItem): FileNode
    requires item.Visited? && item.metadata.Some?
  {
    FileNode(item.fileName, item.metadata.value, Some(item.path), [])
  }

  /** The children of the built root: one leaf per visited entry, in walk order. */
  function Leaves(walk: seq<WalkItem>): seq<FileNode>
    requires AllReadable(walk)
  {
    if walk == [] then []
    else
      assert AllReadable(walk[1..]) by {
        assert forall k :: 0 <= k < |walk| - 1 ==> walk[1..][k] == walk[k + 1];
      }
      (if walk[0].Visited? then [Leaf(walk[0])] else []) + Leaves(walk[1..])
  }

  /** The sum of the metadata lengths of the visited entries; walk errors add nothing. */
  function WalkedSize(walk: seq<WalkItem>): nat
    requires AllReadable(walk)
  {
    if walk == [] then 0
    else
      assert AllReadable(walk[1..]) by {
        assert forall k :: 0 <= k < |walk| - 1 ==> walk[1..][k] == walk[k + 1];
      }
      (if walk[0].Visited? then walk[0].metadata.value else 0) + WalkedSize(walk[1..])
  }

  /** The root `build_tree` returns for a walk whose metadata can all be read. */
  function BuiltRoot(path: string, walk: seq<WalkItem>): FileNode
    requires AllReadable(walk)
  {
    FileNode(path, WalkedSize(walk), None, Leaves(walk))
  }

  /** The positions of the visited entries, in increasing order. */
  function VisitedIndices(walk: seq<WalkItem>): (ix: seq<nat>)
    ensures forall k :: 0 <= k < |ix| ==> ix[k] < |walk|
    ensures forall k, l :: 0 <= k < l < |ix| ==> ix[k] < ix[l]
    ensures forall i :: 0 <= i < |walk| ==> (i in ix <==> walk[i].Visited?)
  {
    if walk == [] then []
    else
      var n := |walk| - 1;
      VisitedIndices(walk[..n]) + (if walk[n].Visited? then [n] else [])
  }

  lemma ReadableSplit(a: seq<WalkItem>, b: seq<WalkItem>)
    ensures AllReadable(a + b) <==> AllReadable(a) && AllReadable(b)
  {
    if AllReadable(a) && AllReadable(b) {
      forall i | 0 <= i < |a + b|
        ensures !Unreadable((a + b)[i])
      {
        if i >= |a| {
          assert (a + b)[i] == b[i - |a|];
        }
      }
    }
    if AllReadable(a + b) {
      forall i | 0 <= i < |a|
        ensures !Unreadable(a[i])
      {
        assert (a + b)[i] == a[i];
      }
      forall i | 0 <= i < |b|
        ensures !Unreadable(b[i])
      {
        assert (a + b)[|a| + i] == b[i];
      }
    }
  }

  lemma {:induction false} LeavesAppend(a: seq<WalkItem>, b: seq<WalkItem>)
    requires AllReadable(a) && AllReadable(b)
    ensures AllReadable(a + b)
    ensures Leaves(a + b) == Leaves(a) + Leaves(b)
    ensures WalkedSize(a + b) == WalkedSize(a) + WalkedSize(b)
  {
    ReadableSplit(a, b);
    if a == [] {
      assert a + b == b;
    } else {
      assert (a + b)[1..] == a[1..] + b;
      ReadableSplit([a[0]], a[1..]);
      assert a == [a[0]] + a[1..];
      LeavesAppend(a[1..], b);
    }
  }

  /** The root's size is the sum of its children's sizes at build time. */
  lemma {:induction false} WalkedSizeIsSumOfLeaves(walk: seq<WalkItem>)
    requires AllReadable(walk)
    ensures WalkedSize(walk) == SumSizes(Leaves(walk))
  {
    if walk != [] {
      assert walk == [walk[0]] + walk[1..];
      ReadableSplit([walk[0]], walk[1..]);
      WalkedSizeIsSumOfLeaves(walk[1..]);
      var head := if walk[0].Visited? then [Leaf(walk[0])] else [];
      SumSizesAppend(head, Leaves(walk[1..]));
    }
  }

  /** The children are exactly the visited entries, in walk order: the k-th
      child is the leaf of the k-th visited entry. */
  lemma {:induction false} LeavesInWalkOrder(walk: seq<WalkItem>)
    requires AllReadable(walk)
    ensures var ix := VisitedIndices(walk);
      |Leaves(walk)| == |ix| &&
      forall k :: 0 <= k < |ix| ==>
        walk[ix[k]].Visited? && walk[ix[k]].metadata.Some? && Leaves(walk)[k] == Leaf(walk[ix[k]])
  {
    if walk != [] {
      var n := |walk| - 1;
      assert walk == walk[..n] + [walk[n]];
      ReadableSplit(walk[..n], [walk[n]]);
      LeavesAppend(walk[..n], [walk[n]]);
      LeavesInWalkOrder(walk[..n]);
    }
  }

  /** Every child of the built root is a leaf with a location. */
  lemma {:induction false} LeavesAreLeaves(walk: seq<WalkItem>)
    requires AllReadable(walk)
    ensures forall c :: c in Leaves(walk) ==> IsLeaf(c) && c.location.Some?
  {
    if walk != [] {
      assert walk == [walk[0]] + walk[1..];
      ReadableSplit([walk[0]], walk[1..]);
      LeavesAreLeaves(walk[1..]);
    }
  }

  /** A walk error anywhere in the walk neither adds a child nor adds to the size. */
  lemma WalkErrorIgnored(a: seq<WalkItem>, b: seq<WalkItem>)
    requires AllReadable(a + b)
    ensures AllReadable(a + [WalkError] + b)
    ensures Leaves(a + [WalkError] + b) == Leaves(a + b)
    ensures WalkedSize(a + [WalkError] + b) == WalkedSize(a + b)
  {
    ReadableSplit(a, b);
    LeavesAppend(a, [WalkError]);
    LeavesAppend(a + [WalkError], b);
    LeavesAppend(a, b);
  }

  /** `build_tree`: start from a root named after the walked path, with no
      location, size 0 and no children; then for every walk item skip it if it
      is a walk error, otherwise read its length, add it to the root's size and
      push a leaf for it. The first unreadable metadata aborts the build. */
  method BuildTree(path: string, walk: seq<WalkItem>) returns (r: Result<FileNode, BuildError>)
    ensures r.Failure? <==> !AllReadable(walk)
    ensures r.Failure? ==> r.error == MetadataUnreadable(walk[FirstUnreadable(walk)].path)
    ensures r.Success? ==> r.value == BuiltRoot(path, walk)
  {
    var root := FileNode(path, 0, None, []);
    for i := 0 to |walk|
      invariant AllReadable(walk[..i])
      invariant root == BuiltRoot(path, walk[..i])
    {
      assert walk[..i + 1] == walk[..i] + [walk[i]];
      var item := walk[i];
      if item.Visited? {
        if item.metadata.None? {
          assert !AllReadable(walk);
          var j := FirstUnreadable(walk);
          assert j == i;
          return Failure(MetadataUnreadable(item.path));
        }
        var size := item.metadata.value;
        LeavesAppend(walk[..i], [item]);
        root := root.(size := root.size + size, children := root.children + [Leaf(item)]);
      } else {
        LeavesAppend(walk[..i], [item]);
      }
    }
    assert walk[..|walk|] == walk;
    r := Success(root);
  }
}
