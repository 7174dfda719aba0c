/** The report pipeline of `main`: build the tree from the walk, sort it, then
    filter it with the requested threshold (1024 bytes when none is given). */
module Inventory {
  import opened FileTree
  import opened TreeBuilder
  import opened TreeFilter
  import opened TreeSorter

  /** The threshold used when the caller gives none. */
  const DefaultMinSize: nat := 1024

  function Threshold(minSize: Option<nat>): nat
  {
    if minSize.Some? then minSize.value else DefaultMinSize
  }

  /** Retaining a descending sequence leaves it descending. */
  lemma {:induction false} RetainSorted(cs: seq<FileNode>, min: nat)
    requires SortedDesc(cs)
    ensures SortedDesc(Retain(cs, min))
  {
    if cs != [] {
      RetainSorted(cs[1..], min);
      var rest := Retain(cs[1..], min);
      if cs[0].size >= min {
        forall j | 0 < j < |[cs[0]] + rest|
          ensures cs[0].size >= ([cs[0]] + rest)[j].size
        {
          assert ([cs[0]] + rest)[j] == rest[j - 1];
          assert rest[j - 1] in rest;
          RetainMembers(cs[1..], min, rest[j - 1]);
          var m :| 0 <= m < |cs[1..]| && cs[1..][m] == rest[j - 1];
          assert cs[m + 1] == cs[1..][m];
        }
      }
    }
  }

  /** Filtering never breaks the descending order of any node's children. */
  lemma {:induction false} FilterKeepsSorted(node: FileNode, min: nat)
    requires AllSorted(node)
    ensures AllSorted(Filtered(node, min))
    decreases node
  {
    var f := c => Filtered(c, min);
    FilteredChildren(node, min);
    var kept := Retain(node.children, min);
    RetainSorted(node.children, min);
    var out := MapNodes(f, kept);
    forall i, j | 0 <= i < j < |out|
      ensures out[i].size >= out[j].size
    {
      assert out[i].size == kept[i].size && out[j].size == kept[j].size;
    }
    forall c | c in out
      ensures AllSorted(c)
    {
      var i :| 0 <= i < |out| && out[i] == c;
      assert kept[i] in kept;
      RetainMembers(node.children, min, kept[i]);
      FilterKeepsSorted(kept[i], min);
    }
  }

  /** The nodes of size `k` that survive the threshold: all of them or none. */
  lemma {:induction false} RetainOfSize(cs: seq<FileNode>, min: nat, k: nat)
    ensures OfSize(Retain(cs, min), k) == if k >= min then OfSize(cs, k) else []
  {
    if cs != [] {
      RetainOfSize(cs[1..], min, k);
      var head := if cs[0].size >= min then [cs[0]] else [];
      OfSizeAppend(head, Retain(cs[1..], min), k);
    }
  }

  /** Sorting then retaining gives the same children as retaining then sorting. */
  lemma RetainSortCommute(cs: seq<FileNode>, min: nat)
    ensures Retain(SortBySize(cs), min) == SortBySize(Retain(cs, min))
  {
    SortBySizeSortedPermutation(cs);
    RetainSorted(SortBySize(cs), min);
    forall k: nat
      ensures OfSize(Retain(SortBySize(cs), min), k) == OfSize(Retain(cs, min), k)
    {
      RetainOfSize(SortBySize(cs), min, k);
      RetainOfSize(cs, min, k);
      SortStable(cs, k);
    }
    StableSortUnique(Retain(cs, min), Retain(SortBySize(cs), min));
  }

  /** The children of `Filtered` and `SortedTree` in terms of `MapNodes`. */
  lemma ChildrenAsMaps(node: FileNode, min: nat)
    ensures Filtered(node, min).children == Retain(MapNodes(c => Filtered(c, min), node.children), min)
    ensures SortedTree(node).children == SortBySize(MapNodes(SortedTree, node.children))
  {
    assert MapNodes(c => Filtered(c, min), node.children) ==
      seq(|node.children|, i requires 0 <= i < |node.children| => Filtered(node.children[i], min));
    assert MapNodes(SortedTree, node.children) ==
      seq(|node.children|, i requires 0 <= i < |node.children| => SortedTree(node.children[i]));
  }

  /** The order of `main`: sort the tree, then filter it. */
  function Report(node: FileNode, min: nat): FileNode
  {
    Filtered(SortedTree(node), min)
  }

  /** The other order: filter the tree, then sort it. */
  function FilterThenSort(node: FileNode, min: nat): FileNode
  {
    SortedTree(Filtered(node, min))
  }

  /** Sort then filter, one level: the children are the retained stable sort
      of the children each sorted then filtered. */
  lemma ReportLevel(node: FileNode, min: nat)
    ensures Report(node, min).children ==
      Retain(SortBySize(MapNodes(c => Report(c, min), node.children)), min)
  {
    var F := c => Filtered(c, min);
    var ss := MapNodes(SortedTree, node.children);
    calc {
      Report(node, min).children;
    == { ChildrenAsMaps(SortedTree(node), min); }
      Retain(MapNodes(F, SortedTree(node).children), min);
    == { ChildrenAsMaps(node, min); }
      Retain(MapNodes(F, SortBySize(ss)), min);
    == { SortMapCommute(F, ss); }
      Retain(SortBySize(MapNodes(F, ss)), min);
    == { assert MapNodes(F, ss) == MapNodes(c => Report(c, min), node.children); }
      Retain(SortBySize(MapNodes(c => Report(c, min), node.children)), min);
    }
  }

  /** Filter then sort, one level: the children are the stable sort of the
      retained children each filtered then sorted. */
  lemma FilterThenSortLevel(node: FileNode, min: nat)
    ensures FilterThenSort(node, min).children ==
      SortBySize(Retain(MapNodes(c => FilterThenSort(c, min), node.children), min))
  {
    var fs := MapNodes(c => Filtered(c, min), node.children);
    calc {
      FilterThenSort(node, min).children;
    == { ChildrenAsMaps(Filtered(node, min), min); }
      SortBySize(MapNodes(SortedTree, Filtered(node, min).children));
    == { ChildrenAsMaps(node, min); }
      SortBySize(MapNodes(SortedTree, Retain(fs, min)));
    == { RetainMapCommute(SortedTree, fs, min); }
      SortBySize(Retain(MapNodes(SortedTree, fs), min));
    == { assert MapNodes(SortedTree, fs) == MapNodes(c => FilterThenSort(c, min), node.children); }
      SortBySize(Retain(MapNodes(c => FilterThenSort(c, min), node.children), min));
    }
  }

  /** On any tree, sorting then filtering (the order of `main`) gives the same
      tree as filtering then sorting. */
  lemma {:induction false} SortFilterCommute(node: FileNode, min: nat)
    ensures Report(node, min) == FilterThenSort(node, min)
    decreases node, 1
  {
    var x := MapNodes(c => Report(c, min), node.children);
    SortFilterCommuteChildren(node, min);
    calc {
      Report(node, min).children;
    == { ReportLevel(node, min); }
      Retain(SortBySize(x), min);
    == { RetainSortCommute(x, min); }
      SortBySize(Retain(x, min));
    == { FilterThenSortLevel(node, min); }
      FilterThenSort(node, min).children;
    }
  }

  /** The induction step of `SortFilterCommute`: every child commutes. */
  lemma {:induction false} SortFilterCommuteChildren(node: FileNode, min: nat)
    ensures MapNodes(c => Report(c, min), node.children)
         == MapNodes(c => FilterThenSort(c, min), node.children)
    decreases node, 0
  {
    var cs := node.children;
    forall i | 0 <= i < |cs|
      ensures Report(cs[i], min) == FilterThenSort(cs[i], min)
    {
      assert cs[i] in cs;
      SortFilterCommute(cs[i], min);
    }
  }

  /** The tree `main` reports, for a walk whose metadata can all be read: the
      root named after the path, with no location and the total walked size;
      its children are the walked leaves in stable descending size order,
      restricted to those at or above the threshold; the tree is flat, sorted
      at every node and above the threshold at every node. */
  lemma ReportOfWalk(path: string, walk: seq<WalkItem>, min: nat)
    requires AllReadable(walk)
    ensures var t := Report(BuiltRoot(path, walk), min);
      && t.name == path
      && t.location == None
      && t.size == WalkedSize(walk) == SumSizes(Leaves(walk))
      && t.children == Retain(SortBySize(Leaves(walk)), min)
      && t.children == SortBySize(Retain(Leaves(walk), min))
      && Flat(t)
      && AllSorted(t)
      && AllAtLeast(t, min)
  {
    var root := BuiltRoot(path, walk);
    LeavesAreLeaves(walk);
    WalkedSizeIsSumOfLeaves(walk);
    SortedFlat(root);
    var sorted := SortedTree(root);
    FilteredFlat(sorted, min);
    var t := Filtered(sorted, min);
    SortedTreeAllSorted(root);
    FilterKeepsSorted(sorted, min);
    FilteredAtLeast(sorted, min);
    RetainSortCommute(Leaves(walk), min);
    forall c | c in t.children
      ensures IsLeaf(c)
    {
      RetainMembers(sorted.children, min, c);
    }
  }

  /** The pipeline of `main`: build, sort, then filter with the given threshold
      or 1024. An unreadable entry aborts the whole run. */
  method Analyze(path: string, walk: seq<WalkItem>, minSize: Option<nat>) returns (r: Result<FileNode, BuildError>)
    ensures r.Failure? <==> !AllReadable(walk)
    ensures r.Failure? ==> r.error == MetadataUnreadable(walk[FirstUnreadable(walk)].path)
    ensures r.Success? ==> r.value == Report(BuiltRoot(path, walk), Threshold(minSize))
    ensures r.Success? ==>
      && r.value.size == WalkedSize(walk)
      && AllSorted(r.value)
      && AllAtLeast(r.value, Threshold(minSize))
  {
    var built := BuildTree(path, walk);
    if built.Failure? {
      return Failure(built.error);
    }
    var root := SortTreeBySize(built.value);
    root := FilterTree(root, Threshold(minSize));
    ReportOfWalk(path, walk, Threshold(minSize));
    r := Success(root);
  }
}
