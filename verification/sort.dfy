/** `sort_tree_by_size`: order every node's children by size, largest first,
    with a stable sort, then do the same inside each child. */
module TreeSorter {
  import opened FileTree

  /** Sizes never increase from one child to the next. */
  predicate SortedDesc(cs: seq<FileNode>)
  {
    forall i, j :: 0 <= i < j < |cs| ==> cs[i].size >= cs[j].size
  }

  /** The children of size exactly `k`, in their order in `cs`. A sort is stable
      when it leaves every one of these subsequences as it was. */
  function OfSize(cs: seq<FileNode>, k: nat): seq<FileNode>
  {
    if cs == [] then []
    else (if cs[0].size == k then [cs[0]] else []) + OfSize(cs[1..], k)
  }

  /** Insert `x` just before the first node strictly smaller than it, that is,
      after every node at least as large: the step of a stable descending
      insertion sort. */
  function InsertBySize(x: FileNode, cs: seq<FileNode>): seq<FileNode>
  {
    if cs == [] then [x]
    else if cs[0].size >= x.size then [cs[0]] + InsertBySize(x, cs[1..])
    else [x] + cs
  }

  /** Inserting adds `x` and nothing else. */
  lemma {:induction false} InsertPermutes(x: FileNode, cs: seq<FileNode>)
    ensures multiset(InsertBySize(x, cs)) == multiset(cs) + multiset{x}
  {
    if cs != [] {
      assert cs == [cs[0]] + cs[1..];
      if cs[0].size >= x.size {
        InsertPermutes(x, cs[1..]);
      }
    }
  }

  /** Inserting brings in `x` and nodes of `cs` only. */
  lemma {:induction false} InsertMember(x: FileNode, cs: seq<FileNode>, e: FileNode)
    requires e in InsertBySize(x, cs)
    ensures e == x || e in cs
  {
    if cs != [] && cs[0].size >= x.size && e != cs[0] {
      InsertMember(x, cs[1..], e);
    }
  }

  /** Inserting into a descending sequence leaves it descending. */
  lemma {:induction false} InsertSorted(x: FileNode, cs: seq<FileNode>)
    requires SortedDesc(cs)
    ensures SortedDesc(InsertBySize(x, cs))
  {
    if cs != [] {
      var r := InsertBySize(x, cs);
      if cs[0].size >= x.size {
        var rest := InsertBySize(x, cs[1..]);
        InsertSorted(x, cs[1..]);
        assert r == [cs[0]] + rest;
        forall i, j | 0 <= i < j < |r|
          ensures r[i].size >= r[j].size
        {
          assert r[j] == rest[j - 1];
          if i == 0 {
            InsertMember(x, cs[1..], rest[j - 1]);
          } else {
            assert r[i] == rest[i - 1];
          }
        }
      } else {
        assert r == [x] + cs;
        forall i, j | 0 <= i < j < |r|
          ensures r[i].size >= r[j].size
        {
          assert r[j] == cs[j - 1];
          if i > 0 {
            assert r[i] == cs[i - 1];
          }
        }
      }
    }
  }

  /** The children after `children.sort_by(|a, b| b.size.cmp(&a.size))`,
      described as a stable insertion sort (see `StableSortUnique` for why any
      stable sort gives this same order). */
  function SortBySize(cs: seq<FileNode>): seq<FileNode>
  {
    if cs == [] then []
    else
      var n := |cs| - 1;
      InsertBySize(cs[n], SortBySize(cs[..n]))
  }

  /** The sorted children are in descending size order and are a permutation
      of the input children. */
  lemma {:induction false} SortBySizeSortedPermutation(cs: seq<FileNode>)
    ensures SortedDesc(SortBySize(cs))
    ensures multiset(SortBySize(cs)) == multiset(cs)
  {
    if cs != [] {
      var n := |cs| - 1;
      SortBySizeSortedPermutation(cs[..n]);
      assert cs == cs[..n] + [cs[n]];
      InsertPermutes(cs[n], SortBySize(cs[..n]));
      InsertSorted(cs[n], SortBySize(cs[..n]));
    }
  }

  lemma {:induction false} OfSizeAppend(a: seq<FileNode>, b: seq<FileNode>, k: nat)
    ensures OfSize(a + b, k) == OfSize(a, k) + OfSize(b, k)
  {
    if a == [] {
      assert a + b == b;
    } else {
      assert (a + b)[1..] == a[1..] + b;
      OfSizeAppend(a[1..], b, k);
    }
  }

  /** No node of size `k`, no subsequence of size `k`. */
  lemma {:induction false} OfSizeNone(cs: seq<FileNode>, k: nat)
    requires forall c :: c in cs ==> c.size != k
    ensures OfSize(cs, k) == []
  {
    if cs != [] {
      assert cs[0] in cs;
      OfSizeNone(cs[1..], k);
    }
  }

  /** A node's own size always selects at least that node. */
  lemma OfSizeHead(cs: seq<FileNode>)
    requires cs != []
    ensures OfSize(cs, cs[0].size) != []
  {
  }

  /** Inserting into a sorted sequence puts `x` last among the nodes of its size. */
  lemma {:induction false} InsertOfSize(x: FileNode, cs: seq<FileNode>, k: nat)
    requires SortedDesc(cs)
    ensures OfSize(InsertBySize(x, cs), k) == OfSize(cs, k) + (if x.size == k then [x] else [])
  {
    if cs == [] {
    } else if cs[0].size >= x.size {
      assert InsertBySize(x, cs)[1..] == InsertBySize(x, cs[1..]);
      InsertOfSize(x, cs[1..], k);
    } else {
      assert InsertBySize(x, cs)[1..] == cs;
      if x.size == k {
        OfSizeNone(cs, k);
      }
    }
  }

  /** The sort is stable: for every size, the nodes of that size keep their
      relative order. */
  lemma {:induction false} SortStable(cs: seq<FileNode>, k: nat)
    ensures OfSize(SortBySize(cs), k) == OfSize(cs, k)
  {
    if cs != [] {
      var n := |cs| - 1;
      assert cs == cs[..n] + [cs[n]];
      SortStable(cs[..n], k);
      SortBySizeSortedPermutation(cs[..n]);
      InsertOfSize(cs[n], SortBySize(cs[..n]), k);
      OfSizeAppend(cs[..n], [cs[n]], k);
    }
  }

  /** Two descending sequences with the same subsequence for every size are
      equal: a stable descending order is unique. */
  lemma {:induction false} SortedBySubsequencesEqual(a: seq<FileNode>, b: seq<FileNode>)
    requires SortedDesc(a) && SortedDesc(b)
    requires forall k: nat :: OfSize(a, k) == OfSize(b, k)
    ensures a == b
    decreases |a| + |b|
  {
    if a == [] || b == [] {
      if a != [] {
        OfSizeHead(a);
        assert false;
      } else if b != [] {
        OfSizeHead(b);
        assert false;
      }
    } else {
      var ka, kb := a[0].size, b[0].size;
      if ka > kb {
        OfSizeNone(b, ka);
        assert false;
      } else if kb > ka {
        OfSizeNone(a, kb);
        assert false;
      } else {
        assert OfSize(a, ka) == [a[0]] + OfSize(a[1..], ka);
        assert OfSize(b, ka) == [b[0]] + OfSize(b[1..], ka);
        assert a[0] == OfSize(a, ka)[0] == OfSize(b, ka)[0] == b[0];
        forall k: nat
          ensures OfSize(a[1..], k) == OfSize(b[1..], k)
        {
          var head := if a[0].size == k then [a[0]] else [];
          assert OfSize(a, k) == head + OfSize(a[1..], k);
          assert OfSize(b, k) == head + OfSize(b[1..], k);
          assert OfSize(a[1..], k) == OfSize(a, k)[|head|..];
          assert OfSize(b[1..], k) == OfSize(b, k)[|head|..];
        }
        SortedBySubsequencesEqual(a[1..], b[1..]);
        assert a == [a[0]] + a[1..] && b == [b[0]] + b[1..];
      }
    }
  }

  /** Any descending order of `cs` that is stable is exactly `SortBySize(cs)`,
      whatever stable algorithm produced it. */
  lemma StableSortUnique(cs: seq<FileNode>, t: seq<FileNode>)
    requires SortedDesc(t)
    requires forall k: nat :: OfSize(t, k) == OfSize(cs, k)
    ensures t == SortBySize(cs)
  {
    forall k: nat
      ensures OfSize(t, k) == OfSize(SortBySize(cs), k)
    {
      SortStable(cs, k);
    }
    SortBySizeSortedPermutation(cs);
    SortedBySubsequencesEqual(t, SortBySize(cs));
  }

  /** Where the insertion step puts `x`: after the first `j` nodes, all at least
      as large, and before a strictly smaller one. */
  lemma {:induction false} InsertAt(x: FileNode, cs: seq<FileNode>, j: nat)
    requires j <= |cs|
    requires forall k :: 0 <= k < j ==> cs[k].size >= x.size
    requires j == |cs| || cs[j].size < x.size
    ensures InsertBySize(x, cs) == cs[..j] + [x] + cs[j..]
  {
    if j > 0 {
      assert cs[0].size >= x.size;
      InsertAt(x, cs[1..], j - 1);
      assert cs[..j] == [cs[0]] + cs[1..][..j - 1];
      assert cs[j..] == cs[1..][j - 1..];
    } else if cs != [] {
      assert cs[..0] + [x] + cs[0..] == [x] + cs;
    }
  }

  /** Size-based insertion commutes with any size-preserving rewrite of the nodes. */
  lemma {:induction false} InsertMapCommute(f: FileNode -> FileNode, x: FileNode, cs: seq<FileNode>)
    requires forall c :: f(c).size == c.size
    ensures InsertBySize(f(x), MapNodes(f, cs)) == MapNodes(f, InsertBySize(x, cs))
  {
    if cs != [] {
      assert MapNodes(f, cs)[1..] == MapNodes(f, cs[1..]);
      assert MapNodes(f, cs)[0] == f(cs[0]);
      if cs[0].size >= x.size {
        InsertMapCommute(f, x, cs[1..]);
        MapNodesAppend(f, [cs[0]], InsertBySize(x, cs[1..]));
      } else {
        MapNodesAppend(f, [x], cs);
      }
    }
  }

  /** Sorting by size commutes with any size-preserving rewrite of the nodes. */
  lemma {:induction false} SortMapCommute(f: FileNode -> FileNode, cs: seq<FileNode>)
    requires forall c :: f(c).size == c.size
    ensures SortBySize(MapNodes(f, cs)) == MapNodes(f, SortBySize(cs))
  {
    if cs != [] {
      var n := |cs| - 1;
      assert MapNodes(f, cs)[..n] == MapNodes(f, cs[..n]);
      assert MapNodes(f, cs)[n] == f(cs[n]);
      SortMapCommute(f, cs[..n]);
      InsertMapCommute(f, cs[n], SortBySize(cs[..n]));
    }
  }

  /** The tree after `sort_tree_by_size(node)`, stated bottom-up: sort inside
      every child, then sort the children. The source sorts the children
      first; `SortedTreeChildren` shows both orders agree. */
  function SortedTree(node: FileNode): (r: FileNode)
    ensures r.name == node.name && r.size == node.size && r.location == node.location
    decreases node
  {
    var inner := seq(|node.children|, i requires 0 <= i < |node.children| => SortedTree(node.children[i]));
    node.(children := SortBySize(inner))
  }

  /** Every node's children, at every depth, are in descending size order. */
  predicate AllSorted(node: FileNode)
    decreases node
  {
    SortedDesc(node.children) && forall c :: c in node.children ==> AllSorted(c)
  }

  /** In the source's order: the children are sorted, then each is sorted in
      turn; the node keeps its name, size and location. */
  lemma SortedTreeChildren(node: FileNode)
    ensures SortedTree(node).children == MapNodes(SortedTree, SortBySize(node.children))
    ensures SortedTree(node).name == node.name
    ensures SortedTree(node).size == node.size
    ensures SortedTree(node).location == node.location
  {
    assert MapNodes(SortedTree, node.children) ==
      seq(|node.children|, i requires 0 <= i < |node.children| => SortedTree(node.children[i]));
    SortMapCommute(SortedTree, node.children);
  }

  /** After sorting, every node's children are in descending size order. */
  lemma {:induction false} SortedTreeAllSorted(node: FileNode)
    ensures AllSorted(SortedTree(node))
    decreases node
  {
    var inner := seq(|node.children|, i requires 0 <= i < |node.children| => SortedTree(node.children[i]));
    SortBySizeSortedPermutation(inner);
    forall c | c in SortedTree(node).children
      ensures AllSorted(c)
    {
      SortedMember(inner, c);
      var i :| 0 <= i < |inner| && inner[i] == c;
      SortedTreeAllSorted(node.children[i]);
    }
  }

  /** The children after sorting are a permutation of the input children,
      each sorted inside, and equal sizes keep their input order. */
  lemma SortedTreePermutes(node: FileNode, k: nat)
    ensures multiset(SortedTree(node).children) == multiset(MapNodes(SortedTree, node.children))
    ensures OfSize(SortedTree(node).children, k) == OfSize(MapNodes(SortedTree, node.children), k)
  {
    assert MapNodes(SortedTree, node.children) ==
      seq(|node.children|, i requires 0 <= i < |node.children| => SortedTree(node.children[i]));
    SortStable(MapNodes(SortedTree, node.children), k);
    SortBySizeSortedPermutation(MapNodes(SortedTree, node.children));
  }

  /** On a flat tree, sorting only reorders the children of the root, and the
      tree stays flat. */
  lemma {:induction false} SortedFlat(node: FileNode)
    requires Flat(node)
    ensures SortedTree(node) == node.(children := SortBySize(node.children))
    ensures Flat(SortedTree(node))
  {
    var inner := seq(|node.children|, i requires 0 <= i < |node.children| => SortedTree(node.children[i]));
    forall i | 0 <= i < |node.children|
      ensures inner[i] == node.children[i]
    {
      assert node.children[i] in node.children;
      assert SortBySize(node.children[i].children) == [];
    }
    assert inner == node.children;
    forall c | c in SortBySize(node.children)
      ensures IsLeaf(c)
    {
      SortedMember(node.children, c);
    }
  }

  /** Sorting brings in no node that was not there. */
  lemma SortedMember(cs: seq<FileNode>, c: FileNode)
    requires c in SortBySize(cs)
    ensures c in cs
  {
    SortBySizeSortedPermutation(cs);
    assert c in multiset(SortBySize(cs));
  }

  /** The stable sort of one node's children, as an insertion sort: each child
      in turn is placed after every child already placed that is at least as
      large. */
  method SortChildren(cs: seq<FileNode>) returns (sorted: seq<FileNode>)
    ensures sorted == SortBySize(cs)
  {
    sorted := [];
    for i := 0 to |cs|
      invariant sorted == SortBySize(cs[..i])
    {
      var x := cs[i];
      var j := 0;
      while j < |sorted| && sorted[j].size >= x.size
        invariant 0 <= j <= |sorted|
        invariant forall k :: 0 <= k < j ==> sorted[k].size >= x.size
      {
        j := j + 1;
      }
      InsertAt(x, sorted, j);
      assert cs[..i + 1][..i] == cs[..i];
      sorted := sorted[..j] + [x] + sorted[j..];
    }
    assert cs[..|cs|] == cs;
  }

  /** `sort_tree_by_size`: sort the children, then sort inside each child, in order. */
  method SortTreeBySize(node: FileNode) returns (r: FileNode)
    ensures r == SortedTree(node)
    decreases node, 1
  {
    var sorted := SortChildren(node.children);
    forall c | c in sorted
      ensures c in node.children
    {
      SortedMember(node.children, c);
    }
    var done := SortEachChild(sorted, node);
    SortedTreeChildren(node);
    r := node.(children := done);
  }

  /** `for child in &mut node.children { sort_tree_by_size(child) }`, over the
      children `cs` of `parent` in their current order. */
  method SortEachChild(cs: seq<FileNode>, ghost parent: FileNode) returns (done: seq<FileNode>)
    requires forall c :: c in cs ==> c in parent.children
    ensures done == MapNodes(SortedTree, cs)
    decreases parent, 0
  {
    done := [];
    var j := 0;
    while j < |cs|
      invariant 0 <= j <= |cs|
      invariant done == MapNodes(SortedTree, cs[..j])
    {
      assert cs[..j + 1] == cs[..j] + [cs[j]];
      MapNodesAppend(SortedTree, cs[..j], [cs[j]]);
      assert cs[j] in cs;
      var child := SortTreeBySize(cs[j]);
      done := done + [child];
      j := j + 1;
    }
    assert cs[..j] == cs;
  }
}
