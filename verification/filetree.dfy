/** The report tree of the disk inventory tool and the small vocabulary shared
    by the builder, the filter, the sorter and the pipeline. */
module FileTree {

  datatype Option<+T> = None | Some(value: T)

  datatype Result<+T, +E> = Success(value: T) | Failure(error: E)

  /** One entry of the report: a display name, a size in bytes, the entry's
      path (absent only for the root) and the ordered children.
      Sizes are unbounded naturals; the source's u64 is not modelled. */
  datatype FileNode = FileNode(
    name: string,
    size: nat,
    location: Option<string>,
    children: seq<FileNode>)

  /** The node with its children replaced by `f` applied to each child, in order. */
  function MapNodes(f: FileNode -> FileNode, cs: seq<FileNode>): (r: seq<FileNode>)
    ensures |r| == |cs|
    ensures forall i :: 0 <= i < |cs| ==> r[i] == f(cs[i])
  {
    seq(|cs|, i requires 0 <= i < |cs| => f(cs[i]))
  }

  /** Sum of the sizes of a sequence of nodes. */
  function SumSizes(cs: seq<FileNode>): nat
  {
    if cs == [] then 0 else cs[0].size + SumSizes(cs[1..])
  }

  /** A node with no children. */
  predicate IsLeaf(n: FileNode)
  {
    n.children == []
  }

  /** The shape every tree built by the builder has: every child of the root is a leaf. */
  predicate Flat(n: FileNode)
  {
    forall c :: c in n.children ==> IsLeaf(c)
  }

  lemma MapNodesAppend(f: FileNode -> FileNode, a: seq<FileNode>, b: seq<FileNode>)
    ensures MapNodes(f, a + b) == MapNodes(f, a) + MapNodes(f, b)
  {
  }

  lemma {:induction false} SumSizesAppend(a: seq<FileNode>, b: seq<FileNode>)
    ensures SumSizes(a + b) == SumSizes(a) + SumSizes(b)
  {
    if a == [] {
      assert a + b == b;
    } else {
      assert (a + b)[1..] == a[1..] + b;
      SumSizesAppend(a[1..], b);
    }
  }
}
