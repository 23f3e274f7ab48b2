/**
  The tree builder: the pass over the walk that fills the depth-indexed
  table of directory nodes. The table is a map from depth to the list of
  nodes created at that depth, in walk order; the last node of each list
  stands for the directory currently open at that depth.
 */
module Tree {
  import opened Wrappers
  import opened Walk

  /** A directory node: its path, the bytes attributed to it and the number
      of subdirectories counted for it. */
  datatype Node = Node(path: string, size: nat, children: nat)

  /** The depth-indexed table of directory nodes. */
  type Tree = map<nat, seq<Node>>

  /** Why the build stops: a depth the source unwraps has no list, or its
      list has no last node. */
  datatype Error = MissingDepth(depth: nat) | EmptyLevel(depth: nat)

  /** The list at depth `d`, empty when the table has none. */
  function Level(t: Tree, d: nat): seq<Node>
  {
    if d in t then t[d] else []
  }

  /** Depth `d` has a last node, which stands for the open directory there. */
  predicate HasOpen(t: Tree, d: nat)
  {
    d in t && |t[d]| > 0
  }

  /** The failure raised when depth `d` has no last node. */
  function NoOpenError(t: Tree, d: nat): (err: Error)
    requires !HasOpen(t, d)
    ensures err.depth == d
    ensures err.MissingDepth? <==> d !in t
  {
    if d in t then EmptyLevel(d) else MissingDepth(d)
  }

  /** `after` is `before` with its last node grown by `size` bytes and
      `children` subdirectories, and every other node as it was. */
  predicate LastGrown(before: seq<Node>, after: seq<Node>, size: nat, children: nat)
  {
    && |before| == |after| > 0
    && after[..|after| - 1] == before[..|before| - 1]
    && var b, a := before[|before| - 1], after[|after| - 1];
       a == Node(b.path, b.size + size, b.children + children)
  }

  function BumpLast(level: seq<Node>, size: nat, children: nat): (r: seq<Node>)
    requires |level| > 0
    ensures LastGrown(level, r, size, children)
  {
    var b := level[|level| - 1];
    level[|level| - 1 := Node(b.path, b.size + size, b.children + children)]
  }

  /** The first depth below `d` without a last node, if any. */
  function FirstNoOpen(t: Tree, d: nat): (r: Option<nat>)
    ensures r.None? ==> forall i :: 0 <= i < d ==> HasOpen(t, i)
    ensures r.Some? ==> r.value < d && !HasOpen(t, r.value)
    ensures r.Some? ==> forall i :: 0 <= i < r.value ==> HasOpen(t, i)
  {
    if d == 0 then None
    else
      match FirstNoOpen(t, d - 1)
      case Some(i) => Some(i)
      case None => if HasOpen(t, d - 1) then None else Some(d - 1)
  }

  /** The first depth without a last node is the one the source's loop
      stops at. */
  lemma {:induction false} FirstNoOpenAt(t: Tree, d: nat, i: nat)
    requires i < d && !HasOpen(t, i)
    requires forall k :: 0 <= k < i ==> HasOpen(t, k)
    ensures FirstNoOpen(t, d) == Some(i)
  {
    var r := FirstNoOpen(t, d);
    assert r.Some? && r.value > i ==> HasOpen(t, i);
  }

  lemma {:induction false} FirstNoOpenNone(t: Tree, d: nat)
    requires forall k :: 0 <= k < d ==> HasOpen(t, k)
    ensures FirstNoOpen(t, d) == None
  {
  }

  /** A directory entry at depth `d`: a fresh node (size 0, no children) is
      appended to the list at `d`, creating it if needed; below the root
      the last node one level up gains one child. Nothing else changes. */
  function DirStep(t: Tree, path: string, d: nat): (r: Result<Tree, Error>)
    ensures r.Ok? <==> d == 0 || HasOpen(t, d - 1)
    ensures r.Err? ==> d >= 1 && r.error == NoOpenError(t, d - 1)
    ensures r.Ok? ==> r.value.Keys == t.Keys + {d}
    ensures r.Ok? ==> Level(r.value, d) == Level(t, d) + [Node(path, 0, 0)]
    ensures r.Ok? && d >= 1 ==> LastGrown(t[d - 1], r.value[d - 1], 0, 1)
    ensures r.Ok? ==> forall k :: k in t && k != d && k + 1 != d ==> r.value[k] == t[k]
  {
    var pushed := t[d := Level(t, d) + [Node(path, 0, 0)]];
    if d == 0 then Ok(pushed)
    else if !HasOpen(t, d - 1) then Err(NoOpenError(t, d - 1))
    else Ok(pushed[d - 1 := BumpLast(t[d - 1], 0, 1)])
  }

  /** A file entry at depth `d` of `len` bytes: the last node at every depth
      above it grows by `len`; no node is created, no child count changes
      and no other node changes. It fails at the first depth above it with
      no last node. */
  function FileStep(t: Tree, d: nat, len: nat): (r: Result<Tree, Error>)
    ensures r.Ok? <==> forall i :: 0 <= i < d ==> HasOpen(t, i)
    ensures r.Err? ==> r.error.depth < d && !HasOpen(t, r.error.depth)
    ensures r.Err? ==> r.error == NoOpenError(t, r.error.depth)
    ensures r.Err? ==> forall i :: 0 <= i < r.error.depth ==> HasOpen(t, i)
    ensures r.Ok? ==> r.value.Keys == t.Keys
    ensures r.Ok? ==> forall k :: k in t && k < d ==> LastGrown(t[k], r.value[k], len, 0)
    ensures r.Ok? ==> forall k :: k in t && k >= d ==> r.value[k] == t[k]
  {
    match FirstNoOpen(t, d)
    case Some(i) => Err(NoOpenError(t, i))
    case None => Ok(Attribute(t, d, len))
  }

  /** Every depth above `d` has its last node grown by `len`. */
  function Attribute(t: Tree, d: nat, len: nat): Tree
    requires forall i :: 0 <= i < d ==> HasOpen(t, i)
  {
    map k | k in t :: if k < d then assert HasOpen(t, k); BumpLast(t[k], len, 0) else t[k]
  }

  /** The table the source's loop has made after the depths below `i`
      is `Attribute(t, i, len)`. */
  lemma {:induction false} AttributeMatches(t: Tree, i: nat, len: nat, tree: Tree)
    requires tree.Keys == t.Keys
    requires forall k: nat :: k < i ==> HasOpen(t, k) && tree[k] == BumpLast(t[k], len, 0)
    requires forall k :: k in t && k >= i ==> tree[k] == t[k]
    ensures tree == Attribute(t, i, len)
  {
  }

  /** The loop stops at the first depth `i` without a last node. */
  lemma {:induction false} FileStepFails(t: Tree, d: nat, len: nat, i: nat)
    requires i < d && !HasOpen(t, i)
    requires forall k :: 0 <= k < i ==> HasOpen(t, k)
    ensures FileStep(t, d, len) == Err(if i in t then EmptyLevel(i) else MissingDepth(i))
  {
    FirstNoOpenAt(t, d, i);
  }

  /** With a last node at every depth above the file, the loop succeeds. */
  lemma {:induction false} FileStepSucceeds(t: Tree, d: nat, len: nat)
    requires forall k :: 0 <= k < d ==> HasOpen(t, k)
    ensures FileStep(t, d, len) == Ok(Attribute(t, d, len))
  {
    FirstNoOpenNone(t, d);
  }

  /** A file at the root's own level lies below no directory: the loop over
      the depths above it is empty and the table stays as it was. */
  lemma {:induction false} FileAtTopChangesNothing(t: Tree, len: nat)
    ensures FileStep(t, 0, len) == Ok(t)
  {
    assert Attribute(t, 0, len) == t;
  }

  /** One entry of the walk. */
  function Step(t: Tree, e: Entry): Result<Tree, Error>
  {
    if e.isDir then DirStep(t, e.path, e.depth) else FileStep(t, e.depth, e.len)
  }

  /** The whole walk, from an empty table; the first failure ends it. */
  function Run(es: seq<Entry>): Result<Tree, Error>
    decreases |es|
  {
    if es == [] then Ok(map[])
    else
      match Run(es[..|es| - 1])
      case Err(x) => Err(x)
      case Ok(t) => Step(t, es[|es| - 1])
  }

  /** The directory branch of the entry loop. */
  method AddDirectory(t: Tree, path: string, depth: nat) returns (r: Result<Tree, Error>)
    ensures r == DirStep(t, path, depth)
  {
    var node := Node(path, 0, 0);
    var tree: Tree := t;
    if depth in tree {
      tree := tree[depth := tree[depth] + [node]];
    } else {
      tree := tree[depth := [node]];
      assert [node] == Level(t, depth) + [node];
    }
    assert tree == t[depth := Level(t, depth) + [node]];
    if depth >= 1 {
      if depth - 1 !in tree {
        return Err(MissingDepth(depth - 1));
      }
      var parents := tree[depth - 1];
      if |parents| == 0 {
        return Err(EmptyLevel(depth - 1));
      }
      var last := parents[|parents| - 1];
      tree := tree[depth - 1 := parents[|parents| - 1 := last.(children := last.children + 1)]];
      assert parents == t[depth - 1];
      assert tree[depth - 1] == BumpLast(t[depth - 1], 0, 1);
      assert tree == t[depth := Level(t, depth) + [node]][depth - 1 := BumpLast(t[depth - 1], 0, 1)];
    }
    assert depth == 0 || HasOpen(t, depth - 1);
    return Ok(tree);
  }

  /** The file branch of the entry loop: the loop over the depths above
      the file. */
  method AddFile(t: Tree, depth: nat, len: nat) returns (r: Result<Tree, Error>)
    ensures r == FileStep(t, depth, len)
  {
    var tree: Tree := t;
    var i: nat := 0;
    while i < depth
      invariant i <= depth
      invariant tree.Keys == t.Keys
      invariant forall k: nat :: k < i ==> HasOpen(t, k) && tree[k] == BumpLast(t[k], len, 0)
      invariant forall k :: k in t && k >= i ==> tree[k] == t[k]
    {
      if i !in tree {
        FileStepFails(t, depth, len, i);
        return Err(MissingDepth(i));
      }
      var level := tree[i];
      if |level| == 0 {
        FileStepFails(t, depth, len, i);
        return Err(EmptyLevel(i));
      }
      var last := level[|level| - 1];
      assert level[|level| - 1 := last.(size := last.size + len)] == BumpLast(t[i], len, 0);
      tree := tree[i := level[|level| - 1 := last.(size := last.size + len)]];
      i := i + 1;
    }
    AttributeMatches(t, depth, len, tree);
    FileStepSucceeds(t, depth, len);
    return Ok(tree);
  }

  /** The body of the entry loop. */
  method ProcessEntry(t: Tree, e: Entry) returns (r: Result<Tree, Error>)
    ensures r == Step(t, e)
  {
    if e.isDir {
      r := AddDirectory(t, e.path, e.depth);
    } else {
      r := AddFile(t, e.depth, e.len);
    }
  }

  /** Once a prefix of the walk fails, the whole walk fails the same way. */
  lemma {:induction false} RunFailureSticks(es: seq<Entry>, n: nat)
    requires n <= |es| && Run(es[..n]).Err?
    ensures Run(es) == Run(es[..n])
    decreases |es| - n
  {
    if n < |es| {
      assert es[..n + 1][..n] == es[..n];
      RunFailureSticks(es, n + 1);
    } else {
      assert es[..n] == es;
    }
  }

  /** The entry loop over the whole walk. */
  method Build(es: seq<Entry>) returns (r: Result<Tree, Error>)
    ensures r == Run(es)
  {
    var tree: Tree := map[];
    var i: nat := 0;
    while i < |es|
      invariant i <= |es|
      invariant Run(es[..i]) == Ok(tree)
    {
      assert es[..i + 1][..i] == es[..i];
      r := ProcessEntry(tree, es[i]);
      if r.Err? {
        RunFailureSticks(es, i + 1);
        return;
      }
      tree := r.value;
      i := i + 1;
    }
    assert es[..i] == es;
    r := Ok(tree);
  }
}
