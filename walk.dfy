/**
  The directory walk the tree builder consumes: a depth-first pre-order
  sequence of entries, and what "the subtree of a directory" means in it.
  Positions in the walk identify entries; a directory is named by the
  position of its entry.
 */
module Walk {

  /** One entry of the walk: its path, its depth below the root (the root is
      at depth 0), whether it is a directory and, for a file, its length in
      bytes. */
  datatype Entry = Entry(path: string, depth: nat, isDir: bool, len: nat)

  /** The deepest level the entry after `e` may be at in a pre-order walk:
      one below a directory just entered, or no deeper than a file. */
  function Reach(e: Entry): nat
  {
    if e.isDir then e.depth + 1 else e.depth
  }

  /** The deepest level the next entry after `es` may be at; equivalently,
      the number of directories still open at the end of `es`. */
  function OpenDepth(es: seq<Entry>): nat
  {
    if es == [] then 0 else Reach(es[|es| - 1])
  }

  /** A depth-first pre-order walk: it starts at depth 0, and every later
      entry is at most one level below the directory just entered, or no
      deeper than the file before it. */
  predicate PreOrder(es: seq<Entry>)
  {
    && (|es| > 0 ==> es[0].depth == 0)
    && forall k :: 0 < k < |es| ==> es[k].depth <= Reach(es[k - 1])
  }

  /** The positions of the directory entries at depth `d`, in walk order. */
  function Dirs(es: seq<Entry>, d: nat): (ps: seq<nat>)
    ensures forall m :: 0 <= m < |ps| ==> ps[m] < |es| && es[ps[m]].isDir && es[ps[m]].depth == d
    ensures forall m, n :: 0 <= m < n < |ps| ==> ps[m] < ps[n]
    decreases |es|
  {
    if es == [] then []
    else
      var k := |es| - 1;
      Dirs(es[..k], d) + (if es[k].isDir && es[k].depth == d then [k] else [])
  }

  /** Every directory entry at depth `d` is among `Dirs(es, d)`. */
  lemma {:induction false} DirsComplete(es: seq<Entry>, d: nat, k: nat)
    requires k < |es| && es[k].isDir && es[k].depth == d
    ensures k in Dirs(es, d)
    decreases |es|
  {
    var n := |es| - 1;
    var ps := Dirs(es[..n], d);
    if k < n {
      assert es[..n][k] == es[k];
      DirsComplete(es[..n], d, k);
      assert Dirs(es, d) == ps + (if es[n].isDir && es[n].depth == d then [n] else []);
    } else {
      assert Dirs(es, d) == ps + [n];
    }
  }

  /** The number of directory entries in the walk. */
  function DirCount(es: seq<Entry>): nat
    decreases |es|
  {
    if es == [] then 0
    else DirCount(es[..|es| - 1]) + (if es[|es| - 1].isDir then 1 else 0)
  }

  /** The total length of the files in the walk. */
  function FileTotal(es: seq<Entry>): nat
    decreases |es|
  {
    if es == [] then 0
    else
      var e := es[|es| - 1];
      FileTotal(es[..|es| - 1]) + (if e.isDir then 0 else e.len)
  }

  /** Entry `k` lies in the subtree of the entry at `j`: the walk has not
      come back up to the level of `j` anywhere between them. */
  predicate InSubtree(es: seq<Entry>, j: nat, k: nat)
    requires j < k < |es|
  {
    forall m :: j < m <= k ==> es[m].depth > es[j].depth
  }

  /** The entry at `j` is still open at the end of `es`: every entry after
      it lies in its subtree. */
  predicate Open(es: seq<Entry>, j: nat)
    requires j < |es|
  {
    forall m :: j < m < |es| ==> es[m].depth > es[j].depth
  }

  /** The total length of the files in the subtree of the directory at `j`. */
  function SubtreeSize(es: seq<Entry>, j: nat): nat
    requires j < |es|
    decreases |es|
  {
    if |es| == j + 1 then 0
    else
      var k := |es| - 1;
      SubtreeSize(es[..k], j) + (if InSubtree(es, j, k) && !es[k].isDir then es[k].len else 0)
  }

  /** The number of direct subdirectories of the directory at `j`: the
      directories of its subtree one level below it. */
  function SubdirCount(es: seq<Entry>, j: nat): nat
    requires j < |es|
    decreases |es|
  {
    if |es| == j + 1 then 0
    else
      var k := |es| - 1;
      SubdirCount(es[..k], j)
        + (if InSubtree(es, j, k) && es[k].isDir && es[k].depth == es[j].depth + 1 then 1 else 0)
  }

  /** The last directory entry at depth `d`, if there is one. */
  predicate IsLastDir(es: seq<Entry>, d: nat, j: nat)
  {
    var ps := Dirs(es, d);
    |ps| > 0 && ps[|ps| - 1] == j
  }

  lemma {:induction false} PreOrderPrefix(es: seq<Entry>, n: nat)
    requires PreOrder(es) && n <= |es|
    ensures PreOrder(es[..n])
  {
  }

  /** In a pre-order walk every level above the next entry's deepest
      possible level already has a directory. */
  lemma {:induction false} OpenLevelsPopulated(es: seq<Entry>, d: nat)
    requires PreOrder(es)
    requires d < OpenDepth(es)
    ensures |Dirs(es, d)| > 0
    decreases |es|
  {
    var k := |es| - 1;
    var p := es[..k];
    assert es == p + [es[k]];
    if es[k].isDir && es[k].depth == d {
      assert k in Dirs(es, d);
    } else {
      assert d < es[k].depth;
      assert k > 0 by { if k == 0 { assert es[0].depth == 0; } }
      assert es[k].depth <= OpenDepth(p);
      PreOrderPrefix(es, k);
      OpenLevelsPopulated(p, d);
    }
  }

  /** Appending an entry keeps an entry open exactly when the new entry is
      below it. */
  lemma {:induction false} OpenAppend(es: seq<Entry>, j: nat)
    requires j < |es| - 1
    ensures Open(es, j) <==> Open(es[..|es| - 1], j) && es[|es| - 1].depth > es[j].depth
  {
    var p := es[..|es| - 1];
    assert forall m :: j < m < |p| ==> p[m] == es[m];
  }

  /** Appending an entry makes it the last directory of its level and
      leaves the other levels' last directories as they were. */
  lemma {:induction false} LastDirAppend(es: seq<Entry>, d: nat, j: nat)
    requires |es| > 0
    ensures es[|es| - 1].isDir && es[|es| - 1].depth == d ==> (IsLastDir(es, d, j) <==> j == |es| - 1)
    ensures !(es[|es| - 1].isDir && es[|es| - 1].depth == d) ==>
      (IsLastDir(es, d, j) <==> IsLastDir(es[..|es| - 1], d, j))
  {
  }

  /** The central fact the builder relies on: in a pre-order walk, a
      directory is still open exactly when it is the last directory of its
      level and that level is above the next entry's deepest level. */
  lemma {:induction false} OpenIsLast(es: seq<Entry>, j: nat)
    requires PreOrder(es)
    requires j < |es| && es[j].isDir
    ensures Open(es, j) <==> es[j].depth < OpenDepth(es) && IsLastDir(es, es[j].depth, j)
    decreases |es|
  {
    var k := |es| - 1;
    var p := es[..k];
    var d := es[j].depth;
    var e := es[k];
    if j == k {
      // The directory just entered is open and the last of its level.
      LastDirAppend(es, d, j);
      assert Open(es, j);
      assert IsLastDir(es, d, j) && d < OpenDepth(es);
    } else {
      PreOrderPrefix(es, k);
      OpenIsLast(p, j);
      OpenAppend(es, j);
      assert p[j] == es[j];
      if e.depth > d {
        // The new entry is below `j`: `j` stays open exactly when it was.
        assert e.depth <= OpenDepth(p);
        assert !(es[k].isDir && es[k].depth == d);
        LastDirAppend(es, d, j);
        assert Open(es, j) <==> Open(p, j);
        assert IsLastDir(es, d, j) <==> IsLastDir(p, d, j);
        assert d < OpenDepth(p) && d < OpenDepth(es);
      } else if e.depth == d && e.isDir {
        // A later directory of the same level closes `j` and replaces it.
        LastDirAppend(es, d, j);
        assert !Open(es, j);
        assert !IsLastDir(es, d, j);
      } else {
        // A file at `j`'s level or anything shallower closes `j`.
        assert !Open(es, j);
        assert OpenDepth(es) <= d;
      }
    }
  }
}
