/**
  What the table holds once the whole walk has been built: the directories
  of each depth in walk order, their subdirectory counts balanced against
  the next depth, and, for a pre-order walk, the size of every subtree.
 */
module TreeFacts {
  import opened Wrappers
  import opened Walk
  import opened Tree

  /** The bytes the builder attributes to the directory at `j`: every file
      after it that is deeper than it and arrives while `j` is the last
      directory of its level. */
  function AttributedSize(es: seq<Entry>, j: nat): nat
    requires j < |es|
    decreases |es|
  {
    if |es| == j + 1 then 0
    else
      var k := |es| - 1;
      var e := es[k];
      AttributedSize(es[..k], j)
        + (if !e.isDir && e.depth > es[j].depth && IsLastDir(es[..k], es[j].depth, j) then e.len else 0)
  }

  /** The subdirectories the builder counts for the directory at `j`: every
      directory one level below it that arrives while `j` is the last
      directory of its level. */
  function AttributedChildren(es: seq<Entry>, j: nat): nat
    requires j < |es|
    decreases |es|
  {
    if |es| == j + 1 then 0
    else
      var k := |es| - 1;
      var e := es[k];
      AttributedChildren(es[..k], j)
        + (if e.isDir && e.depth == es[j].depth + 1 && IsLastDir(es[..k], es[j].depth, j) then 1 else 0)
  }

  /** The node the builder makes for the directory at `j`. */
  function Attributed(es: seq<Entry>, j: nat): Node
    requires j < |es|
  {
    Node(es[j].path, AttributedSize(es, j), AttributedChildren(es, j))
  }

  /** The list at depth `d` holds one node per directory of that depth, in
      walk order, each with what the builder attributes to it. */
  predicate LevelTabulates(t: Tree, es: seq<Entry>, d: nat)
  {
    var ps := Dirs(es, d);
    && (d in t <==> |ps| > 0)
    && |Level(t, d)| == |ps|
    && forall m :: 0 <= m < |ps| ==> Level(t, d)[m] == Attributed(es, ps[m])
  }

  ghost predicate Tabulates(t: Tree, es: seq<Entry>)
  {
    forall d :: LevelTabulates(t, es, d)
  }

  /** The child count an entry adds to the open directory at depth `d`. */
  function ChildGain(e: Entry, d: nat): nat
  {
    if e.isDir && e.depth == d + 1 then 1 else 0
  }

  /** The bytes an entry adds to the open directory at depth `d`. */
  function ByteGain(e: Entry, d: nat): nat
  {
    if !e.isDir && d < e.depth then e.len else 0
  }

  /** One more entry grows the node of an earlier directory only while
      that directory is the last of its level. */
  lemma {:induction false} AttributedAppend(es: seq<Entry>, j: nat)
    requires j < |es| - 1
    ensures
      var p, e := es[..|es| - 1], es[|es| - 1];
      var b := Attributed(p, j);
      Attributed(es, j) ==
        if IsLastDir(p, es[j].depth, j)
        then Node(b.path, b.size + ByteGain(e, es[j].depth), b.children + ChildGain(e, es[j].depth))
        else b
  {
    assert es[..|es| - 1][j] == es[j];
  }

  /** Among a level's directories only the last one is the last. */
  lemma {:induction false} LastDirUnique(es: seq<Entry>, d: nat, m: nat)
    requires m < |Dirs(es, d)|
    ensures IsLastDir(es, d, Dirs(es, d)[m]) <==> m == |Dirs(es, d)| - 1
  {
    var ps := Dirs(es, d);
    if m < |ps| - 1 {
      assert ps[m] < ps[|ps| - 1];
    }
  }

  /** The nodes of one level that the new entry does not touch. */
  lemma {:induction false} LevelKept(es: seq<Entry>, d: nat, level: seq<Node>)
    requires |es| > 0
    requires
      var e := es[|es| - 1];
      !(e.isDir && e.depth == d) && ChildGain(e, d) + ByteGain(e, d) == 0
    requires |level| == |Dirs(es[..|es| - 1], d)|
    requires forall m :: 0 <= m < |level| ==> level[m] == Attributed(es[..|es| - 1], Dirs(es[..|es| - 1], d)[m])
    ensures |level| == |Dirs(es, d)|
    ensures forall m :: 0 <= m < |level| ==> level[m] == Attributed(es, Dirs(es, d)[m])
  {
    var k := |es| - 1;
    var ps := Dirs(es[..k], d);
    assert Dirs(es, d) == ps;
    forall m | 0 <= m < |ps|
      ensures level[m] == Attributed(es, ps[m])
    {
      AttributedAppend(es, ps[m]);
    }
  }

  /** The level the new directory is appended to. */
  lemma {:induction false} LevelAppended(es: seq<Entry>, d: nat, before: seq<Node>, after: seq<Node>)
    requires |es| > 0
    requires
      var e := es[|es| - 1];
      e.isDir && e.depth == d && after == before + [Node(e.path, 0, 0)]
    requires |before| == |Dirs(es[..|es| - 1], d)|
    requires forall m :: 0 <= m < |before| ==> before[m] == Attributed(es[..|es| - 1], Dirs(es[..|es| - 1], d)[m])
    ensures |after| == |Dirs(es, d)|
    ensures forall m :: 0 <= m < |after| ==> after[m] == Attributed(es, Dirs(es, d)[m])
  {
    var k := |es| - 1;
    var ps := Dirs(es[..k], d);
    assert Dirs(es, d) == ps + [k];
    forall m | 0 <= m < |ps|
      ensures after[m] == Attributed(es, ps[m])
    {
      AttributedAppend(es, ps[m]);
      assert after[m] == before[m];
    }
  }

  /** The level whose last node the new entry grows. */
  lemma {:induction false} LevelGrown(es: seq<Entry>, d: nat, before: seq<Node>, after: seq<Node>)
    requires |es| > 0
    requires
      var e := es[|es| - 1];
      !(e.isDir && e.depth == d) && LastGrown(before, after, ByteGain(e, d), ChildGain(e, d))
    requires |before| == |Dirs(es[..|es| - 1], d)|
    requires forall m :: 0 <= m < |before| ==> before[m] == Attributed(es[..|es| - 1], Dirs(es[..|es| - 1], d)[m])
    ensures |after| == |Dirs(es, d)|
    ensures forall m :: 0 <= m < |after| ==> after[m] == Attributed(es, Dirs(es, d)[m])
  {
    var k := |es| - 1;
    var p := es[..k];
    var ps := Dirs(p, d);
    assert Dirs(es, d) == ps;
    forall m | 0 <= m < |ps|
      ensures after[m] == Attributed(es, ps[m])
    {
      AttributedAppend(es, ps[m]);
      LastDirUnique(p, d, m);
      if m < |ps| - 1 {
        assert after[m] == after[..|after| - 1][m];
      }
    }
  }

  /** A directory entry keeps a level tabulated. */
  lemma {:induction false} DirStepTabulates(es: seq<Entry>, t: Tree, d: nat)
    requires |es| > 0
    requires var e := es[|es| - 1]; e.isDir && DirStep(t, e.path, e.depth).Ok?
    requires LevelTabulates(t, es[..|es| - 1], d)
    ensures var e := es[|es| - 1]; LevelTabulates(DirStep(t, e.path, e.depth).value, es, d)
  {
    var e := es[|es| - 1];
    if e.depth == d {
      DirLevelTabulates(es, t, d);
    } else if e.depth == d + 1 {
      DirParentTabulates(es, t, d);
    } else {
      DirOtherTabulates(es, t, d);
    }
  }

  /** The level the new directory joins. */
  lemma {:induction false} DirLevelTabulates(es: seq<Entry>, t: Tree, d: nat)
    requires |es| > 0
    requires var e := es[|es| - 1]; e.isDir && e.depth == d && DirStep(t, e.path, e.depth).Ok?
    requires LevelTabulates(t, es[..|es| - 1], d)
    ensures var e := es[|es| - 1]; LevelTabulates(DirStep(t, e.path, e.depth).value, es, d)
  {
    var k := |es| - 1;
    var e := es[k];
    var t' := DirStep(t, e.path, e.depth).value;
    assert Dirs(es, d) == Dirs(es[..k], d) + [k];
    LevelAppended(es, d, Level(t, d), Level(t', d));
  }

  /** The level of the new directory's parent. */
  lemma {:induction false} DirParentTabulates(es: seq<Entry>, t: Tree, d: nat)
    requires |es| > 0
    requires var e := es[|es| - 1]; e.isDir && e.depth == d + 1 && DirStep(t, e.path, e.depth).Ok?
    requires LevelTabulates(t, es[..|es| - 1], d)
    ensures var e := es[|es| - 1]; LevelTabulates(DirStep(t, e.path, e.depth).value, es, d)
  {
    var k := |es| - 1;
    var e := es[k];
    var t' := DirStep(t, e.path, e.depth).value;
    assert Dirs(es, d) == Dirs(es[..k], d);
    LevelGrown(es, d, Level(t, d), Level(t', d));
  }

  /** Every other level. */
  lemma {:induction false} DirOtherTabulates(es: seq<Entry>, t: Tree, d: nat)
    requires |es| > 0
    requires var e := es[|es| - 1]; e.isDir && e.depth != d && e.depth != d + 1 && DirStep(t, e.path, e.depth).Ok?
    requires LevelTabulates(t, es[..|es| - 1], d)
    ensures var e := es[|es| - 1]; LevelTabulates(DirStep(t, e.path, e.depth).value, es, d)
  {
    var k := |es| - 1;
    var e := es[k];
    var t' := DirStep(t, e.path, e.depth).value;
    assert Dirs(es, d) == Dirs(es[..k], d);
    assert Level(t', d) == Level(t, d);
    LevelKept(es, d, Level(t, d));
  }

  /** A file entry keeps a level tabulated. */
  lemma {:induction false} FileStepTabulates(es: seq<Entry>, t: Tree, d: nat)
    requires |es| > 0
    requires var e := es[|es| - 1]; !e.isDir && FileStep(t, e.depth, e.len).Ok?
    requires LevelTabulates(t, es[..|es| - 1], d)
    ensures var e := es[|es| - 1]; LevelTabulates(FileStep(t, e.depth, e.len).value, es, d)
  {
    var k := |es| - 1;
    var p := es[..k];
    var e := es[k];
    var t' := FileStep(t, e.depth, e.len).value;
    assert Dirs(es, d) == Dirs(p, d);
    if d < e.depth {
      assert HasOpen(t, d);
      LevelGrown(es, d, Level(t, d), Level(t', d));
    } else {
      LevelKept(es, d, Level(t, d));
    }
  }

  /** One more entry keeps every level tabulated. */
  lemma {:induction false} StepTabulates(es: seq<Entry>, t: Tree, d: nat)
    requires |es| > 0
    requires Tabulates(t, es[..|es| - 1])
    requires Step(t, es[|es| - 1]).Ok?
    ensures LevelTabulates(Step(t, es[|es| - 1]).value, es, d)
  {
    var e := es[|es| - 1];
    assert LevelTabulates(t, es[..|es| - 1], d);
    if e.isDir {
      DirStepTabulates(es, t, d);
    } else {
      FileStepTabulates(es, t, d);
    }
  }

  /** Every successful build tabulates the walk's directories. */
  lemma {:induction false} RunTabulates(es: seq<Entry>)
    requires Run(es).Ok?
    ensures Tabulates(Run(es).value, es)
    decreases |es|
  {
    if es == [] {
      forall d ensures LevelTabulates(Run(es).value, es, d) {
        assert Dirs(es, d) == [];
      }
    } else {
      var p := es[..|es| - 1];
      RunTabulates(p);
      forall d ensures LevelTabulates(Run(es).value, es, d) {
        StepTabulates(es, Run(p).value, d);
      }
    }
  }

  /** After a successful build each depth's list holds exactly the
      directories of that depth, in walk order, and only depths with a
      directory have a list. */
  lemma {:induction false} ListsDirectories(es: seq<Entry>, d: nat)
    requires Run(es).Ok?
    ensures d in Run(es).value <==> |Dirs(es, d)| > 0
    ensures |Level(Run(es).value, d)| == |Dirs(es, d)|
    ensures forall m :: 0 <= m < |Dirs(es, d)| ==> Level(Run(es).value, d)[m].path == es[Dirs(es, d)[m]].path
  {
    RunTabulates(es);
    assert LevelTabulates(Run(es).value, es, d);
  }

  /** In a pre-order walk the builder's "last node of the level above"
      rule attributes exactly the entries of the directory's subtree. */
  lemma {:induction false} WalkAttribution(es: seq<Entry>, j: nat)
    requires PreOrder(es) && j < |es| && es[j].isDir
    ensures AttributedSize(es, j) == SubtreeSize(es, j)
    ensures AttributedChildren(es, j) == SubdirCount(es, j)
    decreases |es|
  {
    if |es| > j + 1 {
      var k := |es| - 1;
      var p := es[..k];
      PreOrderPrefix(es, k);
      assert p[j] == es[j];
      WalkAttribution(p, j);
      OpenIsLast(p, j);
      assert InSubtree(es, j, k) <==> Open(p, j) && es[k].depth > es[j].depth by {
        assert forall m :: j < m < k ==> p[m] == es[m];
      }
      assert es[k].depth <= OpenDepth(p);
    }
  }

  /** A pre-order walk never makes the builder fail. */
  lemma {:induction false} WalkBuilds(es: seq<Entry>)
    requires PreOrder(es)
    ensures Run(es).Ok?
    decreases |es|
  {
    if es != [] {
      var k := |es| - 1;
      var p := es[..k];
      var e := es[k];
      PreOrderPrefix(es, k);
      WalkBuilds(p);
      var t := Run(p).value;
      RunTabulates(p);
      assert k == 0 ==> e.depth == 0;
      assert k > 0 ==> e.depth <= OpenDepth(p);
      forall i | 0 <= i < e.depth ensures HasOpen(t, i) {
        OpenLevelsPopulated(p, i);
        assert LevelTabulates(t, p, i);
      }
    }
  }

  /** The node a directory should get: for the directory at `j`, its
      path, the total length of the files in its subtree and the number of
      its direct subdirectories. */
  function NodeOf(es: seq<Entry>, j: nat): Node
    requires j < |es|
  {
    Node(es[j].path, SubtreeSize(es, j), SubdirCount(es, j))
  }

  /** On a pre-order walk the build succeeds, and the list at each depth
      holds, in walk order, one node per directory of that depth whose
      size is the total length of the files in its subtree and whose child
      count is its number of direct subdirectories. */
  lemma {:induction false} BuildOnWalk(es: seq<Entry>, d: nat)
    requires PreOrder(es)
    ensures Run(es).Ok?
    ensures d in Run(es).value <==> |Dirs(es, d)| > 0
    ensures |Level(Run(es).value, d)| == |Dirs(es, d)|
    ensures forall m :: 0 <= m < |Dirs(es, d)| ==> Level(Run(es).value, d)[m] == NodeOf(es, Dirs(es, d)[m])
  {
    WalkBuilds(es);
    RunTabulates(es);
    assert LevelTabulates(Run(es).value, es, d);
    forall m | 0 <= m < |Dirs(es, d)|
      ensures Level(Run(es).value, d)[m] == NodeOf(es, Dirs(es, d)[m])
    {
      WalkAttribution(es, Dirs(es, d)[m]);
    }
  }

  /** Under a single root every file lies in the root's subtree. */
  lemma {:induction false} RootSubtree(es: seq<Entry>)
    requires |es| > 0 && es[0].isDir && es[0].depth == 0
    requires forall k :: 0 < k < |es| ==> es[k].depth > 0
    ensures SubtreeSize(es, 0) == FileTotal(es)
    ensures SubdirCount(es, 0) == |Dirs(es, 1)|
    decreases |es|
  {
    if |es| > 1 {
      var k := |es| - 1;
      var p := es[..k];
      RootSubtree(p);
      assert InSubtree(es, 0, k);
    }
  }

  /** A walk under a single root directory builds one depth-0 node, whose
      size is the total length of all the files and whose child count is
      the number of directories one level down. */
  lemma {:induction false} RootTotals(es: seq<Entry>, t: Tree)
    requires PreOrder(es) && Run(es) == Ok(t) && |es| > 0 && es[0].isDir
    requires forall k :: 0 < k < |es| ==> es[k].depth > 0
    ensures 0 in t
    ensures t[0] == [Node(es[0].path, FileTotal(es), |Dirs(es, 1)|)]
  {
    BuildOnWalk(es, 0);
    var ps := Dirs(es, 0);
    DirsComplete(es, 0, 0);
    assert |ps| > 0 && ps[0] == 0 by {
      assert es[ps[0]].depth == 0;
    }
    assert |ps| == 1 by {
      if |ps| > 1 {
        // a second depth-0 directory would lie after the root
        assert false;
      }
    }
    assert ps == [0];
    RootSubtree(es);
    assert t[0][0] == NodeOf(es, 0);
  }

  /** The total of the child counts of a level. */
  function SumChildren(level: seq<Node>): nat
    decreases |level|
  {
    if level == [] then 0 else SumChildren(level[..|level| - 1]) + level[|level| - 1].children
  }

  /** The child counts at each depth add up to the number of nodes one
      depth further down. */
  ghost predicate ChildrenBalanced(t: Tree)
  {
    forall d: nat :: SumChildren(Level(t, d)) == |Level(t, d + 1)|
  }

  lemma {:induction false} GrownSum(before: seq<Node>, after: seq<Node>, size: nat, children: nat)
    requires LastGrown(before, after, size, children)
    ensures SumChildren(after) == SumChildren(before) + children
  {
  }

  /** Every entry keeps the child counts balanced. */
  lemma {:induction false} StepBalanced(t: Tree, e: Entry)
    requires ChildrenBalanced(t) && Step(t, e).Ok?
    ensures ChildrenBalanced(Step(t, e).value)
  {
    var t' := Step(t, e).value;
    forall d: nat ensures SumChildren(Level(t', d)) == |Level(t', d + 1)| {
      assert SumChildren(Level(t, d)) == |Level(t, d + 1)|;
      if e.isDir {
        assert t' == DirStep(t, e.path, e.depth).value;
        if e.depth == d {
          assert Level(t', d)[..|Level(t', d)| - 1] == Level(t, d);
        } else if e.depth == d + 1 {
          GrownSum(t[d], t'[d], 0, 1);
        } else if d + 1 == e.depth - 1 {
          assert |t'[d + 1]| == |t[d + 1]|;
        }
      } else {
        assert t' == FileStep(t, e.depth, e.len).value;
        if d < e.depth {
          assert HasOpen(t, d);
          GrownSum(t[d], t'[d], e.len, 0);
        }
        if d + 1 < e.depth {
          assert HasOpen(t, d + 1);
          assert |t'[d + 1]| == |t[d + 1]|;
        }
      }
    }
  }

  /** After any successful build the child counts at each depth add up to
      the number of nodes one depth further down. */
  lemma {:induction false} RunBalanced(es: seq<Entry>)
    requires Run(es).Ok?
    ensures ChildrenBalanced(Run(es).value)
    decreases |es|
  {
    if es != [] {
      var p := es[..|es| - 1];
      RunBalanced(p);
      StepBalanced(Run(p).value, es[|es| - 1]);
    }
  }

  /** The number of nodes at the depths below `n`. */
  function NodesBelow(t: Tree, n: nat): nat
  {
    if n == 0 then 0 else NodesBelow(t, n - 1) + |Level(t, n - 1)|
  }

  /** The number of directory entries at depth `d`, which is `|Dirs(es, d)|`
      (see `DirsAtCount`). This count carries no quantified facts, which
      keeps the verifier's proofs about `DirsBelow` stable. */
  function DirsAt(es: seq<Entry>, d: nat): nat
    decreases |es|
  {
    if es == [] then 0
    else DirsAt(es[..|es| - 1], d) + (if es[|es| - 1].isDir && es[|es| - 1].depth == d then 1 else 0)
  }

  /** `DirsAt` counts the directories `Dirs` lists. */
  lemma {:induction false} DirsAtCount(es: seq<Entry>, d: nat)
    ensures |Dirs(es, d)| == DirsAt(es, d)
    decreases |es|
  {
    if es != [] {
      DirsAtCount(es[..|es| - 1], d);
    }
  }

  /** The number of directory entries at the depths below `n`. */
  function DirsBelow(es: seq<Entry>, n: nat): nat
  {
    if n == 0 then 0 else DirsBelow(es, n - 1) + DirsAt(es, n - 1)
  }

  /** A walk extended by one entry has one more directory below `n`
      exactly when that entry is a directory above depth `n`. */
  lemma {:induction false} DirsBelowAppend(p: seq<Entry>, e: Entry, n: nat)
    ensures DirsBelow(p + [e], n) == DirsBelow(p, n) + (if e.isDir && e.depth < n then 1 else 0)
  {
    if n > 0 {
      DirsBelowAppend(p, e, n - 1);
      assert (p + [e])[..|p|] == p;
    }
  }

  lemma {:induction false} DirsBelowCount(es: seq<Entry>, n: nat)
    requires forall k :: 0 <= k < |es| ==> es[k].depth < n
    ensures DirsBelow(es, n) == DirCount(es)
    decreases |es|
  {
    if es == [] {
      DirsBelowEmpty(es, n);
    } else {
      var p := es[..|es| - 1];
      assert es == p + [es[|es| - 1]];
      DirsBelowAppend(p, es[|es| - 1], n);
      DirsBelowCount(p, n);
    }
  }

  lemma {:induction false} DirsBelowEmpty(es: seq<Entry>, n: nat)
    requires |es| == 0
    ensures DirsBelow(es, n) == 0
  {
    if n > 0 {
      DirsBelowEmpty(es, n - 1);
    }
  }

  /** After a successful build the table holds one node per directory
      entry: for any `n` deeper than every entry, the lists at depths below
      `n` hold as many nodes as the walk has directories. */
  lemma {:induction false} NodeCount(es: seq<Entry>, n: nat)
    requires Run(es).Ok?
    requires forall k :: 0 <= k < |es| ==> es[k].depth < n
    ensures NodesBelow(Run(es).value, n) == DirCount(es)
  {
    forall d: nat ensures |Level(Run(es).value, d)| == DirsAt(es, d) {
      ListsDirectories(es, d);
      DirsAtCount(es, d);
    }
    NodesBelowDirs(Run(es).value, es, n);
    DirsBelowCount(es, n);
  }

  lemma {:induction false} NodesBelowDirs(t: Tree, es: seq<Entry>, n: nat)
    requires forall d: nat :: |Level(t, d)| == DirsAt(es, d)
    ensures NodesBelow(t, n) == DirsBelow(es, n)
  {
    if n > 0 {
      NodesBelowDirs(t, es, n - 1);
    }
  }
}
