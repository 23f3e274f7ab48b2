/**
  The report loop: for the nodes at depths 0, 1 and 2, each size is shown
  in kilobytes, megabytes or gigabytes with the node's path and child
  count. Only the choice of unit is modelled; the division that produces
  the printed figure is floating point and is left out.
 */
module Report {
  import opened Wrappers
  import opened Walk
  import opened Tree
  import opened TreeFacts

  const KB: nat := 1024
  const MB: nat := 1024 * KB
  const GB: nat := 1024 * MB

  /** The depths the report loop visits: 0, 1 and 2. */
  const ReportDepths: nat := 3

  datatype Unit = Kilobytes | Megabytes | Gigabytes

  /** The number of bytes in one of the unit. */
  function Bytes(u: Unit): nat
  {
    match u
    case Kilobytes => KB
    case Megabytes => MB
    case Gigabytes => GB
  }

  /** The unit a size is reported in. The printed figure, size divided by
      the unit, is above 1 unless the unit is kilobytes and at most 1024
      unless the unit is gigabytes; those two facts fix the unit. */
  function UnitOf(size: nat): (u: Unit)
    ensures u != Kilobytes ==> size > Bytes(u)
    ensures u != Gigabytes ==> size <= 1024 * Bytes(u)
  {
    if size > GB then Gigabytes
    else if size > MB then Megabytes
    else Kilobytes
  }

  /** Only one unit keeps the printed figure in its range. */
  lemma {:induction false} UnitUnique(size: nat, u: Unit)
    requires u != Kilobytes ==> size > Bytes(u)
    requires u != Gigabytes ==> size <= 1024 * Bytes(u)
    ensures u == UnitOf(size)
  {
  }

  /** The comparisons are strict: exactly one megabyte is still shown in
      kilobytes and exactly one gigabyte in megabytes. */
  lemma UnitBoundaries()
    ensures UnitOf(1048575) == Kilobytes
    ensures UnitOf(1048576) == Kilobytes
    ensures UnitOf(1048577) == Megabytes
    ensures UnitOf(1073741824) == Megabytes
    ensures UnitOf(1073741825) == Gigabytes
  {
  }

  /** One line of the report: path, size, its unit and child count. */
  datatype Line = Line(path: string, size: nat, unit: Unit, subfolders: nat)

  function LineOf(n: Node): Line
  {
    Line(n.path, n.size, UnitOf(n.size), n.children)
  }

  /** The lines for one level, in list order. */
  function LevelLines(level: seq<Node>): (r: seq<Line>)
    ensures |r| == |level|
    ensures forall i :: 0 <= i < |level| ==> r[i] == LineOf(level[i])
    decreases |level|
  {
    if level == [] then []
    else LevelLines(level[..|level| - 1]) + [LineOf(level[|level| - 1])]
  }

  /** The lines for the levels at depths below `n`, depth by depth; a
      depth without a list contributes nothing. */
  function Listing(t: Tree, n: nat): seq<Line>
  {
    if n == 0 then [] else Listing(t, n - 1) + LevelLines(Level(t, n - 1))
  }

  /** The first depth below `n` with no list, if any. */
  function FirstAbsent(t: Tree, n: nat): (r: Option<nat>)
    ensures r.None? ==> forall i :: 0 <= i < n ==> i in t
    ensures r.Some? ==> r.value < n && r.value !in t
    ensures r.Some? ==> forall i :: 0 <= i < r.value ==> i in t
  {
    if n == 0 then None
    else
      match FirstAbsent(t, n - 1)
      case Some(i) => Some(i)
      case None => if n - 1 in t then None else Some(n - 1)
  }

  lemma {:induction false} FirstAbsentAt(t: Tree, n: nat, i: nat)
    requires i < n && i !in t
    requires forall k :: 0 <= k < i ==> k in t
    ensures FirstAbsent(t, n) == Some(i)
  {
    var r := FirstAbsent(t, n);
    assert r.Some? && r.value > i ==> i in t;
  }

  lemma {:induction false} FirstAbsentNone(t: Tree, n: nat)
    requires forall k :: 0 <= k < n ==> k in t
    ensures FirstAbsent(t, n) == None
  {
  }

  /** The listing one depth further holds that depth's lines after the
      earlier ones. */
  lemma {:induction false} ListingNext(t: Tree, i: nat)
    requires i in t
    ensures Listing(t, i + 1) == Listing(t, i) + LevelLines(t[i])
  {
  }

  /** The loop over the nodes of one level. */
  method PrintLevel(level: seq<Node>) returns (lines: seq<Line>)
    ensures lines == LevelLines(level)
  {
    lines := [];
    var j := 0;
    while j < |level|
      invariant j <= |level|
      invariant lines == LevelLines(level[..j])
    {
      var node := level[j];
      assert level[..j + 1][..j] == level[..j];
      lines := lines + [Line(node.path, node.size, UnitOf(node.size), node.children)];
      j := j + 1;
    }
    assert level[..j] == level;
  }

  /** The report loop as written: depth by depth from 0 to 2, every node of
      the level gets a line; the loop aborts at the first of those depths
      with no list, after printing the lines of the depths before it. */
  method PrintReport(t: Tree) returns (lines: seq<Line>, failure: Option<nat>)
    ensures failure == FirstAbsent(t, ReportDepths)
    ensures lines == Listing(t, if failure.Some? then failure.value else ReportDepths)
  {
    lines := [];
    var i: nat := 0;
    while i < ReportDepths
      invariant i <= ReportDepths
      invariant forall k :: 0 <= k < i ==> k in t
      invariant lines == Listing(t, i)
    {
      if i !in t {
        FirstAbsentAt(t, ReportDepths, i);
        failure := Some(i);
        return;
      }
      var levelLines := PrintLevel(t[i]);
      ListingNext(t, i);
      lines := lines + levelLines;
      i := i + 1;
    }
    FirstAbsentNone(t, ReportDepths);
    failure := None;
    assert lines == Listing(t, ReportDepths);
  }

  /** The report loop with missing depths skipped rather than aborting:
      every node at depths 0 to 2 gets a line. */
  method PrintPresentLevels(t: Tree) returns (lines: seq<Line>)
    ensures lines == Listing(t, ReportDepths)
  {
    lines := [];
    var i: nat := 0;
    while i < ReportDepths
      invariant i <= ReportDepths
      invariant lines == Listing(t, i)
    {
      if i in t {
        var levelLines := PrintLevel(t[i]);
        ListingNext(t, i);
        lines := lines + levelLines;
      }
      i := i + 1;
    }
  }

  /** Line `NodesBelow(t, d) + m` of the listing is that of node `m` of
      depth `d`. */
  predicate LineAt(t: Tree, n: nat, d: nat, m: nat)
    requires m < |Level(t, d)|
  {
    var i := NodesBelow(t, d) + m;
    i < |Listing(t, n)| && Listing(t, n)[i] == LineOf(Level(t, d)[m])
  }

  /** The listing holds every node of the depths below `n`, level by level
      and in list order: node `m` of depth `d` is line
      `NodesBelow(t, d) + m`. */
  lemma {:induction false} ListingCovers(t: Tree, n: nat)
    ensures |Listing(t, n)| == NodesBelow(t, n)
    ensures forall d: nat, m: nat :: d < n && m < |Level(t, d)| ==> LineAt(t, n, d, m)
  {
    if n > 0 {
      ListingCovers(t, n - 1);
      forall d: nat, m: nat | d < n && m < |Level(t, d)|
        ensures LineAt(t, n, d, m)
      {
        if d < n - 1 {
          assert LineAt(t, n - 1, d, m);
          ListingKeeps(t, n, NodesBelow(t, d) + m);
        } else {
          ListingAppends(t, n, m);
        }
      }
    }
  }

  /** The lines of the shallower depths stay where they were. */
  lemma {:induction false} ListingKeeps(t: Tree, n: nat, i: nat)
    requires n > 0 && i < |Listing(t, n - 1)|
    ensures i < |Listing(t, n)| && Listing(t, n)[i] == Listing(t, n - 1)[i]
  {
  }

  /** The lines of depth `n - 1` follow those of the shallower depths. */
  lemma {:induction false} ListingAppends(t: Tree, n: nat, m: nat)
    requires n > 0 && m < |Level(t, n - 1)|
    ensures |Listing(t, n - 1)| + m < |Listing(t, n)|
    ensures Listing(t, n)[|Listing(t, n - 1)| + m] == LineOf(Level(t, n - 1)[m])
  {
  }

  /** On a pre-order walk the listing of depths 0 to 2 has one line per
      directory at those depths. */
  lemma {:induction false} ReportCountOnWalk(es: seq<Entry>)
    requires PreOrder(es)
    ensures Run(es).Ok?
    ensures |Listing(Run(es).value, ReportDepths)| == DirsBelow(es, ReportDepths)
  {
    WalkBuilds(es);
    var t := Run(es).value;
    ListingCovers(t, ReportDepths);
    forall d: nat ensures |Level(t, d)| == DirsAt(es, d) {
      ListsDirectories(es, d);
      DirsAtCount(es, d);
    }
    NodesBelowDirs(t, es, ReportDepths);
  }

  /** On a pre-order walk the line of the `m`-th directory of depth `d`
      (below 3) shows its path, the total length of the files in its
      subtree in the unit that size selects, and its number of direct
      subdirectories. */
  lemma {:induction false} ReportLineOnWalk(es: seq<Entry>, t: Tree, d: nat, m: nat)
    requires PreOrder(es) && Run(es) == Ok(t)
    requires d < ReportDepths && m < |Dirs(es, d)|
    ensures
      var j := Dirs(es, d)[m];
      NodesBelow(t, d) + m < |Listing(t, ReportDepths)| &&
      Listing(t, ReportDepths)[NodesBelow(t, d) + m]
        == Line(es[j].path, SubtreeSize(es, j), UnitOf(SubtreeSize(es, j)), SubdirCount(es, j))
  {
    BuildOnWalk(es, d);
    var j := Dirs(es, d)[m];
    assert Level(t, d)[m] == NodeOf(es, j);
    ReportLine(t, d, m);
  }

  /** Line `NodesBelow(t, d) + m` of the report is that of node `m` of
      depth `d`, for each of the depths the report visits. */
  lemma {:induction false} ReportLine(t: Tree, d: nat, m: nat)
    requires d < ReportDepths && m < |Level(t, d)|
    ensures NodesBelow(t, d) + m < |Listing(t, ReportDepths)|
    ensures Listing(t, ReportDepths)[NodesBelow(t, d) + m] == LineOf(Level(t, d)[m])
  {
    ListingCovers(t, ReportDepths);
    assert LineAt(t, ReportDepths, d, m);
  }

  /** The report as written aborts after any successful build that has no
      directory at depth 2. */
  lemma {:induction false} ShallowTreeAborts(es: seq<Entry>)
    requires Run(es).Ok? && |Dirs(es, 2)| == 0
    ensures FirstAbsent(Run(es).value, ReportDepths).Some?
  {
    ListsDirectories(es, 2);
  }

  /** A root `/r` holding a file `a` of `x` bytes and a subdirectory `sub`
      that holds a file `b` of `y` bytes. */
  function TwoLevelWalk(x: nat, y: nat): seq<Entry>
  {
    [ Entry("/r", 0, true, 0), Entry("/r/a", 1, false, x),
      Entry("/r/sub", 1, true, 0), Entry("/r/sub/b", 2, false, y) ]
  }

  /** The table after the first `n` entries of that walk. */
  function TwoLevelTable(n: nat, x: nat, y: nat): Tree
  {
    if n == 0 then map[]
    else if n == 1 then map[0 := [Node("/r", 0, 0)]]
    else if n == 2 then map[0 := [Node("/r", x, 0)]]
    else if n == 3 then map[0 := [Node("/r", x, 1)], 1 := [Node("/r/sub", 0, 0)]]
    else map[0 := [Node("/r", x + y, 1)], 1 := [Node("/r/sub", y, 0)]]
  }

  /** Growing the last node of a one-node list gives the one grown node. */
  lemma {:induction false} BumpSingle(n: Node, size: nat, children: nat)
    ensures BumpLast([n], size, children) == [Node(n.path, n.size + size, n.children + children)]
  {
  }

  lemma {:induction false} TwoLevelStep0(x: nat, y: nat)
    ensures Step(TwoLevelTable(0, x, y), TwoLevelWalk(x, y)[0]) == Ok(TwoLevelTable(1, x, y))
  {
    var t, t' := TwoLevelTable(0, x, y), TwoLevelTable(1, x, y);
    assert Level(t, 0) + [Node("/r", 0, 0)] == [Node("/r", 0, 0)];
    assert t[0 := [Node("/r", 0, 0)]].Keys == t'.Keys;
  }

  lemma {:induction false} TwoLevelStep1(x: nat, y: nat)
    ensures Step(TwoLevelTable(1, x, y), TwoLevelWalk(x, y)[1]) == Ok(TwoLevelTable(2, x, y))
  {
    var t, t' := TwoLevelTable(1, x, y), TwoLevelTable(2, x, y);
    FirstNoOpenNone(t, 1);
    var a := Attribute(t, 1, x);
    BumpSingle(Node("/r", 0, 0), x, 0);
    assert a.Keys == t'.Keys;
    assert a[0] == BumpLast(t[0], x, 0) == t'[0];
    assert a == t';
    assert FileStep(t, 1, x) == Ok(a);
  }

  lemma {:induction false} TwoLevelStep2(x: nat, y: nat)
    ensures Step(TwoLevelTable(2, x, y), TwoLevelWalk(x, y)[2]) == Ok(TwoLevelTable(3, x, y))
  {
    var t, t' := TwoLevelTable(2, x, y), TwoLevelTable(3, x, y);
    assert Level(t, 1) + [Node("/r/sub", 0, 0)] == [Node("/r/sub", 0, 0)];
    var pushed := t[1 := Level(t, 1) + [Node("/r/sub", 0, 0)]];
    var a := pushed[0 := BumpLast(t[0], 0, 1)];
    BumpSingle(Node("/r", x, 0), 0, 1);
    assert BumpLast(t[0], 0, 1) == t'[0];
    assert a.Keys == t'.Keys;
    assert a == t';
    assert DirStep(t, "/r/sub", 1) == Ok(a);
  }

  lemma {:induction false} TwoLevelStep3(x: nat, y: nat)
    ensures Step(TwoLevelTable(3, x, y), TwoLevelWalk(x, y)[3]) == Ok(TwoLevelTable(4, x, y))
  {
    var t, t' := TwoLevelTable(3, x, y), TwoLevelTable(4, x, y);
    BumpSingle(Node("/r", x, 1), y, 0);
    BumpSingle(Node("/r/sub", 0, 0), y, 0);
    forall k: nat | k < 2
      ensures HasOpen(t, k) && t'[k] == BumpLast(t[k], y, 0)
    {
      assert k == 0 || k == 1;
    }
    AttributeMatches(t, 2, y, t');
    FileStepSucceeds(t, 2, y);
  }

  /** One more entry extends a successful build by that entry's step. */
  lemma {:induction false} RunExtends(es: seq<Entry>, n: nat, t: Tree, t': Tree)
    requires n < |es| && Run(es[..n]) == Ok(t) && Step(t, es[n]) == Ok(t')
    ensures Run(es[..n + 1]) == Ok(t')
  {
    assert es[..n + 1][..n] == es[..n];
  }

  /** The first `n` entries of that walk build `TwoLevelTable(n, x, y)`. */
  lemma {:induction false} TwoLevelPrefix(n: nat, x: nat, y: nat)
    requires n <= 4
    ensures Run(TwoLevelWalk(x, y)[..n]) == Ok(TwoLevelTable(n, x, y))
  {
    var es := TwoLevelWalk(x, y);
    if n == 0 {
      assert es[..0] == [];
    } else {
      TwoLevelPrefix(n - 1, x, y);
      if n == 1 {
        TwoLevelStep0(x, y);
      } else if n == 2 {
        TwoLevelStep1(x, y);
      } else if n == 3 {
        TwoLevelStep2(x, y);
      } else {
        TwoLevelStep3(x, y);
      }
      RunExtends(es, n - 1, TwoLevelTable(n - 1, x, y), TwoLevelTable(n, x, y));
    }
  }

  /** On that walk the build gives `/r` both files' bytes and one
      subdirectory, and `/r/sub` the bytes of `b` and no subdirectory. */
  lemma {:induction false} TwoLevelRun(x: nat, y: nat)
    ensures Run(TwoLevelWalk(x, y)) == Ok(map[0 := [Node("/r", x + y, 1)], 1 := [Node("/r/sub", y, 0)]])
  {
    TwoLevelPrefix(4, x, y);
    RunWhole(TwoLevelWalk(x, y), TwoLevelTable(4, x, y));
  }

  /** A build of the whole walk, written as its full-length prefix. */
  lemma {:induction false} RunWhole(es: seq<Entry>, t: Tree)
    requires Run(es[..|es|]) == Ok(t)
    ensures Run(es) == Ok(t)
  {
    assert es[..|es|] == es;
  }

  /** Before aborting, the report as written prints the lines of both
      nodes of that walk, in kilobytes when the files total at most one
      megabyte; the listing with missing depths skipped holds the same two
      lines and nothing else. */
  lemma {:induction false} TwoLevelListing(x: nat, y: nat)
    ensures Listing(TwoLevelTable(4, x, y), 2)
      == [Line("/r", x + y, UnitOf(x + y), 1), Line("/r/sub", y, UnitOf(y), 0)]
    ensures x + y <= MB ==>
      Listing(TwoLevelTable(4, x, y), 2) == [Line("/r", x + y, Kilobytes, 1), Line("/r/sub", y, Kilobytes, 0)]
    ensures Listing(TwoLevelTable(4, x, y), ReportDepths) == Listing(TwoLevelTable(4, x, y), 2)
  {
    var t := TwoLevelTable(4, x, y);
    TwoLevelLevels(x, y);
    assert Listing(t, 1) == [Line("/r", x + y, UnitOf(x + y), 1)];
    assert Listing(t, 2) == Listing(t, 1) + [Line("/r/sub", y, UnitOf(y), 0)];
  }

  /** The lines of each depth of the final table of that walk. */
  lemma {:induction false} TwoLevelLevels(x: nat, y: nat)
    ensures LevelLines(Level(TwoLevelTable(4, x, y), 0)) == [Line("/r", x + y, UnitOf(x + y), 1)]
    ensures LevelLines(Level(TwoLevelTable(4, x, y), 1)) == [Line("/r/sub", y, UnitOf(y), 0)]
    ensures LevelLines(Level(TwoLevelTable(4, x, y), 2)) == []
  {
    var t := TwoLevelTable(4, x, y);
    assert Level(t, 0) == [Node("/r", x + y, 1)];
    assert Level(t, 1) == [Node("/r/sub", y, 0)];
    assert Level(t, 2) == [];
  }

  /** On that walk the build gives `TwoLevelTable(4, x, y)`, and the
      report as written aborts at depth 2, the first depth with no list. */
  lemma {:induction false} TwoLevelWalkAborts(x: nat, y: nat, t: Tree)
    requires Run(TwoLevelWalk(x, y)) == Ok(t)
    ensures t == TwoLevelTable(4, x, y)
    ensures FirstAbsent(t, ReportDepths) == Some(2)
  {
    TwoLevelPrefix(4, x, y);
    RunWhole(TwoLevelWalk(x, y), TwoLevelTable(4, x, y));
    TwoLevelAborts(x, y);
  }

  /** The report as written stops at depth 2 of that walk's final table. */
  lemma {:induction false} TwoLevelAborts(x: nat, y: nat)
    ensures FirstAbsent(TwoLevelTable(4, x, y), ReportDepths) == Some(2)
  {
    var t := TwoLevelTable(4, x, y);
    assert 0 in t && 1 in t && 2 !in t;
    FirstAbsentAt(t, ReportDepths, 2);
  }
}
