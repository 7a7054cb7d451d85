/**
 * Turning the sorted directory groups of a scan into list rows: per directory, one
 * folder row whose parent is found by a backward scan over the rows placed so far,
 * followed by one file row per entry, in entry order.
 */
module TreeBuilder {
  import opened Tree
  import opened HostApi
  import opened PathIndex
  import opened ListItems
  import opened LexOrder

  /**
   * The backward scan for a parent: the latest row before `n` that is a folder whose
   * path contains `p` according to `isSubdir`, or -1 when there is none.
   */
  function NearestFolder(items: seq<Item>, p: string, n: int, isSubdir: (string, string) -> bool): (r: int)
    requires 0 <= n <= |items|
    ensures -1 <= r < n
    ensures r >= 0 ==> items[r].isFolder && isSubdir(p, items[r].path)
    ensures forall j :: r < j < n ==> !(items[j].isFolder && isSubdir(p, items[j].path))
    decreases n
  {
    if n == 0 then -1
    else if items[n - 1].isFolder && isSubdir(p, items[n - 1].path) then n - 1
    else NearestFolder(items, p, n - 1, isSubdir)
  }

  /** The backward scan only looks at the rows before `n`. */
  lemma {:induction false} NearestFolderOfPrefix(items: seq<Item>, more: seq<Item>, p: string, n: int, isSubdir: (string, string) -> bool)
    requires 0 <= n <= |items|
    ensures NearestFolder(items + more, p, n, isSubdir) == NearestFolder(items, p, n, isSubdir)
    decreases n
  {
    if n > 0 {
      assert (items + more)[n - 1] == items[n - 1];
      NearestFolderOfPrefix(items, more, p, n - 1, isSubdir);
    }
  }

  /** The file rows of one directory, all pointing at the folder row `parent`. */
  function FileItems(es: seq<Entry>, parent: int): (r: seq<Item>)
    ensures |r| == |es|
    ensures forall e :: 0 <= e < |es| ==> r[e] == Item(parent, es[e].filename, false, true, es[e].images)
  {
    seq(|es|, e requires 0 <= e < |es| => Item(parent, es[e].filename, false, true, es[e].images))
  }

  /** Appends the folder row of group `g`, expanded, and then its file rows. */
  function Emit(items: seq<Item>, g: Group, isSubdir: (string, string) -> bool): seq<Item> {
    items
    + [Item(NearestFolder(items, g.dir, |items|, isSubdir), g.dir, true, true, [])]
    + FileItems(g.entries, |items|)
  }

  /** The rows for the groups, emitted in order. */
  function Build(gs: seq<Group>, isSubdir: (string, string) -> bool): seq<Item>
    decreases |gs|
  {
    if |gs| == 0 then [] else Emit(Build(gs[..|gs| - 1], isSubdir), gs[|gs| - 1], isSubdir)
  }

  /** Row index of the folder row of group `k` (equivalently, the number of rows before it). */
  function Offset(gs: seq<Group>, k: int): nat
    requires 0 <= k <= |gs|
    decreases k
  {
    if k == 0 then 0 else Offset(gs, k - 1) + 1 + |gs[k - 1].entries|
  }

  lemma {:induction false} OffsetOfPrefix(gs: seq<Group>, m: int, k: int)
    requires 0 <= k <= m <= |gs|
    ensures Offset(gs[..m], k) == Offset(gs, k)
    decreases k
  {
    if k > 0 {
      OffsetOfPrefix(gs, m, k - 1);
    }
  }

  lemma {:induction false} OffsetMonotone(gs: seq<Group>, a: int, b: int)
    requires 0 <= a < b <= |gs|
    ensures Offset(gs, a) + 1 + |gs[a].entries| <= Offset(gs, b)
    decreases b
  {
    if a < b - 1 {
      OffsetMonotone(gs, a, b - 1);
    }
  }

  /** The group whose rows contain row `j`. */
  function GroupOf(gs: seq<Group>, j: int, k: int): (g: int)
    requires 0 <= k <= |gs| && 0 <= j < Offset(gs, k)
    ensures 0 <= g < k && Offset(gs, g) <= j < Offset(gs, g + 1)
    decreases k
  {
    if Offset(gs, k - 1) <= j then k - 1 else GroupOf(gs, j, k - 1)
  }

  /**
   * Group `k` of the layout: its folder row sits at `Offset(gs, k)`, has the directory as
   * its path, is expanded, and takes as parent the backward scan's answer; the group's
   * entries follow it as file rows pointing at it.
   */
  ghost predicate GroupLaidOut(gs: seq<Group>, items: seq<Item>, isSubdir: (string, string) -> bool, k: int)
    requires 0 <= k < |gs|
  {
    var o := Offset(gs, k);
    && o + 1 + |gs[k].entries| <= |items|
    && items[o] == Item(NearestFolder(items, gs[k].dir, o, isSubdir), gs[k].dir, true, true, [])
    && forall e :: 0 <= e < |gs[k].entries| ==>
         items[o + 1 + e] == Item(o, gs[k].entries[e].filename, false, true, gs[k].entries[e].images)
  }

  /** The layout of the built rows: every group laid out in order, and nothing else. */
  ghost predicate Layout(gs: seq<Group>, items: seq<Item>, isSubdir: (string, string) -> bool) {
    && |items| == Offset(gs, |gs|)
    && forall k :: 0 <= k < |gs| ==> GroupLaidOut(gs, items, isSubdir, k)
  }

  /** The rows of the groups but the last, followed by the rows of the last group. */
  lemma BuildSnoc(gs: seq<Group>, isSubdir: (string, string) -> bool)
    requires |gs| > 0
    ensures var prev := Build(gs[..|gs| - 1], isSubdir);
      var g := gs[|gs| - 1];
      Build(gs, isSubdir)
        == prev + ([Item(NearestFolder(prev, g.dir, |prev|, isSubdir), g.dir, true, true, [])] + FileItems(g.entries, |prev|))
  {
  }

  /** Appending the last group keeps an earlier group laid out where it was. */
  lemma EarlierGroupStays(gs: seq<Group>, isSubdir: (string, string) -> bool, k: int)
    requires 0 <= k < |gs| - 1
    requires |Build(gs[..|gs| - 1], isSubdir)| == Offset(gs, |gs| - 1)
    requires GroupLaidOut(gs[..|gs| - 1], Build(gs[..|gs| - 1], isSubdir), isSubdir, k)
    ensures GroupLaidOut(gs, Build(gs, isSubdir), isSubdir, k)
  {
    var m := |gs| - 1;
    var init := gs[..m];
    var prev := Build(init, isSubdir);
    var g := gs[m];
    var tail := [Item(NearestFolder(prev, g.dir, |prev|, isSubdir), g.dir, true, true, [])] + FileItems(g.entries, |prev|);
    BuildSnoc(gs, isSubdir);
    OffsetOfPrefix(gs, m, k);
    OffsetMonotone(gs, k, m);
    assert init[k] == gs[k];
    NearestFolderOfPrefix(prev, tail, gs[k].dir, Offset(gs, k), isSubdir);
  }

  /** Appending the last group lays it out right after the earlier rows. */
  lemma LastGroupLaidOut(gs: seq<Group>, isSubdir: (string, string) -> bool)
    requires |gs| > 0
    requires |Build(gs[..|gs| - 1], isSubdir)| == Offset(gs, |gs| - 1)
    ensures GroupLaidOut(gs, Build(gs, isSubdir), isSubdir, |gs| - 1)
    ensures |Build(gs, isSubdir)| == Offset(gs, |gs|)
  {
    var m := |gs| - 1;
    var prev := Build(gs[..m], isSubdir);
    var g := gs[m];
    var tail := [Item(NearestFolder(prev, g.dir, |prev|, isSubdir), g.dir, true, true, [])] + FileItems(g.entries, |prev|);
    var items := Build(gs, isSubdir);
    BuildSnoc(gs, isSubdir);
    assert items == prev + tail;
    var o := Offset(gs, m);
    assert o == |prev| && |items| == o + 1 + |g.entries|;
    NearestFolderOfPrefix(prev, tail, g.dir, o, isSubdir);
    assert items[o] == Item(NearestFolder(items, g.dir, o, isSubdir), g.dir, true, true, []) by {
      assert items[o] == tail[0];
    }
    forall e | 0 <= e < |g.entries|
      ensures items[o + 1 + e] == Item(o, g.entries[e].filename, false, true, g.entries[e].images)
    {
      assert items[o + 1 + e] == tail[1 + e];
    }
  }

  lemma {:induction false} BuildLayout(gs: seq<Group>, isSubdir: (string, string) -> bool)
    ensures Layout(gs, Build(gs, isSubdir), isSubdir)
    decreases |gs|
  {
    if |gs| > 0 {
      var m := |gs| - 1;
      var init := gs[..m];
      BuildLayout(init, isSubdir);
      OffsetOfPrefix(gs, m, m);
      LastGroupLaidOut(gs, isSubdir);
      forall k | 0 <= k < m
        ensures GroupLaidOut(gs, Build(gs, isSubdir), isSubdir, k)
      {
        assert GroupLaidOut(init, Build(init, isSubdir), isSubdir, k);
        EarlierGroupStays(gs, isSubdir, k);
      }
    }
  }

  /** A file row's parent is a folder row placed before it with no folder row in between. */
  ghost predicate FileUnderFolder(items: seq<Item>, j: int)
    requires 0 <= j < |items|
  {
    var q := items[j].parent;
    0 <= q < j && items[q].isFolder && forall i :: q < i < j ==> !items[i].isFolder
  }

  /** A folder row is expanded and takes as parent the backward scan's answer. */
  ghost predicate FolderPlaced(items: seq<Item>, isSubdir: (string, string) -> bool, j: int)
    requires 0 <= j < |items|
  {
    items[j].expanded && items[j].parent == NearestFolder(items, items[j].path, j, isSubdir)
  }

  /**
   * The structure every scan produces: parents precede children; a file row hangs off
   * the closest folder row above it; a folder row is expanded and its parent is the
   * backward scan's answer; folder paths ascend strictly in the order `rank`.
   */
  ghost predicate Shaped(items: seq<Item>, rank: char -> int, isSubdir: (string, string) -> bool) {
    && Linked(items)
    && (forall j :: 0 <= j < |items| && !items[j].isFolder ==> FileUnderFolder(items, j))
    && (forall j {:trigger FolderPlaced(items, isSubdir, j)} :: 0 <= j < |items| && items[j].isFolder ==>
          FolderPlaced(items, isSubdir, j))
    && (forall i, j :: 0 <= i < j < |items| && items[i].isFolder && items[j].isFolder ==>
          Less(items[i].path, items[j].path, rank))
  }

  /** Within the rows of one laid-out group, only the first is a folder row; the others point at it. */
  lemma LaidOutRow(gs: seq<Group>, items: seq<Item>, isSubdir: (string, string) -> bool, k: int, j: int)
    requires 0 <= k < |gs| && GroupLaidOut(gs, items, isSubdir, k)
    requires Offset(gs, k) <= j < Offset(gs, k + 1)
    ensures items[j].isFolder <==> j == Offset(gs, k)
    ensures !items[j].isFolder ==> items[j].parent == Offset(gs, k)
  {
    var o := Offset(gs, k);
    if j != o {
      var e := j - o - 1;
      assert items[o + 1 + e] == Item(o, gs[k].entries[e].filename, false, true, gs[k].entries[e].images);
    }
  }

  /** A row is a folder row exactly when it is the first row of its group. */
  lemma RowKind(gs: seq<Group>, items: seq<Item>, isSubdir: (string, string) -> bool, j: int)
    requires Layout(gs, items, isSubdir) && 0 <= j < |items|
    ensures var k := GroupOf(gs, j, |gs|);
      && (items[j].isFolder <==> j == Offset(gs, k))
      && (!items[j].isFolder ==> items[j].parent == Offset(gs, k))
  {
    var k := GroupOf(gs, j, |gs|);
    assert GroupLaidOut(gs, items, isSubdir, k);
    LaidOutRow(gs, items, isSubdir, k, j);
  }

  lemma FileRowShaped(gs: seq<Group>, items: seq<Item>, isSubdir: (string, string) -> bool, j: int)
    requires Layout(gs, items, isSubdir) && 0 <= j < |items| && !items[j].isFolder
    ensures FileUnderFolder(items, j)
  {
    RowKind(gs, items, isSubdir, j);
    var k := GroupOf(gs, j, |gs|);
    assert GroupLaidOut(gs, items, isSubdir, k);
    forall i | Offset(gs, k) < i < j ensures !items[i].isFolder {
      RowKind(gs, items, isSubdir, i);
      var ki := GroupOf(gs, i, |gs|);
      if ki < k {
        OffsetMonotone(gs, ki, k);
      } else if ki > k {
        OffsetMonotone(gs, k, ki);
      }
    }
  }

  lemma FolderRowShaped(gs: seq<Group>, items: seq<Item>, isSubdir: (string, string) -> bool, j: int)
    requires Layout(gs, items, isSubdir) && 0 <= j < |items| && items[j].isFolder
    ensures items[j].expanded && items[j].parent == NearestFolder(items, items[j].path, j, isSubdir)
  {
    RowKind(gs, items, isSubdir, j);
    var k := GroupOf(gs, j, |gs|);
    assert GroupLaidOut(gs, items, isSubdir, k);
  }

  lemma FolderRowsAscend(gs: seq<Group>, items: seq<Item>, rank: char -> int, isSubdir: (string, string) -> bool, i: int, j: int)
    requires Layout(gs, items, isSubdir)
    requires SortedBy(gs, DirOf, rank)
    requires 0 <= i < j < |items| && items[i].isFolder && items[j].isFolder
    ensures Less(items[i].path, items[j].path, rank)
  {
    RowKind(gs, items, isSubdir, i);
    RowKind(gs, items, isSubdir, j);
    var ki := GroupOf(gs, i, |gs|);
    var kj := GroupOf(gs, j, |gs|);
    assert GroupLaidOut(gs, items, isSubdir, ki);
    assert GroupLaidOut(gs, items, isSubdir, kj);
    if kj <= ki {
      if kj < ki {
        OffsetMonotone(gs, kj, ki);
      }
      assert false;
    }
  }

  /** Built rows link every row to an earlier one or to no row, whatever the order of the groups. */
  lemma {:induction false} BuildLinked(gs: seq<Group>, isSubdir: (string, string) -> bool)
    ensures Linked(Build(gs, isSubdir))
  {
    var items := Build(gs, isSubdir);
    BuildLayout(gs, isSubdir);
    forall j | 0 <= j < |items| && !items[j].isFolder
      ensures 0 <= items[j].parent < j
    {
      FileRowShaped(gs, items, isSubdir, j);
    }
    forall j | 0 <= j < |items| && items[j].isFolder
      ensures -1 <= items[j].parent < j
    {
      FolderRowShaped(gs, items, isSubdir, j);
    }
  }

  /** Rows built from groups sorted strictly by directory have the scan's structure. */
  lemma BuildShaped(gs: seq<Group>, rank: char -> int, isSubdir: (string, string) -> bool)
    requires SortedBy(gs, DirOf, rank)
    ensures Shaped(Build(gs, isSubdir), rank, isSubdir)
  {
    var items := Build(gs, isSubdir);
    BuildLayout(gs, isSubdir);
    forall j | 0 <= j < |items| && !items[j].isFolder
      ensures FileUnderFolder(items, j)
    {
      FileRowShaped(gs, items, isSubdir, j);
    }
    forall j | 0 <= j < |items| && items[j].isFolder
      ensures FolderPlaced(items, isSubdir, j)
    {
      FolderRowShaped(gs, items, isSubdir, j);
    }
    assert Linked(items);
    forall i, j | 0 <= i < j < |items| && items[i].isFolder && items[j].isFolder
      ensures Less(items[i].path, items[j].path, rank)
    {
      FolderRowsAscend(gs, items, rank, isSubdir, i, j);
    }
  }
}
