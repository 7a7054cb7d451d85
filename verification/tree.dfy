/**
 * The list-as-tree encoding shared by both panels: each row carries the index of its
 * parent row (or -1 for a root row) and an expansion flag. This module holds the
 * strict ancestor chain, the `is_child` walk, the two visibility filters and the
 * indent-depth walk, all over the projection of a row to its `Link`.
 */
module Tree {

  /** The part of a row the tree logic reads: parent index (-1 for a root) and expansion. */
  datatype Link = Link(parent: int, expanded: bool)

  /** Every row's parent is -1 or a row placed before it. */
  ghost predicate ParentsPrecede(ls: seq<Link>) {
    forall i :: 0 <= i < |ls| ==> ls[i].parent == -1 || 0 <= ls[i].parent < i
  }

  /** The strict ancestors of row `i`: its parent, the parent's parent, and so on. */
  function Ancestors(ls: seq<Link>, i: int): (r: set<int>)
    requires ParentsPrecede(ls) && 0 <= i < |ls|
    ensures forall a :: a in r ==> 0 <= a < i
    decreases i
  {
    var p := ls[i].parent;
    if p == -1 then {} else {p} + Ancestors(ls, p)
  }

  /** Every strict ancestor of row `k` is expanded. */
  ghost predicate Visible(ls: seq<Link>, k: int)
    requires ParentsPrecede(ls) && 0 <= k < |ls|
  {
    forall a :: a in Ancestors(ls, k) ==> ls[a].expanded
  }

  /** The parent walk of `is_child`, started at row `j` (or at -1). */
  function ChainHits(ls: seq<Link>, j: int, p: int): bool
    requires ParentsPrecede(ls) && -1 <= j < |ls|
    decreases j + 1
  {
    if j == -1 then false
    else if j == p then true
    else ChainHits(ls, ls[j].parent, p)
  }

  /** `is_child(items, i, p)`: walk up from `i`'s parent until `p` or the root. */
  function IsChild(ls: seq<Link>, i: int, p: int): bool
    requires ParentsPrecede(ls) && 0 <= i < |ls|
  {
    ChainHits(ls, ls[i].parent, p)
  }

  lemma {:induction false} ChainHitsAncestor(ls: seq<Link>, j: int, p: int)
    requires ParentsPrecede(ls) && -1 <= j < |ls|
    ensures ChainHits(ls, j, p) <==> j != -1 && (p == j || p in Ancestors(ls, j))
    decreases j + 1
  {
    if j != -1 && j != p {
      ChainHitsAncestor(ls, ls[j].parent, p);
    }
  }

  /** `is_child(items, i, p)` holds exactly when `p` is on `i`'s strict parent chain. */
  lemma {:induction false} IsChildIffAncestor(ls: seq<Link>, i: int, p: int)
    requires ParentsPrecede(ls) && 0 <= i < |ls|
    ensures IsChild(ls, i, p) <==> p in Ancestors(ls, i)
  {
    ChainHitsAncestor(ls, ls[i].parent, p);
  }

  /** The strict ancestor relation is transitive. */
  lemma {:induction false} AncestorTransitive(ls: seq<Link>, i: int, a: int, b: int)
    requires ParentsPrecede(ls) && 0 <= i < |ls|
    requires a in Ancestors(ls, i) && b in Ancestors(ls, a)
    ensures b in Ancestors(ls, i)
    decreases i
  {
    var p := ls[i].parent;
    if a != p {
      AncestorTransitive(ls, p, a, b);
    }
  }

  /** The chain from row `j` inclusive (empty for -1). */
  function ChainFrom(ls: seq<Link>, j: int): (r: set<int>)
    requires ParentsPrecede(ls) && -1 <= j < |ls|
  {
    if j == -1 then {} else {j} + Ancestors(ls, j)
  }

  /**
   * `filter_items` of the Texture Locator list: the display order is the identity and a
   * row keeps `bitflag` exactly when every strict ancestor is expanded, 0 otherwise.
   */
  method FilterItems(ls: seq<Link>, bitflag: bv32) returns (flags: seq<bv32>, order: seq<int>)
    requires ParentsPrecede(ls)
    ensures |order| == |ls| && forall n :: 0 <= n < |ls| ==> order[n] == n
    ensures |flags| == |ls|
    ensures forall k :: 0 <= k < |ls| ==> flags[k] == if Visible(ls, k) then bitflag else 0
    ensures forall k :: 0 <= k < |ls| && ls[k].parent == -1 ==> flags[k] == bitflag
  {
    order := seq(|ls|, n => n);
    flags := seq(|ls|, _ => 0);
    var index := 0;
    while index < |ls|
      invariant 0 <= index <= |ls| && |flags| == |ls|
      invariant forall k :: 0 <= k < index ==> flags[k] == if Visible(ls, k) then bitflag else 0
    {
      var show := bitflag;
      var p := ls[index].parent;
      while p != -1
        invariant -1 <= p < index
        invariant show == bitflag
        invariant Visible(ls, index) <==> forall a :: a in ChainFrom(ls, p) ==> ls[a].expanded
      {
        if !ls[p].expanded {
          show := 0;
          break;
        }
        p := ls[p].parent;
      }
      flags := flags[index := show];
      index := index + 1;
    }
  }

  /**
   * `filter_items` of the utilities panel: every flag starts at `bitflag`, `show` is the
   * conjunction of the expansion flags up the whole chain, and the flag is masked with
   * `~(0 if show else bitflag)`.
   */
  method FilterItemsMasked(ls: seq<Link>, bitflag: bv32) returns (flags: seq<bv32>, order: seq<int>)
    requires ParentsPrecede(ls)
    ensures |order| == |ls| && forall n :: 0 <= n < |ls| ==> order[n] == n
    ensures |flags| == |ls|
    ensures forall k :: 0 <= k < |ls| ==> flags[k] == if Visible(ls, k) then bitflag else 0
  {
    order := seq(|ls|, n => n);
    flags := seq(|ls|, _ => bitflag);
    var index := 0;
    while index < |ls|
      invariant 0 <= index <= |ls| && |flags| == |ls|
      invariant forall k :: 0 <= k < index ==> flags[k] == if Visible(ls, k) then bitflag else 0
      invariant forall k :: index <= k < |ls| ==> flags[k] == bitflag
    {
      var show := true;
      var p := ls[index].parent;
      while p != -1
        invariant -1 <= p < index
        invariant Visible(ls, index) <==> show && forall a :: a in ChainFrom(ls, p) ==> ls[a].expanded
      {
        show := show && ls[p].expanded;
        p := ls[p].parent;
      }
      flags := flags[index := Mask(flags[index], show, bitflag)];
      index := index + 1;
    }
  }

  /** `flag & ~(0 if show else bitflag)`: keeps a shown row's flag and clears a hidden one's. */
  function Mask(flag: bv32, show: bool, bitflag: bv32): (r: bv32)
    ensures flag == bitflag ==> r == if show then bitflag else 0
  {
    flag & !(if show then 0 else bitflag)
  }

  /** The indent loop of the panel's `draw_item`: one step per parent link. */
  method IndentDepth(ls: seq<Link>, k: int) returns (indent: nat)
    requires ParentsPrecede(ls) && 0 <= k < |ls|
    ensures indent == |Ancestors(ls, k)|
  {
    indent := 0;
    var p := ls[k].parent;
    while p != -1
      invariant -1 <= p < k
      invariant indent + |ChainFrom(ls, p)| == |Ancestors(ls, k)|
    {
      assert p !in Ancestors(ls, p);
      indent := indent + 1;
      p := ls[p].parent;
    }
  }

  /**
   * The end of the run that Change Folder and Select visit: the rows from `n` on are
   * taken while `is_child(items, n, p)` holds, stopping at the first that fails.
   */
  function RunEnd(ls: seq<Link>, p: int, n: int): (e: int)
    requires ParentsPrecede(ls) && 0 <= p < n <= |ls|
    ensures n <= e <= |ls|
    ensures forall j :: n <= j < e ==> IsChild(ls, j, p)
    ensures e < |ls| ==> !IsChild(ls, e, p)
    decreases |ls| - n
  {
    if n == |ls| || !IsChild(ls, n, p) then n else RunEnd(ls, p, n + 1)
  }

  /** Inside the run, a row that is still a descendant is not its end, and one that is not ends it. */
  lemma RunStep(ls: seq<Link>, p: int, n: int, e: int, child: bool)
    requires ParentsPrecede(ls) && 0 <= p < n < |ls| && e == RunEnd(ls, p, p + 1) && n <= e
    requires child == IsChild(ls, n, p)
    ensures child ==> n < e
    ensures !child ==> n == e
  {
  }
}
