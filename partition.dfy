/**
 * The group partitioner of `processPDF`: pages 1..totalPages are dealt out,
 * in order, into at most `splitCount` contiguous groups whose sizes differ by
 * at most one, the larger groups first; groups that receive no page are
 * dropped.
 */
module Partition {
  import opened Common

  /** The integers lo, lo + 1, ..., hi - 1. */
  function Range(lo: int, hi: int): (r: seq<int>)
    ensures |r| == if lo <= hi then hi - lo else 0
    ensures forall k :: 0 <= k < |r| ==> r[k] == lo + k
    decreases hi - lo
  {
    if lo >= hi then [] else [lo] + Range(lo + 1, hi)
  }

  /** The groups laid end to end. */
  function Concat(groups: seq<seq<int>>): seq<int> {
    if groups == [] then [] else Concat(groups[..|groups| - 1]) + groups[|groups| - 1]
  }

  /** The even share and the number of leading groups that get one page more. */
  datatype Shares = Shares(base: nat, extra: nat)

  /**
   * `Math.floor(totalPages / splitCount)` and `totalPages % splitCount`. When
   * `splitCount` is 0 JavaScript yields non-finite values here, which the
   * loop (running zero times) never reads; the model uses 0.
   */
  function SharesOf(totalPages: nat, splitCount: nat): Shares {
    if splitCount == 0 then Shares(0, 0) else Shares(totalPages / splitCount, totalPages % splitCount)
  }

  /** The shares add up: `splitCount` even shares plus the extra pages make `totalPages`. */
  lemma SharesAddUp(totalPages: nat, splitCount: nat)
    requires splitCount > 0
    ensures var sh := SharesOf(totalPages, splitCount);
            splitCount * sh.base + sh.extra == totalPages && sh.extra < splitCount
  {
  }

  /** The number of pages requested for group `i` (the `count` of the outer loop). */
  function GroupSize(sh: Shares, i: nat): nat {
    sh.base + (if i < sh.extra then 1 else 0)
  }

  /** How many pages the groups before group `i` hold. */
  function GroupStart(sh: Shares, i: nat): nat {
    if i == 0 then 0 else GroupStart(sh, i - 1) + GroupSize(sh, i - 1)
  }

  /** The pages of group `i`. */
  function Group(sh: Shares, i: nat): seq<int> {
    Range(GroupStart(sh, i) + 1, GroupStart(sh, i) + 1 + GroupSize(sh, i))
  }

  /** Group `i` starts after `i` even shares and one extra page per earlier larger group. */
  lemma {:induction false} GroupStartClosedForm(sh: Shares, i: nat)
    ensures GroupStart(sh, i) == i * sh.base + Min(i, sh.extra)
  {
    if i > 0 {
      GroupStartClosedForm(sh, i - 1);
      assert i * sh.base == (i - 1) * sh.base + sh.base;
    }
  }

  lemma MulMono(i: nat, n: nat, b: nat)
    requires i <= n
    ensures i * b <= n * b
  {
    assert n * b - i * b == (n - i) * b;
  }

  /** Every requested group ends within the document; together they hold every page. */
  lemma GroupStartBound(totalPages: nat, splitCount: nat, i: nat)
    requires i <= splitCount
    ensures GroupStart(SharesOf(totalPages, splitCount), i) <= totalPages
    ensures 0 < i == splitCount ==> GroupStart(SharesOf(totalPages, splitCount), i) == totalPages
  {
    var sh := SharesOf(totalPages, splitCount);
    GroupStartClosedForm(sh, i);
    MulMono(i, splitCount, sh.base);
    if splitCount > 0 {
      SharesAddUp(totalPages, splitCount);
    }
  }

  /** A requested group is empty exactly when more groups were asked for than there are pages. */
  lemma NonEmptyGroups(totalPages: nat, splitCount: nat, i: nat)
    requires i < splitCount
    ensures GroupSize(SharesOf(totalPages, splitCount), i) > 0 <==> i < totalPages
  {
    var sh := SharesOf(totalPages, splitCount);
    SharesAddUp(totalPages, splitCount);
    if sh.base > 0 {
      MulMono(1, sh.base, splitCount);
    }
  }

  lemma RangeSnoc(lo: int, hi: int)
    requires lo <= hi
    ensures Range(lo, hi) + [hi] == Range(lo, hi + 1)
  {
    var a, b := Range(lo, hi) + [hi], Range(lo, hi + 1);
    assert forall k :: 0 <= k < |a| ==> a[k] == lo + k == b[k];
  }

  lemma RangeSplit(lo: int, mid: int, hi: int)
    requires lo <= mid <= hi
    ensures Range(lo, mid) + Range(mid, hi) == Range(lo, hi)
  {
  }

  /** Groups 0..m-1 in order. */
  function AllGroups(sh: Shares, m: nat): (gs: seq<seq<int>>)
    ensures |gs| == m
  {
    if m == 0 then [] else AllGroups(sh, m - 1) + [Group(sh, m - 1)]
  }

  lemma {:induction false} AllGroupsAt(sh: Shares, m: nat, g: nat)
    requires g < m
    ensures AllGroups(sh, m)[g] == Group(sh, g)
  {
    if g < m - 1 {
      AllGroupsAt(sh, m - 1, g);
    }
  }

  /** The partition of pages 1..totalPages into the kept groups. */
  function Groups(totalPages: nat, splitCount: nat): seq<seq<int>> {
    AllGroups(SharesOf(totalPages, splitCount), Min(splitCount, totalPages))
  }

  /** The first `m` groups laid end to end are pages 1..GroupStart(m). */
  lemma {:induction false} ConcatAllGroups(sh: Shares, m: nat)
    ensures Concat(AllGroups(sh, m)) == Range(1, GroupStart(sh, m) + 1)
  {
    if m > 0 {
      ConcatAllGroups(sh, m - 1);
      var gs := AllGroups(sh, m);
      var mid, hi := GroupStart(sh, m - 1) + 1, GroupStart(sh, m) + 1;
      assert gs[..m - 1] == AllGroups(sh, m - 1);
      assert gs[m - 1] == Range(mid, hi);
      assert Concat(gs) == Range(1, mid) + Range(mid, hi);
      RangeSplit(1, mid, hi);
    }
  }

  /** The kept groups are the first Min(splitCount, totalPages) requested ones, and they hold every page. */
  lemma KeptGroupsCover(totalPages: nat, splitCount: nat)
    requires splitCount > 0
    ensures GroupStart(SharesOf(totalPages, splitCount), Min(splitCount, totalPages)) == totalPages
  {
    var sh := SharesOf(totalPages, splitCount);
    if totalPages < splitCount {
      SharesAddUp(totalPages, splitCount);
      if sh.base > 0 {
        MulMono(1, sh.base, splitCount);
      }
      GroupStartClosedForm(sh, totalPages);
    } else {
      GroupStartBound(totalPages, splitCount, splitCount);
    }
  }

  /** With at least one group requested, the partition holds pages 1..totalPages in order. */
  lemma GroupsCoverPages(totalPages: nat, splitCount: nat)
    requires splitCount > 0
    ensures Concat(Groups(totalPages, splitCount)) == Range(1, totalPages + 1)
  {
    ConcatAllGroups(SharesOf(totalPages, splitCount), Min(splitCount, totalPages));
    KeptGroupsCover(totalPages, splitCount);
  }

  /** What the partition loop has built once it has handled the first `i` requested groups. */
  predicate BuiltUpTo(totalPages: nat, sh: Shares, i: nat, groups: seq<seq<int>>, currentPage: int) {
    && currentPage == GroupStart(sh, i) + 1
    && |groups| == Min(i, totalPages)
    && groups == AllGroups(sh, |groups|)
  }

  /** Handling group `i` (keeping it only when it received a page) extends what was built. */
  lemma BuildStep(totalPages: nat, splitCount: nat, i: nat, groups: seq<seq<int>>, first: int, next: int)
    requires i < splitCount
    requires BuiltUpTo(totalPages, SharesOf(totalPages, splitCount), i, groups, first)
    requires next == first + GroupSize(SharesOf(totalPages, splitCount), i)
    ensures next <= totalPages + 1
    ensures BuiltUpTo(totalPages, SharesOf(totalPages, splitCount), i + 1,
                      if next > first then groups + [Range(first, next)] else groups, next)
  {
    GroupStartBound(totalPages, splitCount, i + 1);
    NonEmptyGroups(totalPages, splitCount, i);
  }

  /** Once every requested group is handled, the kept groups are the partition. */
  lemma BuildDone(totalPages: nat, splitCount: nat, groups: seq<seq<int>>, currentPage: int)
    requires BuiltUpTo(totalPages, SharesOf(totalPages, splitCount), splitCount, groups, currentPage)
    ensures forall g :: 0 <= g < |groups| ==> groups[g] == Group(SharesOf(totalPages, splitCount), g)
    ensures forall g :: 0 <= g < |groups| ==> |groups[g]| == GroupSize(SharesOf(totalPages, splitCount), g) > 0
    ensures splitCount > 0 ==> Concat(groups) == Range(1, totalPages + 1)
  {
    assert groups == Groups(totalPages, splitCount);
    forall g | 0 <= g < |groups|
      ensures groups[g] == Group(SharesOf(totalPages, splitCount), g)
      ensures |groups[g]| == GroupSize(SharesOf(totalPages, splitCount), g) > 0
    {
      GroupsAt(totalPages, splitCount, g);
    }
    if splitCount > 0 {
      GroupsCoverPages(totalPages, splitCount);
    }
  }

  /** Kept group g is requested group g, and it holds a page. */
  lemma GroupsAt(totalPages: nat, splitCount: nat, g: nat)
    requires g < Min(splitCount, totalPages)
    ensures |Groups(totalPages, splitCount)| == Min(splitCount, totalPages)
    ensures Groups(totalPages, splitCount)[g] == Group(SharesOf(totalPages, splitCount), g)
    ensures |Group(SharesOf(totalPages, splitCount), g)| == GroupSize(SharesOf(totalPages, splitCount), g) > 0
  {
    AllGroupsAt(SharesOf(totalPages, splitCount), Min(splitCount, totalPages), g);
    NonEmptyGroups(totalPages, splitCount, g);
  }

  /**
   * The partition loop of `processPDF`: `count` pages are requested for each
   * of the `splitCount` groups, a page is taken only while one is left, and a
   * group is kept only if it received a page.
   */
  method PartitionPages(totalPages: nat, splitCount: nat) returns (groups: seq<seq<int>>)
    ensures groups == Groups(totalPages, splitCount)
    ensures |groups| == Min(splitCount, totalPages)
    ensures forall i :: 0 <= i < |groups| ==> groups[i] == Group(SharesOf(totalPages, splitCount), i)
    ensures forall i :: 0 <= i < |groups| ==> |groups[i]| == GroupSize(SharesOf(totalPages, splitCount), i) > 0
    ensures splitCount > 0 ==> Concat(groups) == Range(1, totalPages + 1)
  {
    var shares := SharesOf(totalPages, splitCount);
    var basePagesPerGroup, extraPages := shares.base, shares.extra;
    groups := [];
    var currentPage := 1;
    var i := 0;
    while i < splitCount
      invariant i <= splitCount
      invariant BuiltUpTo(totalPages, shares, i, groups, currentPage)
    {
      var count := basePagesPerGroup + (if i < extraPages then 1 else 0);
      BuildStep(totalPages, splitCount, i, groups, currentPage, currentPage + count);
      var first := currentPage;
      var group: seq<int> := [];
      var j := 0;
      while j < count
        invariant 0 <= j <= count
        invariant currentPage == first + j
        invariant group == Range(first, currentPage)
      {
        if currentPage <= totalPages {
          RangeSnoc(first, currentPage);
          group := group + [currentPage];
          currentPage := currentPage + 1;
        }
        j := j + 1;
      }
      if |group| > 0 {
        groups := groups + [group];
      }
      i := i + 1;
    }
    BuildDone(totalPages, splitCount, groups, currentPage);
  }

  /**
   * Sizes of the kept groups: each is the even share or one more, any two
   * differ by at most one, and a group is never smaller than a later one.
   */
  lemma BalancedSizes(totalPages: nat, splitCount: nat, i: nat, j: nat)
    requires i <= j < Min(splitCount, totalPages)
    ensures totalPages / splitCount <= GroupSize(SharesOf(totalPages, splitCount), j)
    ensures GroupSize(SharesOf(totalPages, splitCount), i) <= totalPages / splitCount + 1
    ensures GroupSize(SharesOf(totalPages, splitCount), j) <= GroupSize(SharesOf(totalPages, splitCount), i)
    ensures GroupSize(SharesOf(totalPages, splitCount), i) <= GroupSize(SharesOf(totalPages, splitCount), j) + 1
  {
  }
}
