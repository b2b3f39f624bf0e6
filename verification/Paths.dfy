// Selected columns of a query: sorted leaf paths of a schema tree.
//
// A column is the path of node signatures from below the root to a leaf.  The node at level L of a
// path p (levels count the root as 0) is p[L-1].  A set of paths sorted as SchemaPath sorts them is a
// preorder walk of the selected part of the schema, so a schema node at level L is a maximal run of
// columns that share their first L signatures: `Group`.

module Paths {

  type Sign = nat
  type Path = seq<Sign>

  /** Length of the longest common prefix: the level of the lowest common ancestor. */
  function Lcp(p: Path, q: Path): (k: nat)
    ensures k <= |p| && k <= |q|
  {
    if p == [] || q == [] || p[0] != q[0] then 0 else 1 + Lcp(p[1..], q[1..])
  }

  lemma LcpPrefix(p: Path, q: Path)
    ensures p[..Lcp(p, q)] == q[..Lcp(p, q)]
    ensures Lcp(p, q) < |p| && Lcp(p, q) < |q| ==> p[Lcp(p, q)] != q[Lcp(p, q)]
  {
    if !(p == [] || q == [] || p[0] != q[0]) {
      LcpPrefix(p[1..], q[1..]);
      var k := Lcp(p[1..], q[1..]);
      assert p[..k + 1] == [p[0]] + p[1..][..k];
      assert q[..k + 1] == [q[0]] + q[1..][..k];
    }
  }

  /** The defining property of `Lcp` fixes it. */
  lemma LcpUnique(p: Path, q: Path, k: nat)
    requires k <= |p| && k <= |q| && p[..k] == q[..k]
    requires k < |p| && k < |q| ==> p[k] != q[k]
    ensures Lcp(p, q) == k
  {
    var l := Lcp(p, q);
    LcpPrefix(p, q);
    assert forall i :: 0 <= i < k ==> p[i] == p[..k][i] == q[i];
    assert forall i :: 0 <= i < l ==> p[i] == p[..l][i] == q[i];
  }

  /** A common prefix of length L bounds the longest one from below. */
  lemma LcpAtLeast(p: Path, q: Path, L: nat)
    requires L <= |p| && L <= |q| && p[..L] == q[..L]
    ensures Lcp(p, q) >= L
  {
    LcpPrefix(p, q);
    assert forall i :: 0 <= i < L ==> p[i] == p[..L][i] == q[i];
  }

  /** Strict order on leaf paths: the first difference decides, and neither is a prefix of the other. */
  predicate Less(p: Path, q: Path) {
    var k := Lcp(p, q);
    k < |p| && k < |q| && p[k] < q[k]
  }

  /** Selected columns and the repeated (array) nodes of the schema. */
  datatype Plan = Plan(paths: seq<Path>, rept: set<Sign>) {

    ghost predicate Valid() {
      forall i, j :: 0 <= i < j < |paths| ==> Less(paths[i], paths[j])
    }

    /** Deepest repeated level of path `p` that is at most `L`; 0 when there is none. */
    function ReptLevel(p: Path, L: nat): (r: nat)
      requires L <= |p|
      ensures r <= L
    {
      if L == 0 || p[L - 1] in rept then L else ReptLevel(p, L - 1)
    }

    /** Level of the lowest common ancestor of two columns. */
    function Same(i: nat, j: nat): nat
      requires i < |paths| && j < |paths|
    {
      Lcp(paths[i], paths[j])
    }

    /** Level shared with the column to the left. */
    function Left(c: nat): nat
      requires 0 < c < |paths|
    {
      Same(c - 1, c)
    }

    /** Lowest repeated ancestor-or-self that two columns share. */
    function Common(i: nat, j: nat): nat
      requires i < |paths| && j < |paths|
    {
      ReptLevel(paths[i], Same(i, j))
    }

    /** Common repetition level with the next column; 0 behind the last column. */
    function Barrier(c: nat): nat
      requires c < |paths|
    {
      if c + 1 < |paths| then Common(c, c + 1) else 0
    }

    /** Columns [lo, hi) share their first L signatures. */
    ghost predicate Shares(L: nat, lo: nat, hi: nat) {
      && lo < hi <= |paths|
      && L <= |paths[lo]|
      && forall c :: lo <= c < hi ==> L <= |paths[c]| && paths[c][..L] == paths[lo][..L]
    }

    /** Columns [lo, hi) are all the columns below one schema node at level L. */
    ghost predicate Group(L: nat, lo: nat, hi: nat) {
      && Shares(L, lo, hi)
      && (lo > 0 ==> Left(lo) < L)
      && (hi < |paths| ==> Left(hi) < L)
    }

    /** Columns [c, hi) are the last columns below a schema node at level L, from one of its children on. */
    ghost predicate GroupTail(L: nat, c: nat, hi: nat) {
      && Shares(L, c, hi)
      && (c > 0 ==> Left(c) <= L)
      && (hi < |paths| ==> Left(hi) < L)
    }

    /** First column of the schema node that column c's path has at level r. */
    function First(c: nat, r: nat): (f: nat)
      requires c < |paths|
      ensures f <= c
      decreases c
    {
      FirstFrom(c, c, r)
    }

    function FirstFrom(c: nat, f: nat, r: nat): (g: nat)
      requires f <= c < |paths|
      ensures g <= f
    {
      if f > 0 && Common(f - 1, c) >= r then FirstFrom(c, f - 1, r) else f
    }

    /** Repetition values that can follow an item of column c: 0, or the level of an array on its path. */
    predicate Jumps(c: nat, r: nat)
      requires c < |paths|
    {
      r == 0 || (r <= |paths[c]| && paths[c][r - 1] in rept)
    }

    /** The transition of the column state machine; -1 where it has none. */
    function Next(c: nat, r: nat): int
      requires c < |paths|
    {
      if !Jumps(c, r) then -1
      else if r <= Barrier(c) then c + 1
      else First(c, r)
    }

    // ---- Facts about repeated levels ----

    /** `ReptLevel` is the deepest array level within the first L levels. */
    lemma ReptLevelDeepest(p: Path, L: nat)
      requires L <= |p|
      ensures var r := ReptLevel(p, L); r > 0 ==> p[r - 1] in rept
      ensures forall k :: ReptLevel(p, L) <= k < L ==> p[k] !in rept
    {
    }

    lemma ReptLevelMono(p: Path, K: nat, L: nat)
      requires K <= L <= |p|
      ensures ReptLevel(p, K) <= ReptLevel(p, L)
    {
    }

    lemma ReptLevelPrefix(p: Path, q: Path, L: nat)
      requires L <= |p| && L <= |q| && p[..L] == q[..L]
      ensures ReptLevel(p, L) == ReptLevel(q, L)
    {
      if L > 0 {
        assert p[L - 1] == p[..L][L - 1] == q[L - 1];
        assert p[..L - 1] == p[..L][..L - 1] == q[..L - 1];
        ReptLevelPrefix(p, q, L - 1);
      }
    }

    // ---- Facts about common ancestors ----

    /** Neighbour-minimum law: on sorted columns the ancestor level of the outer two is the lesser of
        the two inner ones. */
    lemma SameMin(i: nat, j: nat, k: nat)
      requires Valid() && i <= j <= k < |paths|
      ensures Same(i, k) == if Same(i, j) < Same(j, k) then Same(i, j) else Same(j, k)
    {
      var p, q, r := paths[i], paths[j], paths[k];
      LcpPrefix(p, q);
      LcpPrefix(q, r);
      if i == j { LcpUnique(p, p, |p|); }
      if j == k { LcpUnique(q, q, |q|); }
      if i < j < k {
        var a, b := Lcp(p, q), Lcp(q, r);
        var m := if a < b then a else b;
        assert Less(p, q) && Less(q, r);
        assert p[..m] == p[..a][..m] == q[..m] == q[..b][..m] == r[..m];
        if a < b { assert q[a] == q[..b][a] == r[a]; }
        if b < a { assert q[b] == q[..a][b] == p[b]; }
        LcpUnique(p, r, m);
      }
    }

    lemma CommonMin(i: nat, j: nat, k: nat)
      requires Valid() && i <= j <= k < |paths|
      ensures Common(i, k) == if Common(i, j) < Common(j, k) then Common(i, j) else Common(j, k)
    {
      SameMin(i, j, k);
      LcpPrefix(paths[i], paths[j]);
      var a, b := Same(i, j), Same(j, k);
      if b <= a {
        assert paths[i][..b] == paths[i][..a][..b] == paths[j][..a][..b] == paths[j][..b];
        ReptLevelPrefix(paths[i], paths[j], b);
        ReptLevelMono(paths[i], b, a);
      } else {
        assert paths[j][..a] == paths[i][..a];
        ReptLevelPrefix(paths[i], paths[j], a);
        ReptLevelMono(paths[j], a, b);
      }
    }

    lemma SameSelf(c: nat)
      requires c < |paths|
      ensures Same(c, c) == |paths[c]|
    {
      LcpUnique(paths[c], paths[c], |paths[c]|);
    }

    // ---- Groups ----

    lemma SharesSame(L: nat, lo: nat, hi: nat, i: nat, j: nat)
      requires Shares(L, lo, hi) && lo <= i < hi && lo <= j < hi
      ensures Same(i, j) >= L
    {
      LcpAtLeast(paths[i], paths[j], L);
    }

    /** Columns in front of a group share less than its level with every column of it. */
    lemma GroupFront(L: nat, lo: nat, hi: nat, f: nat, c: nat)
      requires Valid() && Group(L, lo, hi) && f < lo <= c < hi
      ensures Same(f, c) < L
    {
      SameMin(f, lo - 1, lo);
      SameMin(f, lo, c);
    }

    /** One past the last column of the group at level L that starts at column lo. */
    function GroupEnd(L: nat, lo: nat): (hi: nat)
      requires lo < |paths|
      ensures lo < hi <= |paths|
      decreases |paths| - lo
    {
      if lo + 1 < |paths| && Left(lo + 1) >= L then GroupEnd(L, lo + 1) else lo + 1
    }

    lemma GroupEndBounds(L: nat, lo: nat)
      requires lo < |paths|
      ensures var hi := GroupEnd(L, lo);
              && (hi < |paths| ==> Left(hi) < L)
              && forall c :: lo < c < hi ==> Left(c) >= L
      decreases |paths| - lo
    {
    }

    lemma GroupEndPrefix(L: nat, lo: nat, hi: nat, c: nat)
      requires lo < |paths| && L <= |paths[lo]| && hi == GroupEnd(L, lo) && lo <= c < hi
      ensures L <= |paths[c]| && paths[c][..L] == paths[lo][..L]
    {
      if c > lo {
        GroupEndPrefix(L, lo, hi, c - 1);
        GroupEndBounds(L, lo);
        LcpPrefix(paths[c - 1], paths[c]);
        var k := Left(c);
        assert paths[c][..L] == paths[c][..k][..L] == paths[c - 1][..k][..L] == paths[c - 1][..L];
      }
    }

    lemma GroupEndIsGroup(L: nat, lo: nat)
      requires lo < |paths| && L <= |paths[lo]|
      requires lo > 0 ==> Left(lo) < L
      ensures Group(L, lo, GroupEnd(L, lo))
    {
      var hi := GroupEnd(L, lo);
      GroupEndBounds(L, lo);
      forall c | lo <= c < hi
        ensures L <= |paths[c]| && paths[c][..L] == paths[lo][..L]
      {
        GroupEndPrefix(L, lo, hi, c);
      }
    }

    /** A group reaches exactly to the end that `GroupEnd` computes. */
    lemma GroupEndsAt(L: nat, lo: nat, hi: nat)
      requires Valid() && Group(L, lo, hi)
      ensures GroupEnd(L, lo) == hi
    {
      var e := GroupEnd(L, lo);
      GroupEndBounds(L, lo);
      SharesLeft(L, lo, hi, e);
    }

    lemma SharesLeft(L: nat, lo: nat, hi: nat, e: nat)
      requires Valid() && Shares(L, lo, hi)
      ensures lo < e < hi ==> Left(e) >= L
    {
      if lo < e < hi { SharesSame(L, lo, hi, e - 1, e); }
    }

    /** The root's group is the whole column list. */
    lemma RootGroup()
      requires |paths| > 0
      ensures Group(0, 0, |paths|)
    {
    }

    lemma GroupIsTail(L: nat, lo: nat, hi: nat)
      requires Group(L, lo, hi)
      ensures GroupTail(L, lo, hi)
    {
    }

    /** The columns of a group's tail split into its first child's group and a shorter tail. */
    lemma ChildGroup(L: nat, c: nat, hi: nat)
      requires GroupTail(L, c, hi) && |paths[c]| > L
      ensures Group(L + 1, c, GroupEnd(L + 1, c)) && GroupEnd(L + 1, c) <= hi
      ensures Shares(L, c, GroupEnd(L + 1, c))
      ensures GroupEnd(L + 1, c) < hi ==> Left(GroupEnd(L + 1, c)) == L && GroupTail(L, GroupEnd(L + 1, c), hi)
    {
      GroupEndIsGroup(L + 1, c);
      GroupEndBounds(L + 1, c);
      var e := GroupEnd(L + 1, c);
      if e < hi { SharesSame(L, c, hi, e - 1, e); }
    }

    /** A column whose path ends at level L is a group of its own. */
    lemma LeafGroup(L: nat, lo: nat, hi: nat)
      requires Valid() && Group(L, lo, hi) && |paths[lo]| == L
      ensures hi == lo + 1
    {
      assert lo + 1 < hi ==> Less(paths[lo], paths[lo + 1]);
      if lo + 1 < hi { SharesSame(L, lo, hi, lo, lo + 1); }
    }

    lemma InnerGroup(L: nat, lo: nat, hi: nat, c: nat)
      requires Valid() && Shares(L, lo, hi) && |paths[lo]| > L && lo <= c < hi
      ensures |paths[c]| > L
    {
      assert c > lo ==> Less(paths[lo], paths[c]);
      if c > lo { SharesSame(L, lo, hi, lo, c); }
    }

    lemma SharesNode(L: nat, lo: nat, hi: nat, c: nat, k: nat)
      requires Shares(L, lo, hi) && lo <= c < hi && k < L
      ensures k < |paths[c]| && k < |paths[lo]| && paths[c][k] == paths[lo][k]
    {
      assert paths[c][k] == paths[c][..L][k];
    }

    lemma SharesLess(L: nat, K: nat, lo: nat, hi: nat)
      requires Shares(L, lo, hi) && K <= L
      ensures Shares(K, lo, hi)
    {
      forall c | lo <= c < hi
        ensures paths[c][..K] == paths[lo][..K]
      {
        assert paths[c][..K] == paths[c][..L][..K];
      }
    }

    lemma SharesRept(L: nat, lo: nat, hi: nat, c: nat)
      requires Shares(L, lo, hi) && lo <= c < hi
      ensures ReptLevel(paths[c], L) == ReptLevel(paths[lo], L)
    {
      ReptLevelPrefix(paths[lo], paths[c], L);
    }

    /** Signatures grow from one child of a node to the next. */
    lemma ChildrenGrow(L: nat, c: nat, e: nat)
      requires Valid() && Group(L + 1, c, e) && e < |paths| && Left(e) == L
      ensures L < |paths[e]| && L < |paths[c]| && paths[c][L] < paths[e][L]
    {
      assert Less(paths[e - 1], paths[e]);
      SharesNode(L + 1, c, e, e - 1, L);
    }

    // ---- Transitions ----

    /** `First` is the least column that shares level r with c. */
    lemma FirstLeast(c: nat, r: nat)
      requires Valid() && c < |paths| && Common(c, c) >= r
      ensures Common(First(c, r), c) >= r
      ensures forall f :: 0 <= f < First(c, r) ==> Common(f, c) < r
    {
      FirstFromLeast(c, c, r);
    }

    lemma FirstFromLeast(c: nat, f: nat, r: nat)
      requires Valid() && f <= c < |paths| && Common(f, c) >= r
      ensures Common(FirstFrom(c, f, r), c) >= r
      ensures forall g :: 0 <= g < FirstFrom(c, f, r) ==> Common(g, c) < r
    {
      if f > 0 && Common(f - 1, c) >= r {
        FirstFromLeast(c, f - 1, r);
      } else if f > 0 {
        forall g | 0 <= g < f
          ensures Common(g, c) < r
        {
          CommonMin(g, f - 1, c);
        }
      }
    }

    /** A repetition value at or above the next column's common level moves on to that column. */
    lemma NextForward(c: nat, r: nat)
      requires c < |paths| && Jumps(c, r) && r <= Barrier(c)
      ensures Next(c, r) == c + 1
    {
    }

    /** Columns f and c lie below the same schema node at level r. */
    ghost predicate Below(f: nat, c: nat, r: nat) {
      f < |paths| && c < |paths| && r <= |paths[f]| && r <= |paths[c]| && paths[f][..r] == paths[c][..r]
    }

    lemma CommonMeans(f: nat, c: nat, r: nat)
      requires f < |paths| && c < |paths| && r > 0 && Jumps(c, r)
      ensures Common(f, c) >= r <==> Below(f, c, r)
      ensures Common(c, f) >= r <==> Below(f, c, r)
    {
      LcpPrefix(paths[f], paths[c]);
      LcpPrefix(paths[c], paths[f]);
      if Below(f, c, r) {
        LcpAtLeast(paths[f], paths[c], r);
        LcpAtLeast(paths[c], paths[f], r);
        assert paths[f][r - 1] == paths[f][..r][r - 1] == paths[c][..r][r - 1] == paths[c][r - 1];
        ReptLevelMono(paths[f], r, Same(f, c));
        ReptLevelMono(paths[c], r, Same(c, f));
      } else {
        PrefixPart(paths[f], paths[c], Same(f, c), r);
        PrefixPart(paths[f], paths[c], Same(c, f), r);
      }
    }

    lemma PrefixPart(p: Path, q: Path, k: nat, r: nat)
      requires k <= |p| && k <= |q| && p[..k] == q[..k]
      ensures r <= k ==> p[..r] == q[..r]
    {
      if r <= k { assert p[..r] == p[..k][..r] == q[..k][..r]; }
    }

    /** What a transition means in the schema: the next column when it lies below the same array, otherwise the
        first column below that array. */
    lemma NextMeans(c: nat, r: nat)
      requires Valid() && c < |paths| && Jumps(c, r)
      ensures Next(c, r) == c + 1 <==> r == 0 || Below(c + 1, c, r)
      ensures Next(c, r) != c + 1 ==>
                && 0 <= Next(c, r) <= c && Below(Next(c, r), c, r)
                && forall f: nat | f < Next(c, r) :: !Below(f, c, r)
    {
      if r > 0 {
        if c + 1 < |paths| {
          CommonMeans(c + 1, c, r);
        }
        CommonMeans(c, c, r);
        SameSelf(c);
        FirstLeast(c, r);
        forall f: nat | f <= c
          ensures Common(f, c) >= r <==> Below(f, c, r)
        {
          CommonMeans(f, c, r);
        }
      }
    }

    /** After the last column of an array's group, another element goes back to the group's first column. */
    lemma NextBack(L: nat, lo: nat, hi: nat)
      requires Valid() && Group(L, lo, hi) && L > 0 && paths[lo][L - 1] in rept
      ensures Next(hi - 1, L) == lo
      ensures Common(lo, hi - 1) >= L
    {
      var c := hi - 1;
      SharesSame(L, lo, hi, lo, c);
      SharesNode(L, lo, hi, c, L - 1);
      assert Barrier(c) < L;
      assert Common(lo, c) >= L by { ReptLevelMono(paths[lo], L, Same(lo, c)); }
      CommonMin(lo, c, c);
      FirstLeast(c, L);
      var f := First(c, L);
      if f < lo { GroupFront(L, lo, hi, f, c); }
      CommonMin(lo, f, c);
    }
  }
}
