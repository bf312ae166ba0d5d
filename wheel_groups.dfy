/**
 * Grouping of wheel polygons into wheels, as `mark_wheels_helper_get_wheels`
 * of m3d_to_wavefront_obj_operations.cpp does it: polygons that share a
 * vertex (directly or through a chain of such polygons) form one wheel.
 * Polygons are given by their vertex index lists, positions in that list
 * stand for the source's `face*` addresses.
 */
module WheelGroups {
  import opened Geometry
  import opened ObjToM3d

  /** `c3d::regular_model_vertices_per_polygon`: wheel polygons are quads. */
  const RegularVerticesPerPolygon: nat := 4

  /** Some vertex of `cmp` is also a vertex of `cur`. */
  predicate Shares(cur: seq<int>, cmp: seq<int>)
  {
    exists b :: 0 <= b < |cmp| && cmp[b] in cur
  }

  lemma SharesSymmetric(x: seq<int>, y: seq<int>)
    ensures Shares(x, y) <==> Shares(y, x)
  {
    if Shares(x, y) {
      var b :| 0 <= b < |y| && y[b] in x;
      var a :| 0 <= a < |x| && x[a] == y[b];
      assert x[a] in y;
    }
    if Shares(y, x) {
      var b :| 0 <= b < |x| && x[b] in y;
      var a :| 0 <= a < |y| && y[a] == x[b];
      assert y[a] in x;
    }
  }

  /** The shared-vertex test of the inner loop: each vertex of `cmp` is looked up in `cur`. */
  method SameVertex(cur: seq<int>, cmp: seq<int>) returns (same: bool)
    requires |cmp| == RegularVerticesPerPolygon
    ensures same <==> Shares(cur, cmp)
  {
    same := false;
    for k := 0 to RegularVerticesPerPolygon
      invariant forall b :: 0 <= b < k ==> cmp[b] !in cur
    {
      if cmp[k] in cur {
        same := true;
        return;
      }
    }
  }

  /**
   * `check_poly_in_group`: whether `x` is in some group, and the first such
   * group.
   */
  method PolyInGroup(groups: seq<seq<nat>>, x: nat) returns (inGroup: bool, groupNum: nat)
    ensures inGroup <==> exists a :: 0 <= a < |groups| && x in groups[a]
    ensures inGroup ==> groupNum < |groups| && x in groups[groupNum]
    ensures inGroup ==> forall a :: 0 <= a < groupNum ==> x !in groups[a]
  {
    inGroup, groupNum := false, 0;
    for a := 0 to |groups|
      invariant forall b :: 0 <= b < a ==> x !in groups[b]
    {
      if x in groups[a] {
        inGroup, groupNum := true, a;
        return;
      }
    }
  }

  /** Number of non-empty groups. */
  function NonEmpty(groups: seq<seq<nat>>): nat
  {
    if groups == [] then 0
    else NonEmpty(groups[..|groups| - 1]) + (if groups[|groups| - 1] != [] then 1 else 0)
  }

  function Ind(b: bool): nat { if b then 1 else 0 }

  lemma {:induction false} NonEmptyUpdate(groups: seq<seq<nat>>, a: nat, g: seq<nat>)
    requires a < |groups|
    ensures NonEmpty(groups[a := g]) + Ind(groups[a] != []) == NonEmpty(groups) + Ind(g != [])
  {
    var n := |groups| - 1;
    if a == n {
      assert groups[a := g][..n] == groups[..n];
    } else {
      NonEmptyUpdate(groups[..n], a, g);
      assert groups[a := g][..n] == groups[..n][a := g];
    }
  }

  lemma NonEmptyAppend(groups: seq<seq<nat>>, g: seq<nat>)
    ensures NonEmpty(groups + [g]) == NonEmpty(groups) + Ind(g != [])
  {
    assert (groups + [g])[..|groups|] == groups;
  }

  /*
   * Ghost bookkeeping of the grouping loop: `owner[p]` is the group that
   * holds polygon `p`, or -1.
   */

  ghost predicate Inv(groups: seq<seq<nat>>, owner: seq<int>, n: nat)
  {
    |owner| == n
    && (forall p :: 0 <= p < n ==> -1 <= owner[p] < |groups|)
    && (forall p :: 0 <= p < n && owner[p] >= 0 ==> p in groups[owner[p]])
    && (forall a, x :: 0 <= a < |groups| && 0 <= x < |groups[a]| ==>
          groups[a][x] < n && owner[groups[a][x]] == a)
    && (forall a, x, y :: 0 <= a < |groups| && 0 <= x < y < |groups[a]| ==>
          groups[a][x] != groups[a][y])
  }

  lemma OwnerFound(groups: seq<seq<nat>>, owner: seq<int>, n: nat, x: nat,
                   inGroup: bool, groupNum: nat)
    requires Inv(groups, owner, n) && x < n
    requires inGroup <==> exists a :: 0 <= a < |groups| && x in groups[a]
    requires inGroup ==> groupNum < |groups| && x in groups[groupNum]
    ensures inGroup <==> owner[x] >= 0
    ensures inGroup ==> groupNum == owner[x]
  {
    if inGroup {
      var y :| 0 <= y < |groups[groupNum]| && groups[groupNum][y] == x;
    }
    if owner[x] >= 0 {
      assert x in groups[owner[x]];
    }
  }

  /** Every group that held a polygon still holds it, together with the same partners. */
  ghost predicate Refines(owner: seq<int>, owner': seq<int>)
    requires |owner| == |owner'|
  {
    forall p, q :: 0 <= p < |owner| && 0 <= q < |owner| && owner[p] >= 0 && owner[p] == owner[q] ==>
      owner'[p] >= 0 && owner'[p] == owner'[q]
  }

  /** Processed polygons are grouped with every polygon they share a vertex with. */
  ghost predicate Closed(polys: seq<seq<int>>, owner: seq<int>, i: nat)
    requires |owner| == |polys| && i <= |polys|
  {
    (forall p :: 0 <= p < i ==> owner[p] >= 0)
    && (forall p, q :: 0 <= p < i && 0 <= q < |polys| && p != q && Shares(polys[p], polys[q]) ==>
          owner[p] >= 0 && owner[p] == owner[q])
  }

  /** Some other polygon shares a vertex with polygon `q`. */
  ghost predicate Connected(polys: seq<seq<int>>, q: nat)
    requires q < |polys|
  {
    exists p :: 0 <= p < |polys| && p != q && Shares(polys[p], polys[q])
  }

  /** Unprocessed polygons are only grouped when they have a neighbour. */
  ghost predicate Reached(polys: seq<seq<int>>, owner: seq<int>, i: nat)
    requires |owner| == |polys|
  {
    forall q :: i <= q < |polys| && owner[q] >= 0 ==> Connected(polys, q)
  }

  /** `path` walks from polygon to polygon, each step to one that shares a vertex with it. */
  ghost predicate Chain(polys: seq<seq<int>>, path: seq<nat>)
  {
    |path| > 0
    && (forall k :: 0 <= k < |path| ==> path[k] < |polys|)
    && (forall k :: 0 <= k < |path| - 1 ==> Shares(polys[path[k]], polys[path[k + 1]]))
  }

  /** Polygons `p` and `q` are connected through a chain of polygons sharing vertices. */
  ghost predicate Joined(polys: seq<seq<int>>, p: nat, q: nat)
  {
    exists path :: Chain(polys, path) && |path| > 0 && path[0] == p && path[|path| - 1] == q
  }

  /** Every two members of `group` are connected. */
  ghost predicate GroupJoined(polys: seq<seq<int>>, group: seq<nat>)
  {
    forall x, y :: 0 <= x < |group| && 0 <= y < |group| ==> Joined(polys, group[x], group[y])
  }

  /** Every member of a group is connected to the group's first member. */
  ghost predicate RootJoined(polys: seq<seq<int>>, groups: seq<seq<nat>>)
  {
    forall a, x :: 0 <= a < |groups| && 0 <= x < |groups[a]| ==> Joined(polys, groups[a][0], groups[a][x])
  }

  lemma JoinedSelf(polys: seq<seq<int>>, p: nat)
    requires p < |polys|
    ensures Joined(polys, p, p)
  {
    assert Chain(polys, [p]);
  }

  lemma JoinedEdge(polys: seq<seq<int>>, p: nat, q: nat)
    requires p < |polys| && q < |polys| && Shares(polys[p], polys[q])
    ensures Joined(polys, p, q)
  {
    var path: seq<nat> := [p, q];
    assert Chain(polys, path);
  }

  lemma JoinedSymmetric(polys: seq<seq<int>>, p: nat, q: nat)
    requires Joined(polys, p, q)
    ensures Joined(polys, q, p)
  {
    var path :| Chain(polys, path) && |path| > 0 && path[0] == p && path[|path| - 1] == q;
    var m := |path|;
    var rev: seq<nat> := seq(m, k requires 0 <= k < m => path[m - 1 - k]);
    forall k | 0 <= k < m - 1
      ensures Shares(polys[rev[k]], polys[rev[k + 1]])
    {
      assert Shares(polys[path[m - 2 - k]], polys[path[m - 1 - k]]);
      SharesSymmetric(polys[rev[k + 1]], polys[rev[k]]);
    }
    assert Chain(polys, rev);
  }

  lemma JoinedTransitive(polys: seq<seq<int>>, p: nat, q: nat, r: nat)
    requires Joined(polys, p, q) && Joined(polys, q, r)
    ensures Joined(polys, p, r)
  {
    var left :| Chain(polys, left) && |left| > 0 && left[0] == p && left[|left| - 1] == q;
    var right :| Chain(polys, right) && |right| > 0 && right[0] == q && right[|right| - 1] == r;
    var path := left + right[1..];
    forall k | 0 <= k < |path| - 1
      ensures Shares(polys[path[k]], polys[path[k + 1]])
    {
      if k < |left| - 1 {
        assert path[k] == left[k] && path[k + 1] == left[k + 1];
      } else {
        var t := k - (|left| - 1);
        assert path[k] == right[t] && path[k + 1] == right[t + 1];
      }
    }
    assert Chain(polys, path);
  }

  /** A polygon sharing a vertex with a member of group `a` joins it. */
  lemma RootJoinedAdd(polys: seq<seq<int>>, groups: seq<seq<nat>>, a: nat, w: nat, x: nat)
    requires RootJoined(polys, groups) && a < |groups| && w in groups[a]
    requires w < |polys| && x < |polys| && Shares(polys[w], polys[x])
    ensures RootJoined(polys, groups[a := groups[a] + [x]])
  {
    var groups' := groups[a := groups[a] + [x]];
    forall b, y | 0 <= b < |groups'| && 0 <= y < |groups'[b]|
      ensures Joined(polys, groups'[b][0], groups'[b][y])
    {
      if b == a {
        assert groups'[a][0] == groups[a][0];
        if y == |groups[a]| {
          var yw :| 0 <= yw < |groups[a]| && groups[a][yw] == w;
          assert Joined(polys, groups[a][0], groups[a][yw]);
          JoinedEdge(polys, w, x);
          JoinedTransitive(polys, groups[a][0], w, x);
        } else {
          assert groups'[a][y] == groups[a][y];
        }
      }
    }
  }

  /** Group `d` appended to group `c` through the sharing pair `i` in `c` and `j` in `d`. */
  lemma RootJoinedMerge(polys: seq<seq<int>>, groups: seq<seq<nat>>, c: nat, d: nat, i: nat, j: nat)
    requires RootJoined(polys, groups) && c < |groups| && d < |groups| && c != d
    requires i in groups[c] && j in groups[d]
    requires i < |polys| && j < |polys| && Shares(polys[i], polys[j])
    ensures RootJoined(polys, groups[c := groups[c] + groups[d]][d := []])
  {
    var groups' := groups[c := groups[c] + groups[d]][d := []];
    var yi :| 0 <= yi < |groups[c]| && groups[c][yi] == i;
    var yj :| 0 <= yj < |groups[d]| && groups[d][yj] == j;
    assert Joined(polys, groups[c][0], groups[c][yi]);
    assert Joined(polys, groups[d][0], groups[d][yj]);
    JoinedEdge(polys, i, j);
    JoinedSymmetric(polys, groups[d][0], j);
    JoinedTransitive(polys, groups[c][0], i, j);
    JoinedTransitive(polys, groups[c][0], j, groups[d][0]);
    forall b, y | 0 <= b < |groups'| && 0 <= y < |groups'[b]|
      ensures Joined(polys, groups'[b][0], groups'[b][y])
    {
      if b == c {
        assert groups'[c][0] == groups[c][0];
        if y < |groups[c]| {
          assert groups'[c][y] == groups[c][y];
        } else {
          var t := y - |groups[c]|;
          assert groups'[c][y] == groups[d][t];
          assert Joined(polys, groups[d][0], groups[d][t]);
          JoinedTransitive(polys, groups[c][0], groups[d][0], groups[d][t]);
        }
      }
    }
  }

  /** Appending a group whose members are connected to its first member. */
  lemma RootJoinedAppend(polys: seq<seq<int>>, groups: seq<seq<nat>>, g: seq<nat>)
    requires RootJoined(polys, groups)
    requires forall x :: 0 <= x < |g| ==> Joined(polys, g[0], g[x])
    ensures RootJoined(polys, groups + [g])
  {
    var groups' := groups + [g];
    forall b, y | 0 <= b < |groups'| && 0 <= y < |groups'[b]|
      ensures Joined(polys, groups'[b][0], groups'[b][y])
    {
      if b < |groups| {
        assert groups'[b] == groups[b];
      }
    }
  }

  /** A new group of one polygon. */
  lemma RootJoinedSingle(polys: seq<seq<int>>, groups: seq<seq<nat>>, i: nat)
    requires RootJoined(polys, groups) && i < |polys|
    ensures RootJoined(polys, groups + [[i]])
  {
    var g: seq<nat> := [i];
    JoinedSelf(polys, i);
    RootJoinedAppend(polys, groups, g);
  }

  /** A new group of two polygons sharing a vertex. */
  lemma RootJoinedPair(polys: seq<seq<int>>, groups: seq<seq<nat>>, i: nat, j: nat)
    requires RootJoined(polys, groups) && i < |polys| && j < |polys| && Shares(polys[i], polys[j])
    ensures RootJoined(polys, groups + [[i, j]])
  {
    var g: seq<nat> := [i, j];
    JoinedSelf(polys, i);
    JoinedEdge(polys, i, j);
    assert forall x :: 0 <= x < |g| ==> Joined(polys, g[0], g[x]);
    RootJoinedAppend(polys, groups, g);
  }

  ghost predicate Outer(polys: seq<seq<int>>, groups: seq<seq<nat>>, owner: seq<int>, count: nat, i: nat)
  {
    Inv(groups, owner, |polys|) && count == NonEmpty(groups) && i <= |polys|
    && Closed(polys, owner, i) && Reached(polys, owner, i) && RootJoined(polys, groups)
  }

  /** State of the inner loop of current polygon `i` after comparing polygons below `j`. */
  ghost predicate Inner(polys: seq<seq<int>>, groups: seq<seq<nat>>, owner: seq<int>, count: nat,
                        i: nat, j: nat, curIn: bool, curGroup: nat)
  {
    Outer(polys, groups, owner, count, i) && i < |polys|
    && (curIn <==> owner[i] >= 0) && (curIn ==> curGroup == owner[i])
    && (forall q :: 0 <= q < j && q < |polys| && q != i && Shares(polys[i], polys[q]) ==>
          owner[q] >= 0 && owner[q] == owner[i])
  }

  lemma ClosedRefines(polys: seq<seq<int>>, owner: seq<int>, owner': seq<int>, i: nat)
    requires |owner| == |polys| == |owner'| && i <= |polys|
    requires Closed(polys, owner, i) && Refines(owner, owner')
    ensures Closed(polys, owner', i)
  {
    forall p | 0 <= p < i
      ensures owner'[p] >= 0
    {
      assert owner[p] >= 0 && owner[p] == owner[p];
    }
    forall p, q | 0 <= p < i && 0 <= q < |polys| && p != q && Shares(polys[p], polys[q])
      ensures owner'[p] >= 0 && owner'[p] == owner'[q]
    {
      assert owner[p] >= 0 && owner[p] == owner[q];
    }
  }

  /** Adding polygon `x`, in no group yet, to group `a`. */
  lemma InvAdd(groups: seq<seq<nat>>, owner: seq<int>, n: nat, a: nat, x: nat)
    requires Inv(groups, owner, n) && a < |groups| && x < n && owner[x] == -1
    ensures Inv(groups[a := groups[a] + [x]], owner[x := a], n)
    ensures Refines(owner, owner[x := a])
    ensures NonEmpty(groups[a := groups[a] + [x]]) + Ind(groups[a] != []) == NonEmpty(groups) + 1
  {
    var groups' := groups[a := groups[a] + [x]];
    forall b, y | 0 <= b < |groups| && 0 <= y < |groups[b]|
      ensures groups[b][y] != x
    {
      assert owner[groups[b][y]] == b;
    }
    assert forall y :: 0 <= y < |groups[a]| ==> groups'[a][y] == groups[a][y];
    NonEmptyUpdate(groups, a, groups[a] + [x]);
  }

  function Rename(owner: seq<int>, d: int, c: int): (r: seq<int>)
    ensures |r| == |owner|
    ensures forall p :: 0 <= p < |owner| ==> r[p] == if owner[p] == d then c else owner[p]
  {
    seq(|owner|, p requires 0 <= p < |owner| => if owner[p] == d then c else owner[p])
  }

  /** Appending group `d` to group `c` and emptying `d`. */
  lemma InvMerge(groups: seq<seq<nat>>, owner: seq<int>, n: nat, c: nat, d: nat)
    requires Inv(groups, owner, n) && c < |groups| && d < |groups| && c != d
    requires groups[c] != [] && groups[d] != []
    ensures Inv(groups[c := groups[c] + groups[d]][d := []], Rename(owner, d, c), n)
    ensures Refines(owner, Rename(owner, d, c))
    ensures NonEmpty(groups[c := groups[c] + groups[d]][d := []]) + 1 == NonEmpty(groups)
  {
    var mid := groups[c := groups[c] + groups[d]];
    var groups' := mid[d := []];
    var owner' := Rename(owner, d, c);
    assert forall y :: 0 <= y < |groups[c]| ==> groups'[c][y] == groups[c][y];
    assert forall y :: 0 <= y < |groups[d]| ==> groups'[c][|groups[c]| + y] == groups[d][y];
    forall p | 0 <= p < n && owner'[p] >= 0
      ensures p in groups'[owner'[p]]
    {
      assert p in groups[owner[p]];
      if owner[p] == d {
        var y :| 0 <= y < |groups[d]| && groups[d][y] == p;
        assert groups'[c][|groups[c]| + y] == p;
      } else if owner[p] == c {
        var y :| 0 <= y < |groups[c]| && groups[c][y] == p;
        assert groups'[c][y] == p;
      }
    }
    forall x, y | 0 <= x < y < |groups'[c]|
      ensures groups'[c][x] != groups'[c][y]
    {
      if x < |groups[c]| && |groups[c]| <= y {
        assert owner[groups'[c][x]] == c && owner[groups'[c][y]] == d;
      }
    }
    NonEmptyUpdate(groups, c, groups[c] + groups[d]);
    NonEmptyUpdate(mid, d, []);
  }

  /** Opening a new group `[x]`. */
  lemma InvNew(groups: seq<seq<nat>>, owner: seq<int>, n: nat, x: nat)
    requires Inv(groups, owner, n) && x < n && owner[x] == -1
    ensures Inv(groups + [[x]], owner[x := |groups|], n)
    ensures Refines(owner, owner[x := |groups|])
    ensures NonEmpty(groups + [[x]]) == NonEmpty(groups) + 1
  {
    InvNewAt(groups, owner, n, x, |groups|, groups + [[x]]);
  }

  lemma InvNewAt(groups: seq<seq<nat>>, owner: seq<int>, n: nat, x: nat, a: nat, groups': seq<seq<nat>>)
    requires Inv(groups, owner, n) && x < n && owner[x] == -1
    requires a == |groups| && groups' == groups + [[x]]
    ensures Inv(groups', owner[x := a], n)
    ensures Refines(owner, owner[x := a])
    ensures NonEmpty(groups') == NonEmpty(groups) + 1
  {
    var e := groups + [[]];
    assert Inv(e, owner, n) by {
      assert forall b :: 0 <= b < |groups| ==> e[b] == groups[b];
    }
    InvAdd(e, owner, n, a, x);
    assert e[a] + [x] == [x];
    assert e[a := e[a] + [x]] == groups';
    NonEmptyAppend(groups, []);
  }

  lemma RefinesTrans(o1: seq<int>, o2: seq<int>, o3: seq<int>)
    requires |o1| == |o2| == |o3| && Refines(o1, o2) && Refines(o2, o3)
    ensures Refines(o1, o3)
  {
    forall p, q | 0 <= p < |o1| && 0 <= q < |o1| && o1[p] >= 0 && o1[p] == o1[q]
      ensures o3[p] >= 0 && o3[p] == o3[q]
    {
      assert o2[p] >= 0 && o2[p] == o2[q];
    }
  }

  lemma InnerStart(polys: seq<seq<int>>, groups: seq<seq<nat>>, owner: seq<int>, count: nat,
                   i: nat, curIn: bool, curGroup: nat)
    requires Outer(polys, groups, owner, count, i) && i < |polys|
    requires curIn <==> owner[i] >= 0
    requires curIn ==> curGroup == owner[i]
    ensures Inner(polys, groups, owner, count, i, 0, curIn, curGroup)
  {
  }

  /** Nothing to do for `j`: itself, no shared vertex, or already in the same group. */
  lemma InnerSkip(polys: seq<seq<int>>, groups: seq<seq<nat>>, owner: seq<int>, count: nat,
                  i: nat, j: nat, curIn: bool, curGroup: nat)
    requires Inner(polys, groups, owner, count, i, j, curIn, curGroup) && j < |polys|
    requires j == i || !Shares(polys[i], polys[j]) || (owner[j] >= 0 && owner[j] == owner[i])
    ensures Inner(polys, groups, owner, count, i, j + 1, curIn, curGroup)
  {
  }

  /** Case 1: both grouped, in different groups; `j`'s group is moved into `i`'s. */
  lemma InnerMerge(polys: seq<seq<int>>, groups: seq<seq<nat>>, owner: seq<int>, count: nat,
                   i: nat, j: nat, c: nat, d: nat)
    requires Inner(polys, groups, owner, count, i, j, true, c) && j < |polys|
    requires j != i && Shares(polys[i], polys[j]) && owner[j] == d && d != c
    ensures count >= 1
    ensures Inner(polys, groups[c := groups[c] + groups[d]][d := []], Rename(owner, d, c),
                  count - 1, i, j + 1, true, c)
  {
    var n := |polys|;
    assert i in groups[c] && j in groups[d];
    InvMerge(groups, owner, n, c, d);
    RootJoinedMerge(polys, groups, c, d, i, j);
    var owner' := Rename(owner, d, c);
    ClosedRefines(polys, owner, owner', i);
  }

  /** Case 2: `i` grouped, `j` not; `j` joins `i`'s group. */
  lemma InnerAddCmp(polys: seq<seq<int>>, groups: seq<seq<nat>>, owner: seq<int>, count: nat,
                    i: nat, j: nat, c: nat)
    requires Inner(polys, groups, owner, count, i, j, true, c) && j < |polys|
    requires j != i && Shares(polys[i], polys[j]) && owner[j] == -1
    ensures Inner(polys, groups[c := groups[c] + [j]], owner[j := c], count, i, j + 1, true, c)
  {
    var n := |polys|;
    assert i in groups[c];
    InvAdd(groups, owner, n, c, j);
    RootJoinedAdd(polys, groups, c, i, j);
    ClosedRefines(polys, owner, owner[j := c], i);
    assert Connected(polys, j) by {
      SharesSymmetric(polys[i], polys[j]);
    }
  }

  /** Case 3: `j` grouped, `i` not; `i` joins `j`'s group. */
  lemma InnerAddCur(polys: seq<seq<int>>, groups: seq<seq<nat>>, owner: seq<int>, count: nat,
                    i: nat, j: nat, curGroup: nat, d: nat)
    requires Inner(polys, groups, owner, count, i, j, false, curGroup) && j < |polys|
    requires j != i && Shares(polys[i], polys[j]) && owner[j] == d && d >= 0
    ensures Inner(polys, groups[d := groups[d] + [i]], owner[i := d], count, i, j + 1, true, d)
  {
    var n := |polys|;
    assert j in groups[d];
    InvAdd(groups, owner, n, d, i);
    SharesSymmetric(polys[i], polys[j]);
    RootJoinedAdd(polys, groups, d, j, i);
    ClosedRefines(polys, owner, owner[i := d], i);
    assert Connected(polys, i);
  }

  /** Case 4: neither grouped; a new group `[i, j]`. */
  lemma InnerNew(polys: seq<seq<int>>, groups: seq<seq<nat>>, owner: seq<int>, count: nat,
                 i: nat, j: nat, curGroup: nat)
    requires Inner(polys, groups, owner, count, i, j, false, curGroup) && j < |polys|
    requires j != i && Shares(polys[i], polys[j]) && owner[j] == -1
    ensures Inner(polys, groups + [[i, j]], owner[i := |groups|][j := |groups|], count + 1, i, j + 1,
                  true, |groups|)
  {
    var n := |polys|;
    var a := |groups|;
    InvNew(groups, owner, n, i);
    var mid := groups + [[i]];
    var owner1 := owner[i := a];
    InvAdd(mid, owner1, n, a, j);
    assert mid[a] + [j] == [i, j];
    assert mid[a := mid[a] + [j]] == groups + [[i, j]];
    var owner' := owner1[j := a];
    RefinesTrans(owner, owner1, owner');
    ClosedRefines(polys, owner, owner', i);
    SharesSymmetric(polys[i], polys[j]);
    assert Connected(polys, i);
    assert Connected(polys, j);
    RootJoinedPair(polys, groups, i, j);
  }

  /** The current polygon found a neighbour, so it is grouped and closed. */
  lemma OuterNext(polys: seq<seq<int>>, groups: seq<seq<nat>>, owner: seq<int>, count: nat,
                  i: nat, curGroup: nat)
    requires Inner(polys, groups, owner, count, i, |polys|, true, curGroup)
    ensures Outer(polys, groups, owner, count, i + 1)
  {
  }

  /** A polygon sharing no vertex with any other was never reached, so it is in no group. */
  lemma IsolatedUngrouped(polys: seq<seq<int>>, owner: seq<int>, i: nat)
    requires |owner| == |polys| && i < |polys| && Reached(polys, owner, i)
    requires forall q :: 0 <= q < |polys| && q != i ==> !Shares(polys[i], polys[q])
    ensures owner[i] < 0
  {
    forall p | 0 <= p < |polys| && p != i
      ensures !Shares(polys[p], polys[i])
    {
      SharesSymmetric(polys[p], polys[i]);
    }
  }

  /** Giving the ungrouped isolated polygon `i` a group of its own closes it. */
  lemma ClosedIsolated(polys: seq<seq<int>>, owner: seq<int>, i: nat, a: nat)
    requires |owner| == |polys| && i < |polys| && Closed(polys, owner, i) && owner[i] < 0
    requires forall q :: 0 <= q < |polys| && q != i ==> !Shares(polys[i], polys[q])
    ensures Closed(polys, owner[i := a], i + 1)
  {
    var owner' := owner[i := a];
    forall p, q | 0 <= p < i + 1 && 0 <= q < |polys| && p != q && Shares(polys[p], polys[q])
      ensures owner'[p] >= 0 && owner'[p] == owner'[q]
    {
      if p < i {
        assert owner[p] >= 0 && owner[p] == owner[q];
      }
    }
  }

  /** The current polygon shares no vertex: it was never grouped and gets a group of its own. */
  lemma OuterIsolated(polys: seq<seq<int>>, groups: seq<seq<nat>>, owner: seq<int>, count: nat,
                      i: nat, curIn: bool, curGroup: nat)
    requires Inner(polys, groups, owner, count, i, |polys|, curIn, curGroup)
    requires forall q :: 0 <= q < |polys| && q != i ==> !Shares(polys[i], polys[q])
    ensures !curIn
    ensures Outer(polys, groups + [[i]], owner[i := |groups|], count + 1, i + 1)
  {
    IsolatedUngrouped(polys, owner, i);
    InvNew(groups, owner, |polys|, i);
    RootJoinedSingle(polys, groups, i);
    ClosedIsolated(polys, owner, i, |groups|);
  }

  /**
   * `groups` splits the polygon positions below `n`: no group is empty, each
   * position is in exactly one group, and once only.
   */
  ghost predicate Partition(groups: seq<seq<nat>>, n: nat)
  {
    (forall a :: 0 <= a < |groups| ==> groups[a] != [])
    && (forall a, x :: 0 <= a < |groups| && 0 <= x < |groups[a]| ==> groups[a][x] < n)
    && (forall p :: 0 <= p < n ==> Grouped(groups, p))
    && (forall a, b, x, y ::
          (0 <= a < |groups| && 0 <= b < |groups| && 0 <= x < |groups[a]| && 0 <= y < |groups[b]|
           && (a != b || x != y)) ==> groups[a][x] != groups[b][y])
  }

  /** Polygon `p` is in some group. */
  ghost predicate Grouped(groups: seq<seq<nat>>, p: nat)
  {
    exists a :: 0 <= a < |groups| && p in groups[a]
  }

  /** Polygons that share a vertex end up in the same group. */
  ghost predicate SharersTogether(polys: seq<seq<int>>, groups: seq<seq<nat>>)
  {
    forall p, q :: 0 <= p < |polys| && 0 <= q < |polys| && Shares(polys[p], polys[q]) ==>
      exists a :: 0 <= a < |groups| && p in groups[a] && q in groups[a]
  }

  /** Dropping the empty groups, in order (`src[b]` is where kept group `b` came from). */
  ghost predicate Compacted(groups: seq<seq<nat>>, kept: seq<seq<nat>>, src: seq<nat>, upTo: nat)
  {
    |src| == |kept|
    && (forall b :: 0 <= b < |kept| ==> src[b] < upTo && src[b] < |groups| && kept[b] == groups[src[b]])
    && (forall b, b' :: 0 <= b < b' < |kept| ==> src[b] < src[b'])
    && (forall a :: 0 <= a < upTo && a < |groups| && groups[a] != [] ==> a in src)
    && (forall b :: 0 <= b < |kept| ==> kept[b] != [])
  }

  lemma {:induction false} EndGroupsPartition(polys: seq<seq<int>>, groups: seq<seq<nat>>,
                                              owner: seq<int>, kept: seq<seq<nat>>, src: seq<nat>)
    requires Inv(groups, owner, |polys|) && Closed(polys, owner, |polys|)
    requires Compacted(groups, kept, src, |groups|)
    ensures Partition(kept, |polys|) && SharersTogether(polys, kept)
  {
    var n := |polys|;
    forall p | 0 <= p < n
      ensures Grouped(kept, p)
    {
      var a := owner[p];
      assert p in groups[a];
      assert a in src;
      var b :| 0 <= b < |src| && src[b] == a;
      assert p in kept[b];
    }
    forall a, b, x, y | 0 <= a < |kept| && 0 <= b < |kept| && 0 <= x < |kept[a]|
      && 0 <= y < |kept[b]| && (a != b || x != y)
      ensures kept[a][x] != kept[b][y]
    {
      assert owner[groups[src[a]][x]] == src[a] && owner[groups[src[b]][y]] == src[b];
      if a != b {
        assert src[a] != src[b] by {
          if a < b { assert src[a] < src[b]; } else { assert src[b] < src[a]; }
        }
      }
    }
    forall p, q | 0 <= p < n && 0 <= q < n && Shares(polys[p], polys[q])
      ensures exists b :: 0 <= b < |kept| && p in kept[b] && q in kept[b]
    {
      var a := owner[p];
      assert a == owner[q];
      assert p in groups[a] && q in groups[a];
      assert a in src;
      var b :| 0 <= b < |src| && src[b] == a;
      assert p in kept[b] && q in kept[b];
    }
  }

  /** Members connected to their group's first member are connected to each other. */
  lemma RootJoinedGroups(polys: seq<seq<int>>, groups: seq<seq<nat>>)
    requires RootJoined(polys, groups)
    ensures forall a :: 0 <= a < |groups| ==> GroupJoined(polys, groups[a])
  {
    forall a, x, y | 0 <= a < |groups| && 0 <= x < |groups[a]| && 0 <= y < |groups[a]|
      ensures Joined(polys, groups[a][x], groups[a][y])
    {
      assert Joined(polys, groups[a][0], groups[a][x]);
      assert Joined(polys, groups[a][0], groups[a][y]);
      JoinedSymmetric(polys, groups[a][0], groups[a][x]);
      JoinedTransitive(polys, groups[a][x], groups[a][0], groups[a][y]);
    }
  }

  /** A chain that starts in a group stays in it, when sharers are always grouped together. */
  lemma {:induction false} ChainStaysInGroup(polys: seq<seq<int>>, groups: seq<seq<nat>>, a: nat,
                                             path: seq<nat>)
    requires Partition(groups, |polys|) && SharersTogether(polys, groups)
    requires a < |groups| && Chain(polys, path) && path[0] in groups[a]
    ensures path[|path| - 1] in groups[a]
    decreases |path|
  {
    if |path| > 1 {
      assert Shares(polys[path[0]], polys[path[1]]);
      var b :| 0 <= b < |groups| && path[0] in groups[b] && path[1] in groups[b];
      var x :| 0 <= x < |groups[a]| && groups[a][x] == path[0];
      var y :| 0 <= y < |groups[b]| && groups[b][y] == path[0];
      assert a == b;
      var rest := path[1..];
      assert Chain(polys, rest) by {
        forall k | 0 <= k < |rest| - 1
          ensures Shares(polys[rest[k]], polys[rest[k + 1]])
        {
          assert rest[k] == path[k + 1] && rest[k + 1] == path[k + 2];
        }
      }
      ChainStaysInGroup(polys, groups, a, rest);
    }
  }

  /**
   * The end groups are the connected components: a polygon of a group is
   * connected exactly to the polygons of that group.
   */
  lemma WheelsAreComponents(polys: seq<seq<int>>, groups: seq<seq<nat>>)
    requires Partition(groups, |polys|) && SharersTogether(polys, groups)
    requires forall a :: 0 <= a < |groups| ==> GroupJoined(polys, groups[a])
    ensures forall a, p: nat, q: nat :: 0 <= a < |groups| && p in groups[a] && q < |polys| ==>
      (q in groups[a] <==> Joined(polys, p, q))
  {
    forall a, p: nat, q: nat | 0 <= a < |groups| && p in groups[a] && q < |polys|
      ensures q in groups[a] <==> Joined(polys, p, q)
    {
      if q in groups[a] {
        var x :| 0 <= x < |groups[a]| && groups[a][x] == p;
        var y :| 0 <= y < |groups[a]| && groups[a][y] == q;
        assert Joined(polys, groups[a][x], groups[a][y]);
      }
      if Joined(polys, p, q) {
        var path :| Chain(polys, path) && |path| > 0 && path[0] == p && path[|path| - 1] == q;
        ChainStaysInGroup(polys, groups, a, path);
      }
    }
  }

  /** Dropping empty groups keeps every remaining group connected. */
  lemma EndGroupsJoined(polys: seq<seq<int>>, groups: seq<seq<nat>>, kept: seq<seq<nat>>, src: seq<nat>)
    requires forall a :: 0 <= a < |groups| ==> GroupJoined(polys, groups[a])
    requires Compacted(groups, kept, src, |groups|)
    ensures forall b :: 0 <= b < |kept| ==> GroupJoined(polys, kept[b])
  {
    forall b | 0 <= b < |kept|
      ensures GroupJoined(polys, kept[b])
    {
      assert kept[b] == groups[src[b]];
    }
  }

  /** One step of `KeepNonEmpty`: group `a` is copied when it is non-empty. */
  lemma CompactedStep(groups: seq<seq<nat>>, kept: seq<seq<nat>>, src: seq<nat>, a: nat)
    requires a < |groups| && Compacted(groups, kept, src, a) && |kept| == NonEmpty(groups[..a])
    ensures groups[a] != [] ==>
      (Compacted(groups, kept + [groups[a]], src + [a], a + 1) && |kept + [groups[a]]| == NonEmpty(groups[..a + 1]))
    ensures groups[a] == [] ==> (Compacted(groups, kept, src, a + 1) && |kept| == NonEmpty(groups[..a + 1]))
  {
    assert groups[..a + 1][..a] == groups[..a];
    if groups[a] != [] {
      var kept', src' := kept + [groups[a]], src + [a];
      assert forall b :: 0 <= b < |kept| ==> kept'[b] == kept[b] && src'[b] == src[b];
    }
  }

  /** The loop that copies the non-empty groups into the end list. */
  method KeepNonEmpty(groups: seq<seq<nat>>) returns (kept: seq<seq<nat>>, ghost src: seq<nat>)
    ensures Compacted(groups, kept, src, |groups|)
    ensures |kept| == NonEmpty(groups)
  {
    kept, src := [], [];
    for a := 0 to |groups|
      invariant Compacted(groups, kept, src, a)
      invariant |kept| == NonEmpty(groups[..a])
    {
      CompactedStep(groups, kept, src, a);
      if groups[a] != [] {
        kept, src := kept + [groups[a]], src + [a];
      }
    }
    assert groups[..|groups|] == groups;
  }

  /** The vertex coordinates of a group's polygons, polygon after polygon. */
  function GroupPoints(verts: seq<Vec>, polys: seq<seq<int>>, group: seq<nat>): seq<Vec>
    requires forall x :: 0 <= x < |group| ==> group[x] < |polys|
    requires forall p, k :: 0 <= p < |polys| && 0 <= k < |polys[p]| ==> 0 <= polys[p][k] < |verts|
  {
    if group == [] then []
    else GroupPoints(verts, polys, group[..|group| - 1]) + FacePoints(verts, polys[group[|group| - 1]])
  }

  lemma {:induction false} GroupPointsMember(verts: seq<Vec>, polys: seq<seq<int>>, group: seq<nat>,
                                             x: nat, k: nat)
    requires forall x :: 0 <= x < |group| ==> group[x] < |polys|
    requires forall p, k :: 0 <= p < |polys| && 0 <= k < |polys[p]| ==> 0 <= polys[p][k] < |verts|
    requires x < |group| && k < |polys[group[x]]|
    ensures verts[polys[group[x]][k]] in GroupPoints(verts, polys, group)
  {
    var m := |group| - 1;
    if x < m {
      GroupPointsMember(verts, polys, group[..m], x, k);
    } else {
      assert FacePoints(verts, polys[group[m]])[k] == verts[polys[group[x]][k]];
    }
  }

  /** `get_non_steering_wheel_center`: the middle of the box around a group's vertices. */
  function GroupCenter(verts: seq<Vec>, polys: seq<seq<int>>, group: seq<nat>): Vec
    requires forall x :: 0 <= x < |group| ==> group[x] < |polys|
    requires forall p, k :: 0 <= p < |polys| && 0 <= k < |polys[p]| ==> 0 <= polys[p][k] < |verts|
  {
    Center(FoldPoints(DefaultExtremePoints, GroupPoints(verts, polys, group)))
  }

  method NonSteeringWheelCenter(verts: seq<Vec>, polys: seq<seq<int>>, group: seq<nat>)
    returns (center: Vec)
    requires forall x :: 0 <= x < |group| ==> group[x] < |polys|
    requires forall p, k :: 0 <= p < |polys| && 0 <= k < |polys[p]| ==> 0 <= polys[p][k] < |verts|
    ensures center == GroupCenter(verts, polys, group)
  {
    var box := DefaultExtremePoints;
    for x := 0 to |group|
      invariant box == FoldPoints(DefaultExtremePoints, GroupPoints(verts, polys, group[..x]))
    {
      assert group[..x + 1][..x] == group[..x];
      FoldAppend(DefaultExtremePoints, GroupPoints(verts, polys, group[..x]),
                 FacePoints(verts, polys[group[x]]));
      box := FoldFace(box, verts, polys[group[x]]);
    }
    assert group[..|group|] == group;
    center := Center(box);
  }

  /**
   * On every axis the centre lies between two of the group's vertices (those
   * reaching the box's bounds), provided the group has a vertex and all
   * coordinates are finite doubles.
   */
  lemma GroupCenterInside(verts: seq<Vec>, polys: seq<seq<int>>, group: seq<nat>, axis: Axis)
    requires forall x :: 0 <= x < |group| ==> group[x] < |polys|
    requires forall p, k :: 0 <= p < |polys| && 0 <= k < |polys[p]| ==> 0 <= polys[p][k] < |verts|
    requires forall v, i :: 0 <= v < |verts| && 0 <= i < 3 ==> -DblMax < verts[v][i] < DblMax
    requires |GroupPoints(verts, polys, group)| > 0
    ensures exists lo, hi :: (lo in GroupPoints(verts, polys, group) && hi in GroupPoints(verts, polys, group)
      && lo[axis] <= GroupCenter(verts, polys, group)[axis] <= hi[axis])
  {
    var pts := GroupPoints(verts, polys, group);
    GroupPointsInVerts(verts, polys, group);
    FoldFromDefaultTight(pts);
    FoldPointsContains(DefaultExtremePoints, pts);
    var box := FoldPoints(DefaultExtremePoints, pts);
    var jHi :| 0 <= jHi < |pts| && pts[jHi][axis] == box.max[axis];
    var jLo :| 0 <= jLo < |pts| && pts[jLo][axis] == box.min[axis];
    assert box.min[axis] <= pts[0][axis] <= box.max[axis];
    assert pts[jLo] in pts && pts[jHi] in pts;
  }

  lemma {:induction false} GroupPointsInVerts(verts: seq<Vec>, polys: seq<seq<int>>, group: seq<nat>)
    requires forall x :: 0 <= x < |group| ==> group[x] < |polys|
    requires forall p, k :: 0 <= p < |polys| && 0 <= k < |polys[p]| ==> 0 <= polys[p][k] < |verts|
    ensures forall j :: 0 <= j < |GroupPoints(verts, polys, group)| ==> GroupPoints(verts, polys, group)[j] in verts
  {
    if group != [] {
      GroupPointsInVerts(verts, polys, group[..|group| - 1]);
    }
  }

  /**
   * One pass of the inner loop: polygon `j` is compared with the current
   * polygon `i` and, when they share a vertex, the groups are joined
   * according to which of the two is already grouped.
   */
  method CompareStep(polys: seq<seq<int>>, groups: seq<seq<nat>>, ghost owner: seq<int>, count: nat,
                     i: nat, j: nat, curIn: bool, curGroup: nat)
    returns (groups': seq<seq<nat>>, ghost owner': seq<int>, count': nat, curIn': bool,
             curGroup': nat, same: bool)
    requires Inner(polys, groups, owner, count, i, j, curIn, curGroup) && j < |polys|
    requires |polys[j]| == RegularVerticesPerPolygon
    ensures Inner(polys, groups', owner', count', i, j + 1, curIn', curGroup')
    ensures same <==> j != i && Shares(polys[i], polys[j])
    ensures same ==> curIn'
    ensures !same ==> curIn' == curIn
  {
    groups', owner', count', curIn', curGroup' := groups, owner, count, curIn, curGroup;
    same := false;
    if i != j {
      same := SameVertex(polys[i], polys[j]);
    }
    if !same {
      InnerSkip(polys, groups, owner, count, i, j, curIn, curGroup);
      return;
    }
    var cmpIn, cmpGroup := PolyInGroup(groups, j);
    OwnerFound(groups, owner, |polys|, j, cmpIn, cmpGroup);
    if curIn && cmpIn && curGroup != cmpGroup {
      InnerMerge(polys, groups, owner, count, i, j, curGroup, cmpGroup);
      groups' := groups[curGroup := groups[curGroup] + groups[cmpGroup]][cmpGroup := []];
      owner' := Rename(owner, cmpGroup, curGroup);
      count' := count - 1;
    } else if curIn && !cmpIn {
      InnerAddCmp(polys, groups, owner, count, i, j, curGroup);
      groups' := groups[curGroup := groups[curGroup] + [j]];
      owner' := owner[j := curGroup];
    } else if !curIn && cmpIn {
      InnerAddCur(polys, groups, owner, count, i, j, curGroup, cmpGroup);
      groups' := groups[cmpGroup := groups[cmpGroup] + [i]];
      owner' := owner[i := cmpGroup];
      curIn', curGroup' := true, cmpGroup;
    } else if !curIn && !cmpIn {
      InnerNew(polys, groups, owner, count, i, j, curGroup);
      groups' := groups + [[i, j]];
      owner' := owner[i := |groups|][j := |groups|];
      count' := count + 1;
      curIn', curGroup' := true, |groups|;
    } else {
      InnerSkip(polys, groups, owner, count, i, j, curIn, curGroup);
    }
  }

  /** The two nested loops of `mark_wheels_helper_get_wheels` that build the groups. */
  method GroupPolygons(polys: seq<seq<int>>)
    returns (groups: seq<seq<nat>>, ghost owner: seq<int>, nonEmptyGroupsNum: nat)
    requires forall p :: 0 <= p < |polys| ==> |polys[p]| == RegularVerticesPerPolygon
    ensures Outer(polys, groups, owner, nonEmptyGroupsNum, |polys|)
    ensures forall a :: 0 <= a < |groups| ==> GroupJoined(polys, groups[a])
  {
    var n := |polys|;
    groups := [];
    owner := seq(n, _ => -1);
    nonEmptyGroupsNum := 0;
    for curPolyNum := 0 to n
      invariant Outer(polys, groups, owner, nonEmptyGroupsNum, curPolyNum)
    {
      var isolated := true;
      var curIn: bool, curGroup: nat := PolyInGroup(groups, curPolyNum);
      OwnerFound(groups, owner, n, curPolyNum, curIn, curGroup);
      InnerStart(polys, groups, owner, nonEmptyGroupsNum, curPolyNum, curIn, curGroup);
      for cmpNum := 0 to n
        invariant Inner(polys, groups, owner, nonEmptyGroupsNum, curPolyNum, cmpNum, curIn, curGroup)
        invariant isolated ==> forall q :: 0 <= q < cmpNum && q != curPolyNum ==>
          !Shares(polys[curPolyNum], polys[q])
        invariant !isolated ==> curIn
      {
        var same;
        groups, owner, nonEmptyGroupsNum, curIn, curGroup, same :=
          CompareStep(polys, groups, owner, nonEmptyGroupsNum, curPolyNum, cmpNum, curIn, curGroup);
        if same {
          isolated := false;
        }
      }
      if isolated {
        OuterIsolated(polys, groups, owner, nonEmptyGroupsNum, curPolyNum, curIn, curGroup);
        owner := owner[curPolyNum := |groups|];
        groups := groups + [[curPolyNum]];
        nonEmptyGroupsNum := nonEmptyGroupsNum + 1;
      } else {
        OuterNext(polys, groups, owner, nonEmptyGroupsNum, curPolyNum, curGroup);
      }
    }
    RootJoinedGroups(polys, groups);
  }

  /**
   * `mark_wheels_helper_get_wheels`: the wheel groups and their centres.
   * The groups split the polygons, sharing a vertex puts two polygons in the
   * same group, every two polygons of a group are connected through shared
   * vertices (so the groups are the connected components), and the count is
   * the number of groups returned.
   */
  method GetWheels(verts: seq<Vec>, polys: seq<seq<int>>)
    returns (endGroups: seq<seq<nat>>, nonEmptyGroupsNum: nat, centers: seq<Vec>)
    requires forall p :: 0 <= p < |polys| ==> |polys[p]| == RegularVerticesPerPolygon
    requires forall p, k :: 0 <= p < |polys| && 0 <= k < |polys[p]| ==> 0 <= polys[p][k] < |verts|
    ensures Partition(endGroups, |polys|)
    ensures SharersTogether(polys, endGroups)
    ensures forall a :: 0 <= a < |endGroups| ==> GroupJoined(polys, endGroups[a])
    ensures nonEmptyGroupsNum == |endGroups| == |centers|
    ensures forall a :: 0 <= a < |endGroups| ==> centers[a] == GroupCenter(verts, polys, endGroups[a])
  {
    var groups;
    ghost var owner;
    groups, owner, nonEmptyGroupsNum := GroupPolygons(polys);
    ghost var src;
    endGroups, src := KeepNonEmpty(groups);
    EndGroupsPartition(polys, groups, owner, endGroups, src);
    EndGroupsJoined(polys, groups, endGroups, src);
    centers := [];
    for a := 0 to |endGroups|
      invariant |centers| == a
      invariant forall b :: 0 <= b < a ==> centers[b] == GroupCenter(verts, polys, endGroups[b])
    {
      var c := NonSteeringWheelCenter(verts, polys, endGroups[a]);
      centers := centers + [c];
    }
  }
}
