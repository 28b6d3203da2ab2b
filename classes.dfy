/** The shape classes of main (lines 759-807): workers are grouped by how the
    size of their tile compares with worker 0's, which has the largest tile, so
    that every group can be gathered with one MPI datatype. Each list of ranks
    starts with rank 0, the master that gathers the group. */
module Classes {
  import opened Arith
  import opened Partition
  import opened Topology

  /** The tile widths xs and heights ys of all workers, by rank, as the
      Allgathers of lines 531-533 leave them in xpxlrcounts and ypxlrcounts: every
      length is either worker 0's or the last worker's, and the last worker's is
      never larger. */
  predicate FromGrid(xs: seq<nat>, ys: seq<nat>) {
    |xs| == |ys| && |xs| >= 1 &&
    xs[|xs| - 1] <= xs[0] && ys[|ys| - 1] <= ys[0] &&
    forall i :: 0 <= i < |xs| ==>
      (xs[i] == xs[0] || xs[i] == xs[|xs| - 1]) && (ys[i] == ys[0] || ys[i] == ys[|ys| - 1])
  }

  /** What the Allgathers deliver on layout L: entry r is the width, height and
      startidx of the worker with grid rank r. */
  predicate Gathered(L: Layout, xs: seq<nat>, ys: seq<nat>, starts: seq<nat>)
    requires L.Valid()
  {
    |xs| == Mul(L.px, L.py) && |ys| == |xs| && |starts| == |xs| &&
    forall r :: 0 <= r < |xs| ==>
      xs[r] == Width(L, CoordsOf(L, r).x) && ys[r] == Height(L, CoordsOf(L, r).y) &&
      starts[r] == StartIdx(L, CoordsOf(L, r).x, CoordsOf(L, r).y)
  }

  /** The number of classes (lines 759-761): 4 when the last worker's tile is
      both narrower and shorter than worker 0's, 2 when it is smaller along one
      axis only, 1 when all tiles have the same shape. */
  function Cases(xs: seq<nat>, ys: seq<nat>): (c: nat)
    requires |xs| == |ys| && |xs| >= 1
  {
    var last := |xs| - 1;
    if xs[0] > xs[last] && ys[0] > ys[last] then 4
    else if xs[0] > xs[last] || ys[0] > ys[last] then 2
    else 1
  }

  /** The class a worker belongs to. With four classes, the class number has
      bit 0 set when the tile is narrower than worker 0's and bit 1 set when it
      is shorter; with two, it says whether the tile is smaller at all; with one
      class there is only class 0. */
  function ClassOf(xs: seq<nat>, ys: seq<nat>, i: nat): nat
    requires |xs| == |ys| && |xs| >= 1 && i < |xs|
  {
    var narrower, shorter := xs[0] > xs[i], ys[0] > ys[i];
    var c := Cases(xs, ys);
    if c == 4 then (if narrower then 1 else 0) + (if shorter then 2 else 0)
    else if c == 2 then (if narrower || shorter then 1 else 0)
    else 0
  }

  /** The ranks 1 to n - 1 in class g, in increasing order. */
  function Members(xs: seq<nat>, ys: seq<nat>, g: nat, n: nat): (m: seq<nat>)
    requires |xs| == |ys| && 1 <= n <= |xs|
    ensures |m| <= n - 1
  {
    if n == 1 then []
    else Members(xs, ys, g, n - 1) + (if ClassOf(xs, ys, n - 1) == g then [n - 1] else [])
  }

  /** The lists once ranks below n have been filed: list g is rank 0 followed by
      the members of class g among them. */
  function ListsUpTo(xs: seq<nat>, ys: seq<nat>, n: nat): seq<seq<nat>>
    requires |xs| == |ys| && 1 <= n <= |xs|
  {
    seq(Cases(xs, ys), g requires 0 <= g < Cases(xs, ys) => [0] + Members(xs, ys, g, n))
  }

  /** The lists cases_thid: every rank filed. */
  function ClassLists(xs: seq<nat>, ys: seq<nat>): seq<seq<nat>>
    requires |xs| == |ys| && |xs| >= 1
  {
    ListsUpTo(xs, ys, |xs|)
  }

  /** Before any rank is filed every list holds rank 0 alone. */
  lemma ListsStart(xs: seq<nat>, ys: seq<nat>)
    requires |xs| == |ys| && 1 <= |xs|
    ensures ListsUpTo(xs, ys, 1) == seq(Cases(xs, ys), d => [0])
  {
    forall d | 0 <= d < Cases(xs, ys) ensures ListsUpTo(xs, ys, 1)[d] == [0] {
      assert Members(xs, ys, d, 1) == [];
    }
  }

  /** Filing rank n appends it to the list of its class and leaves the others. */
  lemma ListsStep(xs: seq<nat>, ys: seq<nat>, n: nat, g: nat)
    requires |xs| == |ys| && 1 <= n < |xs| && g == ClassOf(xs, ys, n) && g < Cases(xs, ys)
    ensures ListsUpTo(xs, ys, n + 1) == ListsUpTo(xs, ys, n)[g := ListsUpTo(xs, ys, n)[g] + [n]]
  {
    var before, after := ListsUpTo(xs, ys, n), ListsUpTo(xs, ys, n + 1);
    forall d | 0 <= d < Cases(xs, ys) ensures after[d] == before[g := before[g] + [n]][d] {
      assert Members(xs, ys, d, n + 1) == Members(xs, ys, d, n) + (if g == d then [n] else []);
      if d == g {
        assert [0] + (Members(xs, ys, d, n) + [n]) == ([0] + Members(xs, ys, d, n)) + [n];
      }
    }
  }

  /** Lines 759-807: count the classes, then walk the ranks from 1 on, appending
      each to the list its shape selects in cases_long_array and bumping that
      list's cases_counter, and finally copy each list out at its own length
      (cases_thid). */
  method BuildClasses(xs: seq<nat>, ys: seq<nat>) returns (cases: nat, thid: seq<seq<nat>>)
    requires FromGrid(xs, ys)
    ensures cases == Cases(xs, ys)
    ensures thid == ClassLists(xs, ys)
  {
    var nths := |xs|;
    cases := 1;
    if xs[0] > xs[nths - 1] && ys[0] > ys[nths - 1] {
      cases := 4;
    } else if xs[0] > xs[nths - 1] || ys[0] > ys[nths - 1] {
      cases := 2;
    }
    var counter := new nat[cases];
    var longArray := new nat[cases, nths];
    for c := 0 to cases
      invariant forall d :: 0 <= d < c ==> counter[d] == 1 && longArray[d, 0] == 0
    {
      counter[c] := 1;
      longArray[c, 0] := 0;
    }
    ghost var lists := Classify(xs, ys, cases, counter, longArray);
    thid := CopyOut(counter, longArray, lists);
  }

  /** The walk over ranks 1 to nths - 1 (lines 770-798): each rank is appended to
      the list of its class. */
  method Classify(xs: seq<nat>, ys: seq<nat>, cases: nat, counter: array<nat>, longArray: array2<nat>)
    returns (ghost lists: seq<seq<nat>>)
    requires FromGrid(xs, ys) && cases == Cases(xs, ys)
    requires counter.Length == cases == longArray.Length0 && longArray.Length1 == |xs|
    requires forall d :: 0 <= d < cases ==> counter[d] == 1 && longArray[d, 0] == 0
    modifies counter, longArray
    ensures Stored(counter, longArray, lists) && lists == ClassLists(xs, ys)
  {
    lists := seq(cases, d => [0]);
    ListsStart(xs, ys);
    for i := 1 to |xs|
      invariant Stored(counter, longArray, lists) && lists == ListsUpTo(xs, ys, i)
    {
      ClassBranches(xs, ys, i);
      ghost var g := ClassOf(xs, ys, i);
      ListsStep(xs, ys, i, g);
      assert forall d :: 0 <= d < cases ==> |lists[d]| <= i;
      if xs[0] > xs[i] && ys[0] > ys[i] {
        lists := Push(counter, longArray, 3, i, lists);
      } else if (xs[0] > xs[i] || ys[0] > ys[i]) && cases == 2 {
        lists := Push(counter, longArray, 1, i, lists);
      } else {
        if xs[0] > xs[i] {
          lists := Push(counter, longArray, 1, i, lists);
        }
        if ys[0] > ys[i] {
          lists := Push(counter, longArray, 2, i, lists);
        }
        if xs[0] == xs[i] && ys[0] == ys[i] {
          lists := Push(counter, longArray, 0, i, lists);
        }
      }
    }
  }

  /** Lines 802-807: list d is copied out of row d at its own length. */
  method CopyOut(counter: array<nat>, longArray: array2<nat>, ghost lists: seq<seq<nat>>) returns (thid: seq<seq<nat>>)
    requires Stored(counter, longArray, lists)
    ensures thid == lists
  {
    thid := [];
    for c := 0 to counter.Length
      invariant |thid| == c
      invariant forall d :: 0 <= d < c ==> thid[d] == lists[d]
    {
      var row: seq<nat> := [];
      for i := 0 to counter[c]
        invariant row == lists[c][..i]
      {
        row := row + [longArray[c, i]];
      }
      thid := thid + [row];
    }
  }

  /** The branches of lines 772-797 pick exactly the list of the rank's class:
      both axes smaller selects list 3; one axis smaller with two classes list
      1; otherwise list 1 for a narrower tile, list 2 for a shorter one, and list
      0 for a tile of worker 0's shape, and exactly one of those three holds. */
  lemma {:induction false} ClassBranches(xs: seq<nat>, ys: seq<nat>, i: nat)
    requires FromGrid(xs, ys) && i < |xs|
    ensures ClassOf(xs, ys, i) < Cases(xs, ys)
    ensures xs[0] > xs[i] && ys[0] > ys[i] ==> ClassOf(xs, ys, i) == 3
    ensures !(xs[0] > xs[i] && ys[0] > ys[i]) && (xs[0] > xs[i] || ys[0] > ys[i]) && Cases(xs, ys) == 2 ==>
              ClassOf(xs, ys, i) == 1
    ensures !(xs[0] > xs[i] && ys[0] > ys[i]) && Cases(xs, ys) != 2 && xs[0] > xs[i] ==> ClassOf(xs, ys, i) == 1
    ensures !(xs[0] > xs[i] && ys[0] > ys[i]) && Cases(xs, ys) != 2 && ys[0] > ys[i] ==> ClassOf(xs, ys, i) == 2
    ensures !(xs[0] > xs[i] || ys[0] > ys[i]) <==> xs[0] == xs[i] && ys[0] == ys[i]
    ensures (!(xs[0] > xs[i] || ys[0] > ys[i])) ==> ClassOf(xs, ys, i) == 0
  {
    var last := |xs| - 1;
    assert xs[i] == xs[0] || xs[i] == xs[last];
    assert ys[i] == ys[0] || ys[i] == ys[last];
  }

  /** The cases_counter and cases_long_array of class building hold the lists:
      list d is the first counter[d] entries of row d. */
  predicate Stored(counter: array<nat>, longArray: array2<nat>, lists: seq<seq<nat>>)
    reads counter, longArray
  {
    counter.Length == |lists| == longArray.Length0 &&
    forall d :: 0 <= d < |lists| ==>
      counter[d] == |lists[d]| <= longArray.Length1 &&
      forall j :: 0 <= j < counter[d] ==> longArray[d, j] == lists[d][j]
  }

  /** Appending rank i to list d (cases_long_array[d][cases_counter[d]] = i, then
      cases_counter[d]++). */
  method Push(counter: array<nat>, longArray: array2<nat>, d: nat, i: nat, ghost lists: seq<seq<nat>>)
    returns (ghost lists': seq<seq<nat>>)
    requires Stored(counter, longArray, lists) && d < |lists| && counter[d] < longArray.Length1
    modifies counter, longArray
    ensures Stored(counter, longArray, lists') && lists' == lists[d := lists[d] + [i]]
  {
    longArray[d, counter[d]] := i;
    counter[d] := counter[d] + 1;
    lists' := lists[d := lists[d] + [i]];
  }

  /** Rank r occurs in the members of class g exactly once if it is in class g
      and below n, and not at all otherwise. */
  lemma {:induction false} MembersCount(xs: seq<nat>, ys: seq<nat>, g: nat, n: nat, r: nat)
    requires |xs| == |ys| && 1 <= n <= |xs|
    ensures multiset(Members(xs, ys, g, n))[r] == if 1 <= r < n && ClassOf(xs, ys, r) == g then 1 else 0
  {
    if n > 1 {
      MembersCount(xs, ys, g, n - 1, r);
      var head := Members(xs, ys, g, n - 1);
      var tail: seq<nat> := if ClassOf(xs, ys, n - 1) == g then [n - 1] else [];
      assert Members(xs, ys, g, n) == head + tail;
      assert multiset(head + tail) == multiset(head) + multiset(tail);
    }
  }

  /** Rank 0 heads every list, and every other worker occurs exactly once among
      all the lists: once in the list of its class and nowhere else. */
  lemma {:induction false} ClassListsPartition(xs: seq<nat>, ys: seq<nat>, r: nat)
    requires FromGrid(xs, ys) && 1 <= r < |xs|
    ensures |ClassLists(xs, ys)| == Cases(xs, ys) && ClassOf(xs, ys, r) < Cases(xs, ys)
    ensures forall g :: 0 <= g < Cases(xs, ys) ==> |ClassLists(xs, ys)[g]| >= 1 && ClassLists(xs, ys)[g][0] == 0
    ensures forall g :: 0 <= g < Cases(xs, ys) ==>
              multiset(ClassLists(xs, ys)[g])[r] == if g == ClassOf(xs, ys, r) then 1 else 0
  {
    ClassBranches(xs, ys, r);
    forall g | 0 <= g < Cases(xs, ys)
      ensures multiset(ClassLists(xs, ys)[g])[r] == if g == ClassOf(xs, ys, r) then 1 else 0
    {
      MembersCount(xs, ys, g, |xs|, r);
      assert ClassLists(xs, ys)[g] == [0] + Members(xs, ys, g, |xs|);
    }
  }

  /** Two workers other than rank 0 are in the same class exactly when their
      tiles have the same shape, and class 0 is the class of the tiles shaped
      like worker 0's. */
  lemma {:induction false} ClassIsShape(xs: seq<nat>, ys: seq<nat>, i: nat, j: nat)
    requires FromGrid(xs, ys) && i < |xs| && j < |xs|
    ensures ClassOf(xs, ys, i) == ClassOf(xs, ys, j) <==> xs[i] == xs[j] && ys[i] == ys[j]
    ensures ClassOf(xs, ys, i) == 0 <==> xs[i] == xs[0] && ys[i] == ys[0]
  {
    var last := |xs| - 1;
    assert xs[i] == xs[0] || xs[i] == xs[last];
    assert ys[i] == ys[0] || ys[i] == ys[last];
    assert xs[j] == xs[0] || xs[j] == xs[last];
    assert ys[j] == ys[0] || ys[j] == ys[last];
  }

  /** On a real layout the gathered shapes come from the grid, and the number of
      classes says which axes are cut unevenly: 4 when both are, 2 when one is,
      1 when neither is. */
  lemma {:induction false} GatheredFromGrid(L: Layout, xs: seq<nat>, ys: seq<nat>, starts: seq<nat>)
    requires L.Valid() && Gathered(L, xs, ys, starts)
    ensures FromGrid(xs, ys)
    ensures Cases(xs, ys) == 4 <==> Rem(L.xsize, L.px) > 0 && Rem(L.ysize, L.py) > 0
    ensures Cases(xs, ys) == 1 <==> Rem(L.xsize, L.px) == 0 && Rem(L.ysize, L.py) == 0
  {
    var last := |xs| - 1;
    MulPositive(L.px, L.py);
    MulAddLeft(L.px - 1, 1, L.py);
    MulOne(L.py);
    RankCoords(L, Coord(L.px - 1, L.py - 1), 0);
    RankCoords(L, Coord(0, 0), 0);
    MulZero(L.py);
    MulComm(0, L.py);
    assert CoordsOf(L, last) == Coord(L.px - 1, L.py - 1);
    assert CoordsOf(L, 0) == Coord(0, 0);
    LengthBalanced(L.xsize, L.px, 0, L.px - 1);
    LengthBalanced(L.ysize, L.py, 0, L.py - 1);
    forall i | 0 <= i < |xs|
      ensures (xs[i] == xs[0] || xs[i] == xs[last]) && (ys[i] == ys[0] || ys[i] == ys[last])
    {
      RankCoords(L, Coord(0, 0), i);
      LengthBalanced(L.xsize, L.px, CoordsOf(L, i).x, L.px - 1);
      LengthBalanced(L.ysize, L.py, CoordsOf(L, i).y, L.py - 1);
      LengthBalanced(L.xsize, L.px, 0, CoordsOf(L, i).x);
      LengthBalanced(L.ysize, L.py, 0, CoordsOf(L, i).y);
    }
  }
  /** Every member is a rank from 1 to n - 1. */
  lemma {:induction false} MembersRange(xs: seq<nat>, ys: seq<nat>, g: nat, n: nat)
    requires |xs| == |ys| && 1 <= n <= |xs|
    ensures forall k :: 0 <= k < |Members(xs, ys, g, n)| ==> 1 <= Members(xs, ys, g, n)[k] < n
  {
    if n > 1 {
      MembersRange(xs, ys, g, n - 1);
    }
  }

  /** List g holds worker ranks only, and a rank is in it exactly when it is rank
      0 or a worker of class g. */
  lemma {:induction false} ListMembers(xs: seq<nat>, ys: seq<nat>, g: nat)
    requires FromGrid(xs, ys) && g < Cases(xs, ys)
    ensures |ClassLists(xs, ys)| == Cases(xs, ys)
    ensures forall k :: 0 <= k < |ClassLists(xs, ys)[g]| ==> ClassLists(xs, ys)[g][k] < |xs|
    ensures forall r :: 0 <= r < |xs| ==> (r in ClassLists(xs, ys)[g] <==> r == 0 || ClassOf(xs, ys, r) == g)
  {
    var list := ClassLists(xs, ys)[g];
    assert list == [0] + Members(xs, ys, g, |xs|);
    MembersRange(xs, ys, g, |xs|);
    forall r | 1 <= r < |xs| ensures r in list <==> ClassOf(xs, ys, r) == g {
      ClassListsPartition(xs, ys, r);
    }
  }

  /** The tile shape (width, height) of the workers of class g. */
  function ClassShape(xs: seq<nat>, ys: seq<nat>, g: nat): (nat, nat)
    requires |xs| == |ys| && |xs| >= 1
  {
    var last := |xs| - 1;
    var c := Cases(xs, ys);
    if c == 4 then (if g % 2 == 1 then xs[last] else xs[0], if g >= 2 then ys[last] else ys[0])
    else if c == 2 && g == 1 then (xs[last], ys[last])
    else (xs[0], ys[0])
  }

  /** Every worker, rank 0 included, has the shape of its class, and no class is
      wider or taller than worker 0's tile. */
  lemma {:induction false} ClassShapeOf(xs: seq<nat>, ys: seq<nat>, i: nat, g: nat)
    requires FromGrid(xs, ys) && i < |xs| && g < Cases(xs, ys)
    ensures ClassShape(xs, ys, ClassOf(xs, ys, i)) == (xs[i], ys[i])
    ensures ClassShape(xs, ys, g).0 <= xs[0] && ClassShape(xs, ys, g).1 <= ys[0]
  {
    var last := |xs| - 1;
    assert xs[i] == xs[0] || xs[i] == xs[last];
    assert ys[i] == ys[0] || ys[i] == ys[last];
  }
}
