/** The final gather of main (lines 810-884). For every shape class, from the
    last one down to class 0, rank 0 receives the blurred tile of every member
    of the class with one MPI_Gatherv. Its receive datatype is a vector of h
    blocks of w words with stride xsize, resized to the extent of one word, and
    member i's block is placed at displacement startidxrcounts[member i]. The
    image is the output buffer zeroed by calloc (line 835), seen as a sequence of words. */
module Assembly {
  import opened Arith
  import opened Partition
  import opened Topology
  import opened Classes
  import opened Swap
  import opened Halo
  import opened Blur

  /** The number of pixels of the image. */
  function Pixels(L: Layout): nat
    requires L.Valid()
  {
    Mul(L.ysize, L.xsize)
  }

  /** Flat index p is covered by the vector datatype of lines 859-865 (h blocks
      of w words, stride xsize) placed at displacement displ. */
  predicate InBlock(L: Layout, displ: nat, w: nat, h: nat, p: nat)
    requires L.Valid()
  {
    displ <= p && Rem(p - displ, L.xsize) < w && Quot(p - displ, L.xsize) < h
  }

  /** The position in the received message of the word the datatype puts at p:
      the message is read in order, w words per block. */
  function BlockIndex(L: Layout, displ: nat, w: nat, p: nat): nat
    requires L.Valid() && displ <= p
  {
    Flat(Quot(p - displ, L.xsize), Rem(p - displ, L.xsize), w)
  }

  /** The effect on final of receiving one member's message of h * w words at
      displacement displ. */
  function Receive(L: Layout, final: seq<int>, displ: nat, w: nat, h: nat, data: seq<int>): seq<int>
    requires L.Valid() && |data| >= Mul(h, w)
  {
    seq(|final|, p requires 0 <= p < |final| =>
      if InBlock(L, displ, w, h, p) then
        FlatBound(Quot(p - displ, L.xsize), Rem(p - displ, L.xsize), w, h);
        data[BlockIndex(L, displ, w, p)]
      else final[p])
  }

  /** The datatype placed at the startidx of tile (i, j), with w and h no larger
      than the tile, covers exactly the pixels in the first h rows and first w
      columns of that tile, and puts at each the word of the message at that
      pixel's local position. */
  lemma {:induction false} BlockInTile(L: Layout, i: nat, j: nat, w: nat, h: nat, p: nat)
    requires L.Valid() && i < L.px && j < L.py && w <= Width(L, i) && h <= Height(L, j) && p < Pixels(L)
    ensures InBlock(L, StartIdx(L, i, j), w, h, p) <==>
              Locate(L, p).0 == i && Locate(L, p).1 == j && Locate(L, p).2 < h && Locate(L, p).3 < w
    ensures InBlock(L, StartIdx(L, i, j), w, h, p) ==>
              BlockIndex(L, StartIdx(L, i, j), w, p) == Flat(Locate(L, p).2, Locate(L, p).3, w)
  {
    var d := StartIdx(L, i, j);
    var t := Locate(L, p);
    TileInside(L, i, j);
    if InBlock(L, d, w, h, p) {
      var r, c := Quot(p - d, L.xsize), Rem(p - d, L.xsize);
      QuotRem(p - d, L.xsize);
      assert InTile(L, i, j, r, c, p);
      TilesCoverOnce(L, i, j, r, c, p);
    }
    if t.0 == i && t.1 == j && t.2 < h && t.3 < w {
      FlatSplit(t.2, t.3, L.xsize);
    }
  }

  /** The rank of the worker whose tile holds pixel p. */
  function OwnerOf(L: Layout, p: nat): (o: nat)
    requires L.Valid() && p < Pixels(L)
    ensures o < Mul(L.px, L.py) && CoordsOf(L, o) == Coord(Locate(L, p).0, Locate(L, p).1)
  {
    var t := Locate(L, p);
    RankCoords(L, Coord(t.0, t.1), 0);
    Rank(L, Coord(t.0, t.1))
  }

  /** Every worker's result holds its whole tile, row by row (rptr). */
  predicate Sized(L: Layout, results: seq<seq<int>>)
    requires L.Valid()
  {
    |results| == Mul(L.px, L.py) &&
    forall r :: 0 <= r < |results| ==> |results[r]| == Mul(Height(L, CoordsOf(L, r).y), Width(L, CoordsOf(L, r).x))
  }

  /** The image put together: every pixel comes from the tile of its owner, at
      its local position. */
  function Assembled(L: Layout, results: seq<seq<int>>): (img: seq<int>)
    requires L.Valid() && Sized(L, results)
    ensures |img| == Pixels(L)
  {
    seq(Pixels(L), p requires 0 <= p < Pixels(L) =>
      var t := Locate(L, p);
      FlatBound(t.2, t.3, Width(L, t.0), Height(L, t.1));
      results[OwnerOf(L, p)][Flat(t.2, t.3, Width(L, t.0))])
  }

  /** Tiles placed at startidx with row stride xsize make up the image: local
      position (r, c) of worker o's tile is pixel startidx + r * xsize + c, and
      that pixel holds element r * xpxl + c of o's result. */
  lemma {:induction false} AssembledAt(L: Layout, results: seq<seq<int>>, o: nat, r: nat, c: nat)
    requires L.Valid() && Sized(L, results) && o < |results|
    requires r < Height(L, CoordsOf(L, o).y) && c < Width(L, CoordsOf(L, o).x)
    ensures StartIdx(L, CoordsOf(L, o).x, CoordsOf(L, o).y) + Mul(r, L.xsize) + c < Pixels(L)
    ensures Flat(r, c, Width(L, CoordsOf(L, o).x)) < |results[o]|
    ensures Assembled(L, results)[StartIdx(L, CoordsOf(L, o).x, CoordsOf(L, o).y) + Mul(r, L.xsize) + c] ==
              results[o][Flat(r, c, Width(L, CoordsOf(L, o).x))]
  {
    var s := CoordsOf(L, o);
    var p := StartIdx(L, s.x, s.y) + Mul(r, L.xsize) + c;
    RankCoords(L, s, o);
    TilesCoverOnce(L, s.x, s.y, r, c, p);
    FlatBound(r, c, Width(L, s.x), Height(L, s.y));
  }

  /** Pixel p is in the part of its owner's tile that a gather of the members
      with shape (w, h) writes. */
  predicate Covered(L: Layout, members: seq<nat>, w: nat, h: nat, p: nat)
    requires L.Valid() && p < Pixels(L)
  {
    OwnerOf(L, p) in members && Locate(L, p).2 < h && Locate(L, p).3 < w
  }

  /** What pixel p holds after the gather of the members with shape (w, h): the
      word of its owner's message at its local position when it is covered, and
      the old value otherwise. */
  function Landed(L: Layout, results: seq<seq<int>>, members: seq<nat>, w: nat, h: nat, before: int, p: nat): int
    requires L.Valid() && p < Pixels(L) && |results| == Mul(L.px, L.py)
    requires Covered(L, members, w, h, p) ==> |results[OwnerOf(L, p)]| >= Mul(h, w)
  {
    if Covered(L, members, w, h, p) then
      FlatBound(Locate(L, p).2, Locate(L, p).3, w, h);
      results[OwnerOf(L, p)][Flat(Locate(L, p).2, Locate(L, p).3, w)]
    else before
  }

  /** Every member is a worker whose startidx is the one identify_thread gives and
      whose tile is at least w wide and h tall, with at least h * w words of
      result to send. */
  predicate Senders(L: Layout, starts: seq<nat>, results: seq<seq<int>>, members: seq<nat>, w: nat, h: nat)
    requires L.Valid()
  {
    |starts| == |results| == Mul(L.px, L.py) &&
    forall k :: 0 <= k < |members| ==>
      members[k] < |results| && |results[members[k]]| >= Mul(h, w) &&
      starts[members[k]] == StartIdx(L, CoordsOf(L, members[k]).x, CoordsOf(L, members[k]).y) &&
      w <= Width(L, CoordsOf(L, members[k]).x) && h <= Height(L, CoordsOf(L, members[k]).y)
  }

  /** One MPI_Gatherv of the loop of lines 857-884: the displacement of member
      i is startidxrcounts[members[i]] (lines 875-880), and rank 0 receives each
      member's first h * w words there through the vector datatype. The tiles
      are disjoint, so the order in which the messages land does not matter. */
  method GatherClass(L: Layout, starts: seq<nat>, results: seq<seq<int>>, members: seq<nat>, w: nat, h: nat,
                     final: seq<int>) returns (out: seq<int>)
    requires L.Valid() && Senders(L, starts, results, members, w, h) && |final| == Pixels(L)
    ensures |out| == |final|
    ensures forall p :: 0 <= p < |final| ==> out[p] == Landed(L, results, members, w, h, final[p], p)
  {
    out := final;
    for i := 0 to |members|
      invariant |out| == |final|
      invariant forall p :: 0 <= p < |final| ==> out[p] == Landed(L, results, members[..i], w, h, final[p], p)
    {
      var m := members[i];
      var s := CoordsOf(L, m);
      RankCoords(L, s, m);
      var next := Receive(L, out, starts[m], w, h, results[m]);
      forall p | 0 <= p < |final|
        ensures next[p] == Landed(L, results, members[..i + 1], w, h, final[p], p)
      {
        BlockInTile(L, s.x, s.y, w, h, p);
        RankCoords(L, Coord(Locate(L, p).0, Locate(L, p).1), m);
        assert members[..i + 1] == members[..i] + [m];
      }
      out := next;
    }
    assert members[..|members|] == members;
  }

  /** Pixel p is final once the classes from g on have been gathered: its owner
      is a worker other than rank 0 in one of those classes, or it is rank 0's and
      class 0, which has rank 0's own shape, is gathered. */
  predicate Settled(L: Layout, xs: seq<nat>, ys: seq<nat>, g: nat, p: nat)
    requires L.Valid() && p < Pixels(L) && |xs| == |ys| == Mul(L.px, L.py)
  {
    var o := OwnerOf(L, p);
    if o == 0 then g == 0 else ClassOf(xs, ys, o) >= g
  }

  /** Lines 810-884: build the classes, then gather them from the last down to
      class 0 into the zeroed image, each with the shape of its class. The
      result is the image put together from all the tiles. */
  method Assemble(L: Layout, xs: seq<nat>, ys: seq<nat>, starts: seq<nat>, results: seq<seq<int>>) returns (image: seq<int>)
    requires L.Valid() && Gathered(L, xs, ys, starts) && Sized(L, results)
    ensures image == Assembled(L, results)
  {
    GatheredFromGrid(L, xs, ys, starts);
    var cases, thid := BuildClasses(xs, ys);
    var final := seq(Pixels(L), p => 0);
    var g: nat := cases;
    while g > 0
      invariant g <= cases && |final| == Pixels(L)
      invariant forall p :: 0 <= p < Pixels(L) && Settled(L, xs, ys, g, p) ==> final[p] == Assembled(L, results)[p]
    {
      g := g - 1;
      var (w, h) := ClassShape(xs, ys, g);
      ClassersSend(L, xs, ys, starts, results, g);
      var next := GatherClass(L, starts, results, thid[g], w, h, final);
      ClassSettles(L, xs, ys, starts, results, g, final, next);
      final := next;
    }
    image := final;
  }

  /** Gathering class g into an image whose pixels from the classes after g are
      final leaves the pixels of class g final too. */
  lemma {:induction false} ClassSettles(L: Layout, xs: seq<nat>, ys: seq<nat>, starts: seq<nat>,
                                        results: seq<seq<int>>, g: nat, final: seq<int>, next: seq<int>)
    requires L.Valid() && Gathered(L, xs, ys, starts) && Sized(L, results)
    requires FromGrid(xs, ys) && g < Cases(xs, ys)
    requires Senders(L, starts, results, ClassLists(xs, ys)[g], ClassShape(xs, ys, g).0, ClassShape(xs, ys, g).1)
    requires |final| == |next| == Pixels(L)
    requires forall p :: 0 <= p < Pixels(L) && Settled(L, xs, ys, g + 1, p) ==> final[p] == Assembled(L, results)[p]
    requires forall p :: 0 <= p < |final| ==>
               next[p] == Landed(L, results, ClassLists(xs, ys)[g], ClassShape(xs, ys, g).0, ClassShape(xs, ys, g).1, final[p], p)
    ensures forall p :: 0 <= p < Pixels(L) && Settled(L, xs, ys, g, p) ==> next[p] == Assembled(L, results)[p]
  {
    ListMembers(xs, ys, g);
    forall p | 0 <= p < Pixels(L) && Settled(L, xs, ys, g, p)
      ensures next[p] == Assembled(L, results)[p]
    {
      SettleStep(L, xs, ys, results, g, final[p], next[p], p);
    }
  }

  /** The members of class g, with the shape of class g, can all send. */
  lemma {:induction false} ClassersSend(L: Layout, xs: seq<nat>, ys: seq<nat>, starts: seq<nat>,
                                        results: seq<seq<int>>, g: nat)
    requires L.Valid() && Gathered(L, xs, ys, starts) && Sized(L, results)
    requires FromGrid(xs, ys) && g < Cases(xs, ys)
    ensures Senders(L, starts, results, ClassLists(xs, ys)[g], ClassShape(xs, ys, g).0, ClassShape(xs, ys, g).1)
  {
    var list := ClassLists(xs, ys)[g];
    var (w, h) := ClassShape(xs, ys, g);
    ListMembers(xs, ys, g);
    forall k | 0 <= k < |list|
      ensures w <= xs[list[k]] && h <= ys[list[k]] && |results[list[k]]| >= Mul(h, w)
    {
      var m := list[k];
      ClassShapeOf(xs, ys, m, g);
      ClassShapeOf(xs, ys, 0, g);
      if m != 0 {
        assert ClassOf(xs, ys, m) == g;
      }
      MulMono(h, ys[m], w);
      MulMonoRight(ys[m], w, xs[m]);
    }
  }

  /** Gathering class g keeps the pixels already final and makes final those
      of class g. */
  lemma {:induction false} SettleStep(L: Layout, xs: seq<nat>, ys: seq<nat>, results: seq<seq<int>>, g: nat,
                                      before: int, after: int, p: nat)
    requires L.Valid() && Sized(L, results) && p < Pixels(L) && |xs| == |ys| == Mul(L.px, L.py)
    requires FromGrid(xs, ys) && g < Cases(xs, ys)
    requires forall r :: 0 <= r < |xs| ==> xs[r] == Width(L, CoordsOf(L, r).x) && ys[r] == Height(L, CoordsOf(L, r).y)
    requires ListMembersHold(xs, ys, g)
    requires Settled(L, xs, ys, g + 1, p) ==> before == Assembled(L, results)[p]
    requires Covered(L, ClassLists(xs, ys)[g], ClassShape(xs, ys, g).0, ClassShape(xs, ys, g).1, p) ==>
               |results[OwnerOf(L, p)]| >= Mul(ClassShape(xs, ys, g).1, ClassShape(xs, ys, g).0)
    requires after == Landed(L, results, ClassLists(xs, ys)[g], ClassShape(xs, ys, g).0, ClassShape(xs, ys, g).1, before, p)
    ensures Settled(L, xs, ys, g, p) ==> after == Assembled(L, results)[p]
  {
    var o := OwnerOf(L, p);
    var t := Locate(L, p);
    ClassShapeOf(xs, ys, o, g);
    if o in ClassLists(xs, ys)[g] && (o != 0 || g == 0) {
      assert ClassShape(xs, ys, g) == (Width(L, t.0), Height(L, t.1));
    }
  }

  /** List g holds rank 0 and exactly the workers of class g. */
  predicate ListMembersHold(xs: seq<nat>, ys: seq<nat>, g: nat)
    requires FromGrid(xs, ys) && g < Cases(xs, ys)
  {
    forall r :: 0 <= r < |xs| ==> (r in ClassLists(xs, ys)[g] <==> r == 0 || ClassOf(xs, ys, r) == g)
  }

  /** The class shape as line 860 reads it: the tile size of the second entry of
      the list, cases_thid[g][1]. None stands for the read past the end of a
      list that holds rank 0 alone. */
  function SourceShape(xs: seq<nat>, ys: seq<nat>, g: nat): Option<(nat, nat)>
    requires FromGrid(xs, ys) && g < Cases(xs, ys)
  {
    ListMembers(xs, ys, g);
    var list := ClassLists(xs, ys)[g];
    if |list| >= 2 then Some((xs[list[1]], ys[list[1]])) else None
  }

  /** The read of line 860 falls past the list exactly when no worker other than
      rank 0 is in class g, and where it does not, it gives the class shape. */
  lemma {:induction false} SourceShapeAgrees(xs: seq<nat>, ys: seq<nat>, g: nat)
    requires FromGrid(xs, ys) && g < Cases(xs, ys)
    ensures SourceShape(xs, ys, g) == None <==> forall r :: 1 <= r < |xs| ==> ClassOf(xs, ys, r) != g
    ensures SourceShape(xs, ys, g) != None ==> SourceShape(xs, ys, g) == Some(ClassShape(xs, ys, g))
  {
    ListMembers(xs, ys, g);
    var list := ClassLists(xs, ys)[g];
    assert list == [0] + Members(xs, ys, g, |xs|);
    MembersRange(xs, ys, g, |xs|);
    if |list| >= 2 {
      var m := list[1];
      assert m == Members(xs, ys, g, |xs|)[0];
      ClassShapeOf(xs, ys, m, g);
      assert 1 <= m < |xs| && ClassOf(xs, ys, m) == g;
    } else {
      forall r | 1 <= r < |xs| ensures ClassOf(xs, ys, r) != g {
        assert r !in list;
      }
    }
  }

  /** With a single process the only list is rank 0 alone, so the read of line
      860 falls past it. */
  lemma {:induction false} SingleProcessReadsPastList(L: Layout, xs: seq<nat>, ys: seq<nat>, starts: seq<nat>)
    requires L.Valid() && L.px == 1 && L.py == 1 && Gathered(L, xs, ys, starts)
    ensures Cases(xs, ys) == 1 && SourceShape(xs, ys, 0) == None
  {
    GatheredFromGrid(L, xs, ys, starts);
    MulOne(1);
    SourceShapeAgrees(xs, ys, 0);
  }

  /** With two workers and an odd split along the cut axis, rank 1 is in a class
      of its own, so class 0 is rank 0 alone and the read of line 860 falls past
      it. */
  lemma {:induction false} TwoWorkersReadsPastList(L: Layout, xs: seq<nat>, ys: seq<nat>, starts: seq<nat>)
    requires L.Valid() && Mul(L.px, L.py) == 2 && (Rem(L.xsize, L.px) > 0 || Rem(L.ysize, L.py) > 0)
    requires Gathered(L, xs, ys, starts)
    ensures Cases(xs, ys) == 2 && ClassLists(xs, ys) == [[0], [0, 1]] && SourceShape(xs, ys, 0) == None
  {
    if L.px >= 2 && L.py >= 2 {
      MulMono(2, L.px, L.py);
    }
    if L.px == 1 {
      QuotRem(L.xsize, 1);
    } else {
      QuotRem(L.ysize, 1);
    }
    GatheredFromGrid(L, xs, ys, starts);
    assert |xs| == 2;
    var c := Cases(xs, ys);
    assert c == 2;
    assert ClassOf(xs, ys, 1) == 1;
    assert Members(xs, ys, 0, 2) == [];
    assert Members(xs, ys, 1, 2) == [1];
    var lists := ClassLists(xs, ys);
    assert |lists| == 2 && lists[0] == [0] && lists[1] == [0, 1];
  }

  /** The smallest such layout: a 5 x 4 image on a 2 x 1 grid, where the tiles
      are 3 and 2 pixels wide. */
  lemma {:induction false} FiveByFourReadsPastList(xs: seq<nat>, ys: seq<nat>, starts: seq<nat>)
    requires Gathered(Layout(5, 4, 2, 1), xs, ys, starts)
    ensures xs == [3, 2] && ys == [4, 4]
    ensures ClassLists(xs, ys) == [[0], [0, 1]] && SourceShape(xs, ys, 0) == None
  {
    var L := Layout(5, 4, 2, 1);
    QuotRemUnique(2, 1, 5, 2);
    QuotRemUnique(4, 0, 4, 1);
    QuotRemUnique(0, 0, 0, 1);
    QuotRemUnique(1, 0, 1, 1);
    assert CoordsOf(L, 0) == Coord(0, 0) && CoordsOf(L, 1) == Coord(1, 0);
    assert Width(L, 0) == 3 && Width(L, 1) == 2 && Height(L, 0) == 4;
    assert xs[0] == 3 && xs[1] == 2 && ys[0] == 4 && ys[1] == 4;
    TwoWorkersReadsPastList(L, xs, ys, starts);
  }

  /** Every worker's result is the output of blur on what the halo exchange
      delivers to it. */
  ghost predicate AllBlurred(L: Layout, tiles: seq<seq<Word>>, k: nat, kernel: seq<seq<int>>, results: seq<seq<int>>)
    requires Shaped(L, tiles) && HaloFits(L, k) && KernelShape(kernel, k)
  {
    |results| == Mul(L.px, L.py) &&
    forall r :: 0 <= r < |results| ==>
      (RankCoords(L, Coord(0, 0), r);
       results[r] == Blurred(WorkerArgs(L, tiles, CoordsOf(L, r), k, kernel)))
  }

  /** The zero-padded convolution of the whole image: pixel p is the kernel sum
      around column p % xsize and row p / xsize. */
  ghost function GlobalImage(G: seq<Word>, L: Layout, kernel: seq<seq<int>>, k: nat): (img: seq<int>)
    requires L.Valid() && IsImage(G, L) && KernelShape(kernel, k)
    ensures |img| == Pixels(L)
  {
    seq(Pixels(L), p requires 0 <= p < Pixels(L) =>
      GlobalPixelSum(G, L, kernel, k, Rem(p, L.xsize), Quot(p, L.xsize), 2 * k + 1))
  }

  /** Pixel p of the gathered image is the global kernel sum at p. */
  lemma {:induction false} PixelIsGlobal(G: seq<Word>, L: Layout, tiles: seq<seq<Word>>, k: nat,
                                         kernel: seq<seq<int>>, results: seq<seq<int>>, p: nat)
    requires Holds(G, L, tiles) && HaloFits(L, k) && KernelShape(kernel, k)
    requires AllBlurred(L, tiles, k, kernel, results) && Sized(L, results) && p < Pixels(L)
    ensures Assembled(L, results)[p] == GlobalPixelSum(G, L, kernel, k, Rem(p, L.xsize), Quot(p, L.xsize), 2 * k + 1)
    ensures Assembled(L, results)[p] == GlobalImage(G, L, kernel, k)[p]
  {
    var t := Locate(L, p);
    var o := OwnerOf(L, p);
    var me := Coord(t.0, t.1);
    var W := Width(L, t.0);
    var q := Flat(t.2, t.3, W);
    FlatBound(t.2, t.3, W, Height(L, t.1));
    FlatSplit(t.2, t.3, W);
    LocateSplits(L, p);
    assert results[o] == Blurred(WorkerArgs(L, tiles, me, k, kernel));
    BlurIsGlobal(G, L, tiles, me, k, kernel);
    var f := WorkerFrame(L, me, k);
    assert f.startX + Rem(q, f.xpxl) == Rem(p, L.xsize) && f.startY + Quot(q, f.xpxl) == Quot(p, L.xsize);
    assert Assembled(L, results)[p] == results[o][q];
    assert results[o][q] == GlobalBlurred(G, L, kernel, f)[q];
    assert GlobalBlurred(G, L, kernel, f)[q] == GlobalAt(G, L, kernel, f, q);
    GlobalAtPixel(G, L, kernel, f, q, k, Rem(p, L.xsize), Quot(p, L.xsize));
  }

  /** Every result of blur has the size of its worker's tile. */
  lemma {:induction false} AllBlurredSized(L: Layout, tiles: seq<seq<Word>>, k: nat, kernel: seq<seq<int>>,
                                           results: seq<seq<int>>)
    requires Shaped(L, tiles) && HaloFits(L, k) && KernelShape(kernel, k) && AllBlurred(L, tiles, k, kernel, results)
    ensures Sized(L, results)
  {
    forall r | 0 <= r < |results|
      ensures |results[r]| == Mul(Height(L, CoordsOf(L, r).y), Width(L, CoordsOf(L, r).x))
    {
      RankCoords(L, Coord(0, 0), r);
    }
  }

  /** The composed theorem: when every worker starts from its part of the image
      G, exchanges halos and blurs, the image rank 0 gathers is the zero-padded
      convolution of the whole of G. */
  lemma {:induction false} BlurredImage(G: seq<Word>, L: Layout, tiles: seq<seq<Word>>, k: nat,
                                        kernel: seq<seq<int>>, results: seq<seq<int>>)
    requires Holds(G, L, tiles) && HaloFits(L, k) && KernelShape(kernel, k)
    requires AllBlurred(L, tiles, k, kernel, results)
    ensures Sized(L, results) && Assembled(L, results) == GlobalImage(G, L, kernel, k)
  {
    AllBlurredSized(L, tiles, k, kernel, results);
    forall p | 0 <= p < Pixels(L)
      ensures Assembled(L, results)[p] == GlobalImage(G, L, kernel, k)[p]
    {
      PixelIsGlobal(G, L, tiles, k, kernel, results, p);
    }
  }
}
