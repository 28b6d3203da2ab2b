/** The halo exchange of main (lines 594-720), as its effect on the receiving
    worker. Every worker holds its tile (ptr); a neighbour's message is cut from
    the neighbour's tile exactly as its MPI_Send describes it (a contiguous run,
    or an MPI_Type_vector of `count` blocks of `block` samples with the sender's
    xpxl as stride), and the receiver's MPI_Recv drops it into a zeroed (calloc)
    halo buffer at the offset the program gives. When every tile is the part of
    one global image G that identify_thread assigns to its worker, each halo
    holds the samples of G around the receiver's tile, and zeros outside G. */
module Halo {
  import opened Arith
  import opened Partition
  import opened Topology
  import opened Swap

  /** G holds an image of ysize rows of xsize 16-bit samples, row-major. */
  predicate IsImage(G: seq<Word>, L: Layout) {
    |G| == Mul(L.ysize, L.xsize)
  }

  /** Sample (x, y) of the image, and 0 outside it. */
  function Extended(G: seq<Word>, L: Layout, x: int, y: int): Word
    requires IsImage(G, L)
  {
    if 0 <= x < L.xsize && 0 <= y < L.ysize then
      FlatBound(y, x, L.xsize, L.ysize);
      G[Mul(y, L.xsize) + x]
    else
      0
  }

  // --- strided blocks -------------------------------------------------------------

  /** One element of MPI_Type_vector(count, block, stride) sent from &buf[start]:
      count blocks of block samples, each block starting stride samples after the
      previous one. */
  function Vector(buf: seq<Word>, start: nat, count: nat, block: nat, stride: nat): (msg: seq<Word>)
    requires count > 0 ==> start + Mul(count - 1, stride) + block <= |buf|
    ensures |msg| == Mul(count, block)
    decreases count
  {
    if count == 0 then [] else buf[start .. start + block] + Vector(buf, start + stride, count - 1, block, stride)
  }

  /** Element c of block m of a vector message is the sample m * stride + c
      past start. */
  lemma {:induction false} VectorAt(buf: seq<Word>, start: nat, count: nat, block: nat, stride: nat, m: nat, c: nat)
    requires m < count && c < block && start + Mul(count - 1, stride) + block <= |buf|
    ensures Mul(m, block) + c < Mul(count, block) && start + Mul(m, stride) + c < |buf|
    ensures Vector(buf, start, count, block, stride)[Mul(m, block) + c] == buf[start + Mul(m, stride) + c]
    decreases m
  {
    MulMono(m, count - 1, stride);
    FlatBound(m, c, block, count);
    var first := buf[start .. start + block];
    var rest := Vector(buf, start + stride, count - 1, block, stride);
    assert Vector(buf, start, count, block, stride) == first + rest;
    if m == 0 {
      MulZero(block);
      MulZero(stride);
      MulComm(0, block);
      MulComm(0, stride);
      assert Mul(m, block) + c == c && start + Mul(m, stride) + c == start + c;
      assert (first + rest)[c] == buf[start + c];
    } else {
      VectorAt(buf, start + stride, count - 1, block, stride, m - 1, c);
      MulAddLeft(m - 1, 1, block);
      MulAddLeft(m - 1, 1, stride);
      MulOne(block);
      MulOne(stride);
      assert Mul(m, block) + c == block + (Mul(m - 1, block) + c);
      assert (first + rest)[block + (Mul(m - 1, block) + c)] == rest[Mul(m - 1, block) + c];
      assert start + stride + Mul(m - 1, stride) + c == start + Mul(m, stride) + c;
    }
  }

  // --- tiles -----------------------------------------------------------------

  /** The tile buffer (ptr) of worker (i, j) when the image is G: Height(j) rows
      of Width(i) samples, row r being the samples of image row Y0(j) + r from
      column X0(i) on. It is cut from the image with the same strided pattern as
      a vector message whose stride is the image width. */
  function Tile(G: seq<Word>, L: Layout, i: nat, j: nat): (t: seq<Word>)
    requires L.Valid() && IsImage(G, L) && i < L.px && j < L.py
    ensures |t| == Mul(Height(L, j), Width(L, i))
  {
    TileInside(L, i, j);
    var H := Height(L, j);
    if H > 0 then
      MulAddLeft(Y0(L, j), H - 1, L.xsize);
      RowEnd(Y0(L, j) + H - 1, L.xsize, L.ysize);
      Vector(G, StartIdx(L, i, j), H, Width(L, i), L.xsize)
    else
      Vector(G, StartIdx(L, i, j), H, Width(L, i), L.xsize)
  }

  /** Local sample (c, r) of the tile of worker (i, j) is image sample
      (X0(i) + c, Y0(j) + r). */
  lemma {:induction false} TileAt(G: seq<Word>, L: Layout, i: nat, j: nat, r: nat, c: nat)
    requires L.Valid() && IsImage(G, L) && i < L.px && j < L.py && r < Height(L, j) && c < Width(L, i)
    ensures Mul(r, Width(L, i)) + c < Mul(Height(L, j), Width(L, i))
    ensures Tile(G, L, i, j)[Mul(r, Width(L, i)) + c] == Extended(G, L, X0(L, i) + c, Y0(L, j) + r)
  {
    TileInside(L, i, j);
    var H := Height(L, j);
    MulAddLeft(Y0(L, j), H - 1, L.xsize);
    RowEnd(Y0(L, j) + H - 1, L.xsize, L.ysize);
    VectorAt(G, StartIdx(L, i, j), H, Width(L, i), L.xsize, r, c);
    MulAddLeft(Y0(L, j), r, L.xsize);
    RowEnd(Y0(L, j) + r, L.xsize, L.ysize);
    assert StartIdx(L, i, j) + Mul(r, L.xsize) + c == Mul(Y0(L, j) + r, L.xsize) + (X0(L, i) + c);
    assert 0 <= X0(L, i) + c < L.xsize && 0 <= Y0(L, j) + r < L.ysize;
  }

  /** The tiles of all workers, by grid rank, each of its worker's size. */
  predicate Shaped(L: Layout, tiles: seq<seq<Word>>) {
    L.Valid() && |tiles| == Mul(L.px, L.py) &&
    forall r :: 0 <= r < |tiles| ==> |tiles[r]| == Mul(Height(L, CoordsOf(L, r).y), Width(L, CoordsOf(L, r).x))
  }

  /** Every worker's tile is its part of the image G. */
  predicate Holds(G: seq<Word>, L: Layout, tiles: seq<seq<Word>>) {
    Shaped(L, tiles) && IsImage(G, L) &&
    forall r :: 0 <= r < |tiles| && InGrid(L, CoordsOf(L, r).x, CoordsOf(L, r).y) ==>
      tiles[r] == Tile(G, L, CoordsOf(L, r).x, CoordsOf(L, r).y)
  }

  /** The tile of the worker at grid position s. */
  function TileOf(L: Layout, tiles: seq<seq<Word>>, s: Coord): (t: seq<Word>)
    requires Shaped(L, tiles) && InGrid(L, s.x, s.y)
    ensures |t| == Mul(Height(L, s.y), Width(L, s.x))
  {
    RankCoords(L, s, 0);
    tiles[Rank(L, s)]
  }

  /** Under Holds, local sample (c, r) of the tile of s, at q = r * xpxl + c, is
      image sample (x, y) = (X0 + c, Y0 + r). */
  lemma {:induction false} TileOfHolds(G: seq<Word>, L: Layout, tiles: seq<seq<Word>>, s: Coord, r: nat, c: nat,
                                       q: nat, x: int, y: int)
    requires Holds(G, L, tiles) && InGrid(L, s.x, s.y) && r < Height(L, s.y) && c < Width(L, s.x)
    requires q == Mul(r, Width(L, s.x)) + c && x == X0(L, s.x) + c && y == Y0(L, s.y) + r
    ensures q < Mul(Height(L, s.y), Width(L, s.x))
    ensures TileOf(L, tiles, s)[q] == Extended(G, L, x, y)
  {
    RankCoords(L, s, 0);
    var n := Rank(L, s);
    assert CoordsOf(L, n) == s;
    assert tiles[n] == Tile(G, L, s.x, s.y);
    TileAt(G, L, s.x, s.y, r, c);
  }

  /** Every worker's tile holds its part of the image, sample by sample: what the
      halo lemmas need from Holds, without the way the tiles were cut. */
  ghost predicate Known(G: seq<Word>, L: Layout, tiles: seq<seq<Word>>) {
    Shaped(L, tiles) && IsImage(G, L) &&
    forall s: Coord {:trigger TileOf(L, tiles, s)} :: InGrid(L, s.x, s.y) ==> TileContent(G, L, s, TileOf(L, tiles, s))
  }

  /** Tiles cut from the image hold its samples. */
  lemma {:induction false} HoldsKnown(G: seq<Word>, L: Layout, tiles: seq<seq<Word>>)
    requires Holds(G, L, tiles)
    ensures Known(G, L, tiles)
  {
    forall s: Coord | InGrid(L, s.x, s.y)
      ensures TileContent(G, L, s, TileOf(L, tiles, s))
    {
      TileHoldsContent(G, L, tiles, s);
    }
  }

  /** Local sample (c, r) of the tile of s, at q = r * xpxl + c, is image sample
      (x, y) = (X0 + c, Y0 + r). */
  lemma {:induction false} TileOfAt(G: seq<Word>, L: Layout, tiles: seq<seq<Word>>, s: Coord, r: nat, c: nat,
                                    q: nat, x: int, y: int)
    requires Known(G, L, tiles) && InGrid(L, s.x, s.y) && r < Height(L, s.y) && c < Width(L, s.x)
    requires q == Mul(r, Width(L, s.x)) + c && x == X0(L, s.x) + c && y == Y0(L, s.y) + r
    ensures q < Mul(Height(L, s.y), Width(L, s.x))
    ensures TileOf(L, tiles, s)[q] == Extended(G, L, x, y)
  {
    assert TileContent(G, L, s, TileOf(L, tiles, s));
    assert q == Flat(r, c, Width(L, s.x));
  }

  // --- the message buffers -------------------------------------------------------

  /** calloc(n, sizeof(short)): n zero samples. */
  function Zeros(n: nat): (z: seq<Word>)
    ensures |z| == n
  {
    if n == 0 then [] else [0] + Zeros(n - 1)
  }

  /** Every sample of a calloc'ed buffer is zero. */
  lemma {:induction false} ZerosAt(n: nat, p: nat)
    requires p < n
    ensures Zeros(n)[p] == 0
  {
    if p > 0 {
      ZerosAt(n - 1, p - 1);
    }
  }

  /** The count samples sent from &buf[start] with the basic datatype. */
  function Contiguous(buf: seq<Word>, start: nat, count: nat): (msg: seq<Word>)
    requires start + count <= |buf|
    ensures |msg| == count
  {
    buf[start .. start + count]
  }

  /** MPI_Recv of msg into &buf[off] with room for count samples: the message
      overwrites |msg| samples from off on (a message longer than count would be
      a truncation error, which the precondition excludes). */
  function Deliver(buf: seq<Word>, off: nat, msg: seq<Word>, count: nat): (r: seq<Word>)
    requires |msg| <= count && off + count <= |buf|
    ensures |r| == |buf|
  {
    buf[..off] + msg + buf[off + |msg|..]
  }

  /** Where a received message lands. */
  lemma {:induction false} DeliverAt(buf: seq<Word>, off: nat, msg: seq<Word>, count: nat, p: nat)
    requires |msg| <= count && off + count <= |buf| && p < |buf|
    ensures Deliver(buf, off, msg, count)[p] == if off <= p < off + |msg| then msg[p - off] else buf[p]
  {
  }

  // --- the sends ---------------------------------------------------------------

  /** Every strip and corner the exchange sends fits in its sender's tile: khalf
      is at most the smaller tile length along every axis with more than one
      tile. */
  predicate HaloFits(L: Layout, k: nat)
    requires L.Valid()
  {
    (L.px > 1 ==> k <= Quot(L.xsize, L.px)) && (L.py > 1 ==> k <= Quot(L.ysize, L.py))
  }

  /** What HaloFits gives for a given tile. */
  lemma {:induction false} FitsTile(L: Layout, k: nat, i: nat, j: nat)
    requires L.Valid() && HaloFits(L, k) && i < L.px && j < L.py
    ensures L.px > 1 ==> k <= Width(L, i)
    ensures L.py > 1 ==> k <= Height(L, j)
  {
    LengthBalanced(L.xsize, L.px, i, L.px - 1);
    LengthBalanced(L.ysize, L.py, j, L.py - 1);
  }

  /** The count x k samples of the tile of s from its local sample (c0, r0) on,
      as one vector of count blocks of k samples with the sender's xpxl as
      stride. */
  function Block(L: Layout, tiles: seq<seq<Word>>, s: Coord, k: nat, r0: nat, c0: nat, count: nat): (msg: seq<Word>)
    requires Shaped(L, tiles) && InGrid(L, s.x, s.y)
    requires r0 + count <= Height(L, s.y) && c0 + k <= Width(L, s.x)
    ensures |msg| == Mul(count, k)
  {
    var W := Width(L, s.x);
    if count > 0 then
      MulAddLeft(r0, count - 1, W);
      RowEnd(r0 + count - 1, W, Height(L, s.y));
      Vector(TileOf(L, tiles, s), Mul(r0, W) + c0, count, k, W)
    else
      Vector(TileOf(L, tiles, s), Mul(r0, W) + c0, count, k, W)
  }

  /** Element c of row m of a block is image sample (X0 + c0 + c, Y0 + r0 + m)
      of the sender's tile. */
  lemma {:induction false} BlockAt(G: seq<Word>, L: Layout, tiles: seq<seq<Word>>, s: Coord, k: nat,
                                   r0: nat, c0: nat, count: nat, m: nat, c: nat)
    requires Known(G, L, tiles) && InGrid(L, s.x, s.y)
    requires r0 + count <= Height(L, s.y) && c0 + k <= Width(L, s.x)
    requires m < count && c < k
    ensures Mul(m, k) + c < Mul(count, k)
    ensures Block(L, tiles, s, k, r0, c0, count)[Mul(m, k) + c] ==
              Extended(G, L, X0(L, s.x) + (c0 + c), Y0(L, s.y) + (r0 + m))
  {
    var W, t := Width(L, s.x), TileOf(L, tiles, s);
    MulAddLeft(r0, count - 1, W);
    RowEnd(r0 + count - 1, W, Height(L, s.y));
    VectorAt(t, Mul(r0, W) + c0, count, k, W, m, c);
    MulAddLeft(r0, m, W);
    TileOfAt(G, L, tiles, s, r0 + m, c0 + c, Mul(r0, W) + c0 + Mul(m, W) + c,
             X0(L, s.x) + (c0 + c), Y0(L, s.y) + (r0 + m));
  }

  /** A block delivered at off: element c of its row m is image sample
      (x, y) = (X0 + c0 + c, Y0 + r0 + m) of the sender. */
  lemma {:induction false} DeliverBlockAt(G: seq<Word>, L: Layout, tiles: seq<seq<Word>>, s: Coord, k: nat,
                                          r0: nat, c0: nat, count: nat,
                                          buf: seq<Word>, off: nat, room: nat, m: nat, c: nat,
                                          p: nat, x: int, y: int)
    requires Known(G, L, tiles) && InGrid(L, s.x, s.y)
    requires r0 + count <= Height(L, s.y) && c0 + k <= Width(L, s.x)
    requires m < count && c < k && Mul(count, k) <= room && off + room <= |buf|
    requires p == off + Mul(m, k) + c && x == X0(L, s.x) + c0 + c && y == Y0(L, s.y) + r0 + m
    ensures p < |buf|
    ensures Deliver(buf, off, Block(L, tiles, s, k, r0, c0, count), room)[p] == Extended(G, L, x, y)
  {
    BlockAt(G, L, tiles, s, k, r0, c0, count, m, c);
    DeliverAt(buf, off, Block(L, tiles, s, k, r0, c0, count), room, p);
  }

  // --- halo[UP] and halo[DOWN] -------------------------------------------------

  /** The receiving worker me is in the grid, every worker holds a tile of its
      size, and khalf fits. */
  predicate Setup(L: Layout, tiles: seq<seq<Word>>, me: Coord, k: nat) {
    Shaped(L, tiles) && InGrid(L, me.x, me.y) && HaloFits(L, k)
  }

  /** The bottom khalf rows of the tile of s, sent contiguously from
      &ptr[xpxl * (ypxl - khalf)] with count xpxl * khalf (line 643). */
  function BottomRows(L: Layout, tiles: seq<seq<Word>>, s: Coord, k: nat): (msg: seq<Word>)
    requires Shaped(L, tiles) && InGrid(L, s.x, s.y) && k <= Height(L, s.y)
    ensures |msg| == Mul(k, Width(L, s.x))
  {
    var W, H := Width(L, s.x), Height(L, s.y);
    MulAddLeft(H - k, k, W);
    Contiguous(TileOf(L, tiles, s), Mul(H - k, W), Mul(k, W))
  }

  /** Sample p of the bottom rows is sample (ypxl - khalf) * xpxl + p of the tile. */
  lemma {:induction false} BottomRowsAt(L: Layout, tiles: seq<seq<Word>>, s: Coord, k: nat, p: nat, q: nat)
    requires Shaped(L, tiles) && InGrid(L, s.x, s.y) && k <= Height(L, s.y)
    requires p < Mul(k, Width(L, s.x)) && q == Mul(Height(L, s.y) - k, Width(L, s.x)) + p
    ensures q < |TileOf(L, tiles, s)| && BottomRows(L, tiles, s, k)[p] == TileOf(L, tiles, s)[q]
  {
    MulAddLeft(Height(L, s.y) - k, k, Width(L, s.x));
  }

  /** The top khalf rows of the tile of s, sent contiguously from &ptr[0]
      (line 646). */
  function TopRows(L: Layout, tiles: seq<seq<Word>>, s: Coord, k: nat): (msg: seq<Word>)
    requires Shaped(L, tiles) && InGrid(L, s.x, s.y) && k <= Height(L, s.y)
    ensures |msg| == Mul(k, Width(L, s.x))
  {
    MulMono(k, Height(L, s.y), Width(L, s.x));
    Contiguous(TileOf(L, tiles, s), 0, Mul(k, Width(L, s.x)))
  }

  /** halo[UP] (xpxl * khalf samples, line 596) after the exchange: with
      MPI_Cart_shift(dir 1, disp 1) the source is the worker above, whose bottom
      rows arrive at offset 0 (received at line 628, sent at line 643). */
  function HaloUp(L: Layout, tiles: seq<seq<Word>>, me: Coord, k: nat): (h: seq<Word>)
    requires Setup(L, tiles, me, k)
    ensures |h| == Mul(k, Width(L, me.x))
  {
    var zero := Zeros(Mul(k, Width(L, me.x)));
    match CartShift(L, me, 1, 1).0
    case None => zero
    case Some(s) =>
      FitsTile(L, k, s.x, s.y);
      Deliver(zero, 0, BottomRows(L, tiles, s, k), Mul(k, Width(L, me.x)))
  }

  /** halo[DOWN] (line 597): with MPI_Cart_shift(dir 1, disp -1) the source is the
      worker below, whose top rows arrive at offset 0 (received at line 631, sent
      at line 646). */
  function HaloDown(L: Layout, tiles: seq<seq<Word>>, me: Coord, k: nat): (h: seq<Word>)
    requires Setup(L, tiles, me, k)
    ensures |h| == Mul(k, Width(L, me.x))
  {
    var zero := Zeros(Mul(k, Width(L, me.x)));
    match CartShift(L, me, 1, -1).0
    case None => zero
    case Some(s) =>
      FitsTile(L, k, s.x, s.y);
      Deliver(zero, 0, TopRows(L, tiles, s, k), Mul(k, Width(L, me.x)))
  }

  /** Row t of halo[UP] when the worker above exists: row Hs - khalf + t of its
      tile. */
  lemma {:induction false} HaloUpPeer(G: seq<Word>, L: Layout, tiles: seq<seq<Word>>, me: Coord, k: nat, s: Coord,
                                      t: nat, c: nat)
    requires Setup(L, tiles, me, k) && Known(G, L, tiles) && t < k && c < Width(L, me.x)
    requires CartShift(L, me, 1, 1).0 == Some(s)
    ensures Mul(t, Width(L, me.x)) + c < Mul(k, Width(L, me.x))
    ensures HaloUp(L, tiles, me, k)[Mul(t, Width(L, me.x)) + c] ==
              Extended(G, L, X0(L, me.x) + c, Y0(L, me.y) - k + t)
  {
    var W, Hs := Width(L, me.x), Height(L, s.y);
    FlatBound(t, c, W, k);
    assert s.x == me.x && s.y + 1 == me.y;
    FitsTile(L, k, s.x, s.y);
    var p := Mul(t, W) + c;
    var msg := BottomRows(L, tiles, s, k);
    assert HaloUp(L, tiles, me, k) == Deliver(Zeros(Mul(k, W)), 0, msg, Mul(k, W));
    DeliverAt(Zeros(Mul(k, W)), 0, msg, Mul(k, W), p);
    MulAddLeft(Hs - k, t, W);
    Adjacent(L, me.x, s.y);
    var q := Mul(Hs - k, W) + p;
    BottomRowsAt(L, tiles, s, k, p, q);
    TileOfAt(G, L, tiles, s, Hs - k + t, c, q, X0(L, me.x) + c, Y0(L, me.y) - k + t);
  }

  /** Row t of halo[UP] is row t of the khalf image rows just above the tile,
      and zeros above the top of the image. */
  lemma {:induction false} HaloUpAt(G: seq<Word>, L: Layout, tiles: seq<seq<Word>>, me: Coord, k: nat, t: nat, c: nat)
    requires Setup(L, tiles, me, k) && Known(G, L, tiles) && t < k && c < Width(L, me.x)
    ensures Mul(t, Width(L, me.x)) + c < Mul(k, Width(L, me.x))
    ensures HaloUp(L, tiles, me, k)[Mul(t, Width(L, me.x)) + c] ==
              Extended(G, L, X0(L, me.x) + c, Y0(L, me.y) - k + t)
  {
    match CartShift(L, me, 1, 1).0
    case None =>
      var W := Width(L, me.x);
      FlatBound(t, c, W, k);
      Adjacent(L, me.x, me.y);
      ZerosAt(Mul(k, W), Mul(t, W) + c);
    case Some(s) =>
      HaloUpPeer(G, L, tiles, me, k, s, t, c);
  }

  /** Row t of halo[DOWN] when the worker below exists: row t of its tile. */
  lemma {:induction false} HaloDownPeer(G: seq<Word>, L: Layout, tiles: seq<seq<Word>>, me: Coord, k: nat, s: Coord,
                                        t: nat, c: nat)
    requires Setup(L, tiles, me, k) && Known(G, L, tiles) && t < k && c < Width(L, me.x)
    requires CartShift(L, me, 1, -1).0 == Some(s)
    ensures Mul(t, Width(L, me.x)) + c < Mul(k, Width(L, me.x))
    ensures HaloDown(L, tiles, me, k)[Mul(t, Width(L, me.x)) + c] ==
              Extended(G, L, X0(L, me.x) + c, Y0(L, me.y) + Height(L, me.y) + t)
  {
    var W := Width(L, me.x);
    FlatBound(t, c, W, k);
    assert s.x == me.x && s.y == me.y + 1;
    FitsTile(L, k, s.x, s.y);
    var p := Mul(t, W) + c;
    var msg := TopRows(L, tiles, s, k);
    assert HaloDown(L, tiles, me, k) == Deliver(Zeros(Mul(k, W)), 0, msg, Mul(k, W));
    DeliverAt(Zeros(Mul(k, W)), 0, msg, Mul(k, W), p);
    MulMono(k, Height(L, s.y), W);
    Adjacent(L, me.x, me.y);
    TileOfAt(G, L, tiles, s, t, c, p, X0(L, me.x) + c, Y0(L, me.y) + Height(L, me.y) + t);
    assert msg[p] == TileOf(L, tiles, s)[p];
  }

  /** Row t of halo[DOWN] is row t of the khalf image rows just below the tile,
      and zeros below the bottom of the image. */
  lemma {:induction false} HaloDownAt(G: seq<Word>, L: Layout, tiles: seq<seq<Word>>, me: Coord, k: nat, t: nat, c: nat)
    requires Setup(L, tiles, me, k) && Known(G, L, tiles) && t < k && c < Width(L, me.x)
    ensures Mul(t, Width(L, me.x)) + c < Mul(k, Width(L, me.x))
    ensures HaloDown(L, tiles, me, k)[Mul(t, Width(L, me.x)) + c] ==
              Extended(G, L, X0(L, me.x) + c, Y0(L, me.y) + Height(L, me.y) + t)
  {
    match CartShift(L, me, 1, -1).0
    case None =>
      var W := Width(L, me.x);
      FlatBound(t, c, W, k);
      Adjacent(L, me.x, me.y);
      ZerosAt(Mul(k, W), Mul(t, W) + c);
    case Some(s) =>
      HaloDownPeer(G, L, tiles, me, k, s, t, c);
  }

  // --- halo[RIGHT] and halo[LEFT] ------------------------------------------------

  /** The two side halos. */
  datatype Side = LeftSide | RightSide

  /** Which way along x the side's neighbours lie. */
  function Toward(side: Side): int {
    if side == RightSide then 1 else -1
  }

  /** A side halo holds (ypxl + 2 * khalf) rows of khalf samples (lines 598-599). */
  function SideSize(L: Layout, me: Coord, k: nat): nat
    requires L.Valid()
  {
    Mul(Height(L, me.y) + 2 * k, k)
  }

  /** The three bands of a side halo: head rows [0, khalf), edge rows
      [khalf, khalf + ypxl), tail rows [khalf + ypxl, ypxl + 2 * khalf). */
  lemma {:induction false} SideBands(L: Layout, me: Coord, k: nat)
    requires L.Valid()
    ensures Mul(k, k) + Mul(k, Height(L, me.y)) == Mul(Height(L, me.y) + k, k)
    ensures Mul(Height(L, me.y) + k, k) + Mul(k, k) == SideSize(L, me, k)
  {
    var H := Height(L, me.y);
    MulComm(k, H);
    MulAddLeft(H, k, k);
    MulAddLeft(H + k, k, k);
  }

  /** The first column a side neighbour sends: its leftmost khalf columns go to
      the worker on its left (&ptr[0], lines 649, 706, 709), its rightmost ones
      to the worker on its right (&ptr[xpxl - khalf], lines 652, 712, 715). */
  function FirstColumn(L: Layout, side: Side, s: Coord, k: nat): nat
    requires L.Valid() && k <= Width(L, s.x)
  {
    if side == RightSide then 0 else Width(L, s.x) - k
  }

  /** The image column that column c of a side halo of me stands for. */
  function SideX(L: Layout, me: Coord, side: Side, k: nat, c: nat): int
    requires L.Valid()
  {
    if side == RightSide then X0(L, me.x) + Width(L, me.x) + c else X0(L, me.x) - k + c
  }

  /** The column a side neighbour sends lands just beside the receiver's tile. */
  lemma {:induction false} SenderColumn(L: Layout, me: Coord, side: Side, s: Coord, k: nat, c: nat)
    requires L.Valid() && s.x == me.x + Toward(side) && k <= Width(L, s.x)
    ensures X0(L, s.x) + FirstColumn(L, side, s, k) + c == SideX(L, me, side, k, c)
  {
    if side == RightSide {
      Adjacent(L, me.x, 0);
    } else {
      Adjacent(L, s.x, 0);
    }
  }

  /** The side halo after the edge phase: with MPI_Cart_shift(dir 0, disp -1)
      the source of halo[RIGHT] is the worker to the right, with disp 1 the
      source of halo[LEFT] is the worker to the left; the ypxl x khalf strip it
      sends arrives at offset khalf * khalf (received at lines 634 and 637, sent
      at lines 649 and 652 as one vector of ypxl blocks of khalf). */
  function SideEdge(L: Layout, tiles: seq<seq<Word>>, me: Coord, k: nat, side: Side): (h: seq<Word>)
    requires Setup(L, tiles, me, k)
    ensures |h| == SideSize(L, me, k)
  {
    var zero := Zeros(SideSize(L, me, k));
    match CartShift(L, me, 0, -Toward(side)).0
    case None => zero
    case Some(s) =>
      FitsTile(L, k, s.x, s.y);
      SideBands(L, me, k);
      MulComm(k, Height(L, me.y));
      Deliver(zero, Mul(k, k), Block(L, tiles, s, k, 0, FirstColumn(L, side, s, k), Height(L, s.y)), Mul(k, Height(L, me.y)))
  }

  /** Where corner deltay of a side halo is received: the head band for deltay 1,
      the tail band (offset (ypxl + khalf) * khalf) for deltay -1. */
  function CornerOffset(L: Layout, me: Coord, k: nat, deltay: int): nat
    requires L.Valid()
  {
    if deltay == 1 then 0 else Mul(Height(L, me.y) + k, k)
  }

  /** The first row of the corner block a worker sends: its bottom khalf rows
      (&ptr[xpxl * (ypxl - khalf)]) go to the worker below it, its top rows to the
      worker above it. */
  function CornerRow(L: Layout, s: Coord, k: nat, deltay: int): nat
    requires L.Valid() && k <= Height(L, s.y)
  {
    if deltay == 1 then Height(L, s.y) - k else 0
  }

  /** The image row that row m of a corner band of me stands for. */
  function CornerY(L: Layout, me: Coord, k: nat, deltay: int, m: nat): int
    requires L.Valid()
  {
    if deltay == 1 then Y0(L, me.y) - k + m else Y0(L, me.y) + Height(L, me.y) + m
  }

  /** A corner of the corner loop (lines 660-718) on the side halo buf: with
      deltax = -Toward(side), the source at -(deltax, deltay) sends its khalf x
      khalf block nearest to the receiver as one vector of khalf blocks of khalf,
      and the receiver drops it at CornerOffset. Corners 0 and 1 (deltax -1) fill
      halo[RIGHT], corners 3 and 2 (deltax 1) fill halo[LEFT]. */
  function SideCorner(L: Layout, tiles: seq<seq<Word>>, me: Coord, k: nat, side: Side, deltay: int,
                      buf: seq<Word>): (h: seq<Word>)
    requires Setup(L, tiles, me, k) && (deltay == 1 || deltay == -1) && |buf| == SideSize(L, me, k)
    ensures |h| == |buf|
  {
    match CornerPeers(L, me, -Toward(side), deltay).0
    case None => buf
    case Some(s) =>
      FitsTile(L, k, s.x, s.y);
      SideBands(L, me, k);
      Deliver(buf, CornerOffset(L, me, k, deltay),
              Block(L, tiles, s, k, CornerRow(L, s, k, deltay), FirstColumn(L, side, s, k), k), Mul(k, k))
  }

  /** A side halo after the whole exchange: the edge phase, then the corner
      with deltay 1, then the one with deltay -1. */
  function HaloSide(L: Layout, tiles: seq<seq<Word>>, me: Coord, k: nat, side: Side): (h: seq<Word>)
    requires Setup(L, tiles, me, k)
    ensures |h| == SideSize(L, me, k)
  {
    SideCorner(L, tiles, me, k, side, -1, SideCorner(L, tiles, me, k, side, 1, SideEdge(L, tiles, me, k, side)))
  }

  /** halo[RIGHT] after the exchange. */
  function HaloRight(L: Layout, tiles: seq<seq<Word>>, me: Coord, k: nat): (h: seq<Word>)
    requires Setup(L, tiles, me, k)
    ensures |h| == SideSize(L, me, k)
  {
    HaloSide(L, tiles, me, k, RightSide)
  }

  /** halo[LEFT] after the exchange. */
  function HaloLeft(L: Layout, tiles: seq<seq<Word>>, me: Coord, k: nat): (h: seq<Word>)
    requires Setup(L, tiles, me, k)
    ensures |h| == SideSize(L, me, k)
  {
    HaloSide(L, tiles, me, k, LeftSide)
  }

  // --- what the side halos hold ------------------------------------------------

  /** The edge phase writes nothing outside the middle band. */
  lemma {:induction false} SideEdgeOutside(L: Layout, tiles: seq<seq<Word>>, me: Coord, k: nat, side: Side, p: nat)
    requires Setup(L, tiles, me, k) && p < SideSize(L, me, k)
    requires p < Mul(k, k) || Mul(Height(L, me.y) + k, k) <= p
    ensures SideEdge(L, tiles, me, k, side)[p] == 0
  {
    SideBands(L, me, k);
    ZerosAt(SideSize(L, me, k), p);
    match CartShift(L, me, 0, -Toward(side)).0
    case None =>
    case Some(s) =>
      FitsTile(L, k, s.x, s.y);
      MulComm(k, Height(L, me.y));
      var msg := Block(L, tiles, s, k, 0, FirstColumn(L, side, s, k), Height(L, s.y));
      DeliverAt(Zeros(SideSize(L, me, k)), Mul(k, k), msg, Mul(k, Height(L, me.y)), p);
  }

  /** Row m of the middle band when the side neighbour exists: row m of the
      khalf columns it sends. */
  lemma {:induction false} SideEdgePeer(G: seq<Word>, L: Layout, tiles: seq<seq<Word>>, me: Coord, k: nat, side: Side,
                                        s: Coord, m: nat, c: nat, p: nat, y: int)
    requires Setup(L, tiles, me, k) && Known(G, L, tiles) && m < Height(L, me.y) && c < k
    requires CartShift(L, me, 0, -Toward(side)).0 == Some(s)
    requires p == Mul(k, k) + (Mul(m, k) + c) && y == Y0(L, me.y) + m
    ensures p < SideSize(L, me, k)
    ensures SideEdge(L, tiles, me, k, side)[p] == Extended(G, L, SideX(L, me, side, k, c), y)
  {
    FitsTile(L, k, s.x, s.y);
    SideBands(L, me, k);
    MulComm(k, Height(L, me.y));
    SenderColumn(L, me, side, s, k, c);
    var c0 := FirstColumn(L, side, s, k);
    DeliverBlockAt(G, L, tiles, s, k, 0, c0, Height(L, s.y), Zeros(SideSize(L, me, k)), Mul(k, k), Mul(k, Height(L, me.y)),
                   m, c, p, SideX(L, me, side, k, c), y);
  }

  /** Row m of the middle band of a side halo is row m of the khalf image
      columns beside the tile, or zeros past the border of the image. */
  lemma {:induction false} SideEdgeBand(G: seq<Word>, L: Layout, tiles: seq<seq<Word>>, me: Coord, k: nat, side: Side,
                                        m: nat, c: nat, p: nat, y: int)
    requires Setup(L, tiles, me, k) && Known(G, L, tiles) && m < Height(L, me.y) && c < k
    requires p == Mul(k, k) + (Mul(m, k) + c) && y == Y0(L, me.y) + m
    ensures p < SideSize(L, me, k)
    ensures SideEdge(L, tiles, me, k, side)[p] == Extended(G, L, SideX(L, me, side, k, c), y)
  {
    match CartShift(L, me, 0, -Toward(side)).0
    case None =>
      SideBands(L, me, k);
      FlatBound(m, c, k, Height(L, me.y));
      MulComm(k, Height(L, me.y));
      Adjacent(L, me.x, me.y);
      ZerosAt(SideSize(L, me, k), p);
    case Some(s) =>
      SideEdgePeer(G, L, tiles, me, k, side, s, m, c, p, y);
  }

  /** A corner writes only its own band. */
  lemma {:induction false} SideCornerKeeps(L: Layout, tiles: seq<seq<Word>>, me: Coord, k: nat, side: Side, deltay: int,
                                           buf: seq<Word>, p: nat)
    requires Setup(L, tiles, me, k) && (deltay == 1 || deltay == -1) && |buf| == SideSize(L, me, k) && p < |buf|
    requires p < CornerOffset(L, me, k, deltay) || CornerOffset(L, me, k, deltay) + Mul(k, k) <= p
    ensures SideCorner(L, tiles, me, k, side, deltay, buf)[p] == buf[p]
  {
    match CornerPeers(L, me, -Toward(side), deltay).0
    case None =>
    case Some(s) =>
      FitsTile(L, k, s.x, s.y);
      SideBands(L, me, k);
      var msg := Block(L, tiles, s, k, CornerRow(L, s, k, deltay), FirstColumn(L, side, s, k), k);
      DeliverAt(buf, CornerOffset(L, me, k, deltay), msg, Mul(k, k), p);
  }

  /** The corner block a diagonal neighbour sends holds the image samples
      diagonally beside the receiver's tile. */
  lemma {:induction false} CornerSender(L: Layout, me: Coord, k: nat, side: Side, deltay: int, s: Coord, m: nat)
    requires L.Valid() && InGrid(L, me.x, me.y) && (deltay == 1 || deltay == -1)
    requires CornerPeers(L, me, -Toward(side), deltay).0 == Some(s) && k <= Height(L, s.y)
    ensures s.x == me.x + Toward(side)
    ensures Y0(L, s.y) + CornerRow(L, s, k, deltay) + m == CornerY(L, me, k, deltay, m)
  {
    if deltay == 1 {
      Adjacent(L, me.x, s.y);
    } else {
      Adjacent(L, me.x, me.y);
    }
  }

  /** Row m of a corner band when the diagonal neighbour exists: row m of the
      khalf x khalf block it sends. */
  lemma {:induction false} SideCornerPeer(G: seq<Word>, L: Layout, tiles: seq<seq<Word>>, me: Coord, k: nat, side: Side,
                                          deltay: int, buf: seq<Word>, s: Coord, m: nat, c: nat, p: nat, y: int)
    requires Setup(L, tiles, me, k) && Known(G, L, tiles) && (deltay == 1 || deltay == -1)
    requires |buf| == SideSize(L, me, k) && m < k && c < k
    requires CornerPeers(L, me, -Toward(side), deltay).0 == Some(s)
    requires p == CornerOffset(L, me, k, deltay) + (Mul(m, k) + c) && y == CornerY(L, me, k, deltay, m)
    ensures p < |buf|
    ensures SideCorner(L, tiles, me, k, side, deltay, buf)[p] == Extended(G, L, SideX(L, me, side, k, c), y)
  {
    FitsTile(L, k, s.x, s.y);
    SideBands(L, me, k);
    CornerSender(L, me, k, side, deltay, s, m);
    SenderColumn(L, me, side, s, k, c);
    var r0, c0 := CornerRow(L, s, k, deltay), FirstColumn(L, side, s, k);
    var off := CornerOffset(L, me, k, deltay);
    DeliverBlockAt(G, L, tiles, s, k, r0, c0, k, buf, off, Mul(k, k), m, c,
                   p, SideX(L, me, side, k, c), y);
  }

  /** Without a diagonal neighbour the corner block lies outside the image. */
  lemma {:induction false} CornerMissing(G: seq<Word>, L: Layout, me: Coord, k: nat, side: Side, deltay: int, m: nat, c: nat)
    requires L.Valid() && IsImage(G, L) && InGrid(L, me.x, me.y) && (deltay == 1 || deltay == -1) && m < k && c < k
    requires CornerPeers(L, me, -Toward(side), deltay).0 == None
    ensures Extended(G, L, SideX(L, me, side, k, c), CornerY(L, me, k, deltay, m)) == 0
  {
    Adjacent(L, me.x, me.y);
  }

  /** Where row t of a side halo falls among its three bands. */
  lemma {:induction false} SideIndex(L: Layout, me: Coord, k: nat, t: nat, c: nat)
    requires L.Valid() && t < Height(L, me.y) + 2 * k && c < k
    ensures Mul(t, k) + c < SideSize(L, me, k)
    ensures Mul(k, k) <= Mul(Height(L, me.y) + k, k)
    ensures t < k ==> Mul(t, k) + c < Mul(k, k)
    ensures k <= t < Height(L, me.y) + k ==>
              Mul(k, k) <= Mul(t, k) + c < Mul(Height(L, me.y) + k, k) &&
              Mul(t, k) + c == Mul(k, k) + (Mul(t - k, k) + c)
    ensures Height(L, me.y) + k <= t ==>
              Mul(Height(L, me.y) + k, k) <= Mul(t, k) + c &&
              Mul(t, k) + c == Mul(Height(L, me.y) + k, k) + (Mul(t - (Height(L, me.y) + k), k) + c)
  {
    var H := Height(L, me.y);
    FlatBound(t, c, k, H + 2 * k);
    MulMono(k, H + k, k);
    if t < k {
      FlatBound(t, c, k, k);
    } else if t < H + k {
      FlatBound(t, c, k, H + k);
      MulAddLeft(k, t - k, k);
    } else {
      MulAddLeft(H + k, t - (H + k), k);
    }
  }

  /** Row t of the head band of a side halo: the khalf x khalf image block
      diagonally above the tile, or zeros outside the image. */
  lemma {:induction false} SideHeadRow(G: seq<Word>, L: Layout, tiles: seq<seq<Word>>, me: Coord, k: nat, side: Side,
                                       t: nat, c: nat)
    requires Setup(L, tiles, me, k) && Known(G, L, tiles) && t < k && c < k
    ensures Mul(t, k) + c < SideSize(L, me, k)
    ensures HaloSide(L, tiles, me, k, side)[Mul(t, k) + c] ==
              Extended(G, L, SideX(L, me, side, k, c), Y0(L, me.y) - k + t)
  {
    var p := Mul(t, k) + c;
    SideIndex(L, me, k, t, c);
    var edge := SideEdge(L, tiles, me, k, side);
    var head := SideCorner(L, tiles, me, k, side, 1, edge);
    SideCornerKeeps(L, tiles, me, k, side, -1, head, p);
    match CornerPeers(L, me, -Toward(side), 1).0
    case None =>
      SideEdgeOutside(L, tiles, me, k, side, p);
      CornerMissing(G, L, me, k, side, 1, t, c);
    case Some(s) =>
      SideCornerPeer(G, L, tiles, me, k, side, 1, edge, s, t, c, p, Y0(L, me.y) - k + t);
  }

  /** Row t of the middle band of a side halo after the whole exchange: the
      corners leave the edge strip alone. */
  lemma {:induction false} SideMiddleRow(G: seq<Word>, L: Layout, tiles: seq<seq<Word>>, me: Coord, k: nat, side: Side,
                                         t: nat, c: nat)
    requires Setup(L, tiles, me, k) && Known(G, L, tiles) && k <= t < Height(L, me.y) + k && c < k
    ensures Mul(t, k) + c < SideSize(L, me, k)
    ensures HaloSide(L, tiles, me, k, side)[Mul(t, k) + c] ==
              Extended(G, L, SideX(L, me, side, k, c), Y0(L, me.y) - k + t)
  {
    var p := Mul(t, k) + c;
    SideIndex(L, me, k, t, c);
    var edge := SideEdge(L, tiles, me, k, side);
    var head := SideCorner(L, tiles, me, k, side, 1, edge);
    SideCornerKeeps(L, tiles, me, k, side, -1, head, p);
    SideCornerKeeps(L, tiles, me, k, side, 1, edge, p);
    SideEdgeBand(G, L, tiles, me, k, side, t - k, c, p, Y0(L, me.y) - k + t);
  }

  /** Row m of the tail band when there is no diagonal neighbour below: the
      corner phase for deltay = -1 changes nothing, so the edge phase's zeros
      remain, and the image has no pixel there either. */
  lemma {:induction false} SideTailMissing(G: seq<Word>, L: Layout, tiles: seq<seq<Word>>, me: Coord, k: nat, side: Side,
                                           m: nat, c: nat, p: nat, y: int)
    requires Setup(L, tiles, me, k) && Known(G, L, tiles) && m < k && c < k
    requires CornerPeers(L, me, -Toward(side), -1).0 == None
    requires p == Mul(Height(L, me.y) + k, k) + (Mul(m, k) + c) && p < SideSize(L, me, k)
    requires y == CornerY(L, me, k, -1, m)
    ensures HaloSide(L, tiles, me, k, side)[p] == Extended(G, L, SideX(L, me, side, k, c), y)
  {
    var edge := SideEdge(L, tiles, me, k, side);
    var head := SideCorner(L, tiles, me, k, side, 1, edge);
    assert HaloSide(L, tiles, me, k, side) == head;
    SideCornerKeeps(L, tiles, me, k, side, 1, edge, p);
    SideEdgeOutside(L, tiles, me, k, side, p);
    CornerMissing(G, L, me, k, side, -1, m, c);
  }

  /** Row m of the tail band when the diagonal neighbour below exists: the
      corner phase for deltay = -1 writes that neighbour's block over it. */
  lemma {:induction false} SideTailPeer(G: seq<Word>, L: Layout, tiles: seq<seq<Word>>, me: Coord, k: nat, side: Side,
                                        s: Coord, m: nat, c: nat, p: nat, y: int)
    requires Setup(L, tiles, me, k) && Known(G, L, tiles) && m < k && c < k
    requires CornerPeers(L, me, -Toward(side), -1).0 == Some(s)
    requires p == CornerOffset(L, me, k, -1) + (Mul(m, k) + c) && y == CornerY(L, me, k, -1, m)
    ensures p < SideSize(L, me, k)
    ensures HaloSide(L, tiles, me, k, side)[p] == Extended(G, L, SideX(L, me, side, k, c), y)
  {
    var head := SideCorner(L, tiles, me, k, side, 1, SideEdge(L, tiles, me, k, side));
    assert HaloSide(L, tiles, me, k, side) == SideCorner(L, tiles, me, k, side, -1, head);
    SideCornerPeer(G, L, tiles, me, k, side, -1, head, s, m, c, p, y);
  }

  /** Row t of the tail band of a side halo, at flat index p: the khalf x khalf
      image block diagonally below the tile, or zeros outside the image. */
  lemma {:induction false} SideTailRow(G: seq<Word>, L: Layout, tiles: seq<seq<Word>>, me: Coord, k: nat, side: Side,
                                       t: nat, c: nat, p: nat, y: int)
    requires Setup(L, tiles, me, k) && Known(G, L, tiles) && Height(L, me.y) + k <= t < Height(L, me.y) + 2 * k && c < k
    requires p == Mul(t, k) + c && y == Y0(L, me.y) - k + t
    ensures p < SideSize(L, me, k)
    ensures HaloSide(L, tiles, me, k, side)[p] == Extended(G, L, SideX(L, me, side, k, c), y)
  {
    var m: nat := t - (Height(L, me.y) + k);
    SideIndex(L, me, k, t, c);
    assert p == Mul(Height(L, me.y) + k, k) + (Mul(m, k) + c);
    match CornerPeers(L, me, -Toward(side), -1).0
    case None =>
      SideTailMissing(G, L, tiles, me, k, side, m, c, p, y);
    case Some(s) =>
      SideTailPeer(G, L, tiles, me, k, side, s, m, c, p, y);
  }

  // --- what the exchange leaves in each buffer -------------------------------

  /** Sample (c, r) of tile, at r * xpxl + c, is the image pixel (X0 + c, Y0 + r)
      of the tile of me. */
  ghost predicate TileContent(G: seq<Word>, L: Layout, me: Coord, tile: seq<Word>)
    requires IsImage(G, L) && L.Valid()
  {
    var W, H := Width(L, me.x), Height(L, me.y);
    |tile| == Mul(H, W) &&
    forall r: nat, c: nat :: r < H && c < W ==>
      Flat(r, c, W) < |tile| && tile[Flat(r, c, W)] == Extended(G, L, X0(L, me.x) + c, Y0(L, me.y) + r)
  }

  /** halo[UP] holds the khalf image rows just above the tile of me, each over
      the tile's columns, and 0 where those rows are outside the image. */
  ghost predicate UpContent(G: seq<Word>, L: Layout, me: Coord, k: nat, h: seq<Word>)
    requires IsImage(G, L) && L.Valid()
  {
    var W := Width(L, me.x);
    |h| == Mul(k, W) &&
    forall t: nat, c: nat :: t < k && c < W ==>
      Flat(t, c, W) < |h| && h[Flat(t, c, W)] == Extended(G, L, X0(L, me.x) + c, Y0(L, me.y) - k + t)
  }

  /** halo[DOWN] holds the khalf image rows just below the tile of me, and 0
      where those rows are outside the image. */
  ghost predicate DownContent(G: seq<Word>, L: Layout, me: Coord, k: nat, h: seq<Word>)
    requires IsImage(G, L) && L.Valid()
  {
    var W, H := Width(L, me.x), Height(L, me.y);
    |h| == Mul(k, W) &&
    forall t: nat, c: nat :: t < k && c < W ==>
      Flat(t, c, W) < |h| && h[Flat(t, c, W)] == Extended(G, L, X0(L, me.x) + c, Y0(L, me.y) + H + t)
  }

  /** Rows lo to hi - 1 of a side halo hold the khalf image columns just beside
      the tile of me, row t standing for image row Y0 - khalf + t, and 0 where
      that is outside the image. */
  ghost predicate SideRows(G: seq<Word>, L: Layout, me: Coord, k: nat, side: Side, h: seq<Word>, lo: nat, hi: nat)
    requires IsImage(G, L) && L.Valid()
  {
    forall t: nat, c: nat :: lo <= t < hi && c < k ==>
      Flat(t, c, k) < |h| && h[Flat(t, c, k)] == Extended(G, L, SideX(L, me, side, k, c), Y0(L, me.y) - k + t)
  }

  /** A side halo holds the khalf image columns just beside the tile of me, over
      the tile's rows extended by khalf rows above and below, and 0 wherever
      that band is outside the image. */
  ghost predicate SideContent(G: seq<Word>, L: Layout, me: Coord, k: nat, side: Side, h: seq<Word>)
    requires IsImage(G, L) && L.Valid()
  {
    |h| == SideSize(L, me, k) &&
    forall t: nat, c: nat :: t < Height(L, me.y) + 2 * k && c < k ==>
      Flat(t, c, k) < |h| && h[Flat(t, c, k)] == Extended(G, L, SideX(L, me, side, k, c), Y0(L, me.y) - k + t)
  }

  /** The head, middle and tail bands together make up the side halo. */
  lemma {:induction false} SideBandsJoin(G: seq<Word>, L: Layout, me: Coord, k: nat, side: Side, h: seq<Word>)
    requires IsImage(G, L) && L.Valid() && |h| == SideSize(L, me, k)
    requires SideRows(G, L, me, k, side, h, 0, k)
    requires SideRows(G, L, me, k, side, h, k, Height(L, me.y) + k)
    requires SideRows(G, L, me, k, side, h, Height(L, me.y) + k, Height(L, me.y) + 2 * k)
    ensures SideContent(G, L, me, k, side, h)
  {
    forall t: nat, c: nat | t < Height(L, me.y) + 2 * k && c < k
      ensures Flat(t, c, k) < |h| && h[Flat(t, c, k)] == Extended(G, L, SideX(L, me, side, k, c), Y0(L, me.y) - k + t)
    {
      if t < k {
      } else if t < Height(L, me.y) + k {
      } else {
      }
    }
  }

  /** Under Holds, the tile of me holds its part of the image. */
  lemma {:induction false} TileHoldsContent(G: seq<Word>, L: Layout, tiles: seq<seq<Word>>, me: Coord)
    requires Holds(G, L, tiles) && InGrid(L, me.x, me.y)
    ensures TileContent(G, L, me, TileOf(L, tiles, me))
  {
    var W, H := Width(L, me.x), Height(L, me.y);
    forall r: nat, c: nat | r < H && c < W
      ensures Flat(r, c, W) < |TileOf(L, tiles, me)| && TileOf(L, tiles, me)[Flat(r, c, W)] == Extended(G, L, X0(L, me.x) + c, Y0(L, me.y) + r)
    {
      TileOfHolds(G, L, tiles, me, r, c, Flat(r, c, W), X0(L, me.x) + c, Y0(L, me.y) + r);
    }
  }

  /** After the exchange, halo[UP] holds the rows above the tile. */
  lemma {:induction false} ExchangeFillsUp(G: seq<Word>, L: Layout, tiles: seq<seq<Word>>, me: Coord, k: nat)
    requires Setup(L, tiles, me, k) && Known(G, L, tiles)
    ensures UpContent(G, L, me, k, HaloUp(L, tiles, me, k))
  {
    var W := Width(L, me.x);
    forall t: nat, c: nat | t < k && c < W
      ensures Flat(t, c, W) < |HaloUp(L, tiles, me, k)| && HaloUp(L, tiles, me, k)[Flat(t, c, W)] == Extended(G, L, X0(L, me.x) + c, Y0(L, me.y) - k + t)
    {
      HaloUpAt(G, L, tiles, me, k, t, c);
    }
  }

  /** After the exchange, halo[DOWN] holds the rows below the tile. */
  lemma {:induction false} ExchangeFillsDown(G: seq<Word>, L: Layout, tiles: seq<seq<Word>>, me: Coord, k: nat)
    requires Setup(L, tiles, me, k) && Known(G, L, tiles)
    ensures DownContent(G, L, me, k, HaloDown(L, tiles, me, k))
  {
    var W, H := Width(L, me.x), Height(L, me.y);
    forall t: nat, c: nat | t < k && c < W
      ensures Flat(t, c, W) < |HaloDown(L, tiles, me, k)| && HaloDown(L, tiles, me, k)[Flat(t, c, W)] == Extended(G, L, X0(L, me.x) + c, Y0(L, me.y) + H + t)
    {
      HaloDownAt(G, L, tiles, me, k, t, c);
    }
  }

  /** After the exchange, halo[RIGHT] and halo[LEFT] hold the columns beside the
      tile, corners included. */
  lemma {:induction false} ExchangeFillsSide(G: seq<Word>, L: Layout, tiles: seq<seq<Word>>, me: Coord, k: nat, side: Side)
    requires Setup(L, tiles, me, k) && Known(G, L, tiles)
    ensures SideContent(G, L, me, k, side, HaloSide(L, tiles, me, k, side))
  {
    var h := HaloSide(L, tiles, me, k, side);
    SideHeadFilled(G, L, tiles, me, k, side);
    SideMiddleFilled(G, L, tiles, me, k, side);
    SideTailFilled(G, L, tiles, me, k, side);
    SideBandsJoin(G, L, me, k, side, h);
  }

  /** After the exchange, the head band of a side halo holds the corner above. */
  lemma {:induction false} SideHeadFilled(G: seq<Word>, L: Layout, tiles: seq<seq<Word>>, me: Coord, k: nat, side: Side)
    requires Setup(L, tiles, me, k) && Known(G, L, tiles)
    ensures SideRows(G, L, me, k, side, HaloSide(L, tiles, me, k, side), 0, k)
  {
    forall t: nat, c: nat | 0 <= t < k && c < k
      ensures Flat(t, c, k) < |HaloSide(L, tiles, me, k, side)| &&
              HaloSide(L, tiles, me, k, side)[Flat(t, c, k)] == Extended(G, L, SideX(L, me, side, k, c), Y0(L, me.y) - k + t)
    {
      SideHeadRow(G, L, tiles, me, k, side, t, c);
    }
  }

  /** After the exchange, the middle band of a side halo holds the edge strip. */
  lemma {:induction false} SideMiddleFilled(G: seq<Word>, L: Layout, tiles: seq<seq<Word>>, me: Coord, k: nat, side: Side)
    requires Setup(L, tiles, me, k) && Known(G, L, tiles)
    ensures SideRows(G, L, me, k, side, HaloSide(L, tiles, me, k, side), k, Height(L, me.y) + k)
  {
    forall t: nat, c: nat | k <= t < Height(L, me.y) + k && c < k
      ensures Flat(t, c, k) < |HaloSide(L, tiles, me, k, side)| &&
              HaloSide(L, tiles, me, k, side)[Flat(t, c, k)] == Extended(G, L, SideX(L, me, side, k, c), Y0(L, me.y) - k + t)
    {
      SideMiddleRow(G, L, tiles, me, k, side, t, c);
    }
  }

  /** After the exchange, the tail band of a side halo holds the corner below. */
  lemma {:induction false} SideTailFilled(G: seq<Word>, L: Layout, tiles: seq<seq<Word>>, me: Coord, k: nat, side: Side)
    requires Setup(L, tiles, me, k) && Known(G, L, tiles)
    ensures SideRows(G, L, me, k, side, HaloSide(L, tiles, me, k, side), Height(L, me.y) + k, Height(L, me.y) + 2 * k)
  {
    forall t: nat, c: nat | Height(L, me.y) + k <= t < Height(L, me.y) + 2 * k && c < k
      ensures Flat(t, c, k) < |HaloSide(L, tiles, me, k, side)| &&
              HaloSide(L, tiles, me, k, side)[Flat(t, c, k)] == Extended(G, L, SideX(L, me, side, k, c), Y0(L, me.y) - k + t)
    {
      SideTailRow(G, L, tiles, me, k, side, t, c, Flat(t, c, k), Y0(L, me.y) - k + t);
    }
  }
}
