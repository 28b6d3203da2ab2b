/** The convolution of blur (lines 313-367): for every pixel of the tile and every
    kernel offset, the choice of where the sample comes from (nowhere, the tile,
    or one of the four halos) and the flat index read there; the loops that sum
    the weighted samples; and the theorem that, after the halo exchange, every
    sample read is the image pixel at the offset position. */
module Blur {
  import opened Arith
  import opened Partition
  import opened Topology
  import opened Swap
  import opened Halo

  /** What one call of blur works on: the image size, the tile's first column
      and first row (start_y already divided by xsize, as on line 323), the tile
      size and the kernel radius khalfsize. */
  datatype Frame = Frame(xsize: nat, ysize: nat, startX: nat, startY: nat, xpxl: nat, ypxl: nat, khalf: nat)

  /** The four halo buffers halo[RIGHT], halo[LEFT], halo[UP], halo[DOWN]. */
  datatype Halos = Halos(right: seq<Word>, left: seq<Word>, up: seq<Word>, down: seq<Word>)

  datatype Dir = Right | Left | Up | Down

  /** Where one kernel term takes its sample: nowhere (the term is dropped), the
      tile at a flat index, or a halo at a flat index. */
  datatype Source = Skip | Local(idx: int) | FromHalo(dir: Dir, idx: int)

  /** The positions the loops of blur visit: a pixel of the tile and an offset
      in [-khalfsize, khalfsize] on each axis. */
  predicate InKernel(f: Frame, xx: int, yy: int, xks: int, yks: int) {
    0 <= xx < f.xpxl && 0 <= yy < f.ypxl && -(f.khalf as int) <= xks <= f.khalf && -(f.khalf as int) <= yks <= f.khalf
  }

  /** The global test of line 338: the offset position lies inside the image. */
  predicate InImage(f: Frame, gx: int, gy: int) {
    gx < f.xsize && gy < f.ysize && gx >= 0 && gy >= 0
  }

  /** The local test of line 340: the offset position lies inside the tile. */
  predicate InTileAt(f: Frame, lx: int, ly: int) {
    lx < f.xpxl && ly < f.ypxl && lx >= 0 && ly >= 0
  }

  /** The branch chain of lines 338-355 for one term, with the index each branch
      reads. Exactly one outcome holds: the term is dropped exactly when the
      offset position is outside the image; otherwise it is read from the tile
      when it is inside the tile, from RIGHT or LEFT when its column is beyond
      the tile, and from UP or DOWN only when its column is inside the tile. */
  function Resolve(f: Frame, xx: nat, yy: nat, xks: int, yks: int): (s: Source)
    requires InKernel(f, xx, yy, xks, yks)
    ensures s == Skip <==> !InImage(f, f.startX + xx + xks, f.startY + yy + yks)
    ensures s.Local? <==> InImage(f, f.startX + xx + xks, f.startY + yy + yks) && InTileAt(f, xx + xks, yy + yks)
    ensures s.FromHalo? && s.dir == Right <==> InImage(f, f.startX + xx + xks, f.startY + yy + yks) && xx + xks >= f.xpxl
    ensures s.FromHalo? && s.dir == Left <==> InImage(f, f.startX + xx + xks, f.startY + yy + yks) && xx + xks < 0
    ensures s.FromHalo? && s.dir == Up <==>
              InImage(f, f.startX + xx + xks, f.startY + yy + yks) && 0 <= xx + xks < f.xpxl && yy + yks < 0
    ensures s.FromHalo? && s.dir == Down <==>
              InImage(f, f.startX + xx + xks, f.startY + yy + yks) && 0 <= xx + xks < f.xpxl && yy + yks >= f.ypxl
  {
    var lx, ly := xx + xks, yy + yks;
    if !InImage(f, f.startX + lx, f.startY + ly) then Skip
    else if InTileAt(f, lx, ly) then Local(Mul(yy, f.xpxl) + xx + yks * f.xpxl + xks)
    else if lx >= f.xpxl then FromHalo(Right, (lx - f.xpxl) + Mul(ly + f.khalf, f.khalf))
    else if lx < 0 then FromHalo(Left, (lx + f.khalf) + Mul(ly + f.khalf, f.khalf))
    else if ly < 0 then FromHalo(Up, lx + Mul(f.khalf + ly, f.xpxl))
    else if ly >= f.ypxl then FromHalo(Down, lx + Mul(ly - f.ypxl, f.xpxl))
    else Skip
  }

  /** Number of samples in a halo buffer (lines 596-599). */
  function HaloSize(f: Frame, d: Dir): nat {
    if d == Right || d == Left then Mul(f.ypxl + 2 * f.khalf, f.khalf) else Mul(f.khalf, f.xpxl)
  }

  /** The halo buffer a direction names. */
  function Buffer(h: Halos, d: Dir): seq<Word> {
    match d
    case Right => h.right
    case Left => h.left
    case Up => h.up
    case Down => h.down
  }

  /** Every read of blur is in bounds: a tile index lies in [0, xpxl * ypxl), a
      RIGHT or LEFT index in [0, (ypxl + 2 * khalf) * khalf), an UP or DOWN
      index in [0, xpxl * khalf). */
  lemma {:induction false} ResolveInBounds(f: Frame, xx: nat, yy: nat, xks: int, yks: int)
    requires InKernel(f, xx, yy, xks, yks)
    ensures Resolve(f, xx, yy, xks, yks).Local? ==> 0 <= Resolve(f, xx, yy, xks, yks).idx < Mul(f.ypxl, f.xpxl)
    ensures Resolve(f, xx, yy, xks, yks).FromHalo? ==>
              0 <= Resolve(f, xx, yy, xks, yks).idx < HaloSize(f, Resolve(f, xx, yy, xks, yks).dir)
  {
    var lx, ly := xx + xks, yy + yks;
    var k := f.khalf;
    if InImage(f, f.startX + lx, f.startY + ly) {
      if InTileAt(f, lx, ly) {
        MulShift(yy, yks, f.xpxl);
        FlatBound(ly, lx, f.xpxl, f.ypxl);
      } else if lx >= f.xpxl {
        FlatBound(ly + k, lx - f.xpxl, k, f.ypxl + 2 * k);
      } else if lx < 0 {
        FlatBound(ly + k, lx + k, k, f.ypxl + 2 * k);
      } else if ly < 0 {
        FlatBound(k + ly, lx, f.xpxl, k);
      } else {
        FlatBound(ly - f.ypxl, lx, f.xpxl, k);
      }
    }
  }

  /** A term whose column and row both leave the tile (a diagonal offset) is read
      from RIGHT or LEFT, in the head rows [0, khalf) or in the tail rows
      [ypxl + khalf, ypxl + 2 * khalf) that the corner exchange fills. */
  lemma {:induction false} DiagonalReadsCorner(f: Frame, xx: nat, yy: nat, xks: int, yks: int)
    requires InKernel(f, xx, yy, xks, yks) && InImage(f, f.startX + xx + xks, f.startY + yy + yks)
    requires !(0 <= xx + xks < f.xpxl) && !(0 <= yy + yks < f.ypxl)
    ensures Resolve(f, xx, yy, xks, yks).FromHalo?
    ensures Resolve(f, xx, yy, xks, yks).dir == Right || Resolve(f, xx, yy, xks, yks).dir == Left
    ensures 0 <= Resolve(f, xx, yy, xks, yks).idx
    ensures Resolve(f, xx, yy, xks, yks).idx < Mul(f.khalf, f.khalf) ||
            Mul(f.ypxl + f.khalf, f.khalf) <= Resolve(f, xx, yy, xks, yks).idx
  {
    var lx, ly := xx + xks, yy + yks;
    var k := f.khalf;
    var c := if lx >= f.xpxl then lx - f.xpxl else lx + k;
    assert Resolve(f, xx, yy, xks, yks).idx == c + Mul(ly + k, k);
    if ly < 0 {
      FlatBound(ly + k, c, k, k);
    } else {
      MulMono(f.ypxl + k, ly + k, k);
    }
  }

  /** The kernel is a ksize x ksize matrix with ksize >= 1, and khalfsize is
      (ksize - 1) / 2 (line 547). */
  predicate KernelShape(kernel: seq<seq<int>>, khalf: nat) {
    |kernel| >= 1 && khalf == (|kernel| - 1) / 2 &&
    forall i :: 0 <= i < |kernel| ==> |kernel[i]| == |kernel|
  }

  /** The kernel entries blur uses, kernel[khalfsize + yks][khalfsize + xks],
      are inside the matrix. */
  lemma {:induction false} KernelInBounds(kernel: seq<seq<int>>, khalf: nat, xks: int, yks: int)
    requires KernelShape(kernel, khalf) && -(khalf as int) <= xks <= khalf && -(khalf as int) <= yks <= khalf
    ensures 0 <= khalf + yks < |kernel| && 0 <= khalf + xks < |kernel[khalf + yks]|
  {
  }

  /** Everything one call of blur reads. */
  datatype Args = Args(f: Frame, image: seq<Word>, halo: Halos, kernel: seq<seq<int>>)
  {
    /** The buffers have the sizes main allocates (lines 329 and 596-599) and the
        kernel matches the radius. */
    predicate Valid() {
      |image| == Mul(f.ypxl, f.xpxl) &&
      |halo.right| == HaloSize(f, Right) && |halo.left| == HaloSize(f, Left) &&
      |halo.up| == HaloSize(f, Up) && |halo.down| == HaloSize(f, Down) &&
      KernelShape(kernel, f.khalf)
    }
  }

  /** The sample one term reads, or 0 when the term is dropped. */
  function Read(a: Args, xx: nat, yy: nat, xks: int, yks: int): Word
    requires a.Valid() && InKernel(a.f, xx, yy, xks, yks)
  {
    ResolveInBounds(a.f, xx, yy, xks, yks);
    match Resolve(a.f, xx, yy, xks, yks)
    case Skip => 0
    case Local(i) => a.image[i]
    case FromHalo(d, i) => Buffer(a.halo, d)[i]
  }

  /** The amount one term adds to the accumulator: nothing when the offset
      position is outside the image, the weighted sample otherwise. */
  function Term(a: Args, xx: nat, yy: nat, xks: int, yks: int): int
    requires a.Valid() && InKernel(a.f, xx, yy, xks, yks)
  {
    KernelInBounds(a.kernel, a.f.khalf, xks, yks);
    if Resolve(a.f, xx, yy, xks, yks) == Skip then 0
    else a.kernel[a.f.khalf + yks][a.f.khalf + xks] * (Read(a, xx, yy, xks, yks) as int)
  }

  /** The terms of kernel row yks with xks < n - khalfsize, in loop order. */
  function RowSum(a: Args, xx: nat, yy: nat, yks: int, n: nat): int
    requires a.Valid() && 0 <= xx < a.f.xpxl && 0 <= yy < a.f.ypxl
    requires -(a.f.khalf as int) <= yks <= a.f.khalf && n <= 2 * a.f.khalf + 1
  {
    if n == 0 then 0 else RowSum(a, xx, yy, yks, n - 1) + Term(a, xx, yy, n - 1 - a.f.khalf, yks)
  }

  /** The full rows of the kernel with yks < m - khalfsize, in loop order. */
  function PixelSum(a: Args, xx: nat, yy: nat, m: nat): int
    requires a.Valid() && 0 <= xx < a.f.xpxl && 0 <= yy < a.f.ypxl && m <= 2 * a.f.khalf + 1
  {
    if m == 0 then 0 else PixelSum(a, xx, yy, m - 1) + RowSum(a, xx, yy, m - 1 - a.f.khalf, 2 * a.f.khalf + 1)
  }

  /** The accumulated value of the pixel at flat index q of the tile. */
  function PixelAt(a: Args, q: nat): int
    requires a.Valid() && q < Mul(a.f.ypxl, a.f.xpxl)
  {
    FlatInRange(q, a.f.xpxl, a.f.ypxl);
    PixelSum(a, Rem(q, a.f.xpxl), Quot(q, a.f.xpxl), 2 * a.f.khalf + 1)
  }

  /** The accumulated value of every pixel of the tile, in row-major order. */
  function Blurred(a: Args): (r: seq<int>)
    requires a.Valid()
  {
    seq(Mul(a.f.ypxl, a.f.xpxl), q requires 0 <= q < Mul(a.f.ypxl, a.f.xpxl) => PixelAt(a, q))
  }

  /** Pixel (xx, yy) of the tile sits at flat index yy * xpxl + xx of the result. */
  lemma {:induction false} BlurredAt(a: Args, xx: nat, yy: nat, q: nat)
    requires a.Valid() && xx < a.f.xpxl && yy < a.f.ypxl && q == Mul(yy, a.f.xpxl) + xx
    ensures q < Mul(a.f.ypxl, a.f.xpxl) && PixelAt(a, q) == PixelSum(a, xx, yy, 2 * a.f.khalf + 1)
  {
    FlatBound(yy, xx, a.f.xpxl, a.f.ypxl);
    FlatSplit(yy, xx, a.f.xpxl);
  }

  /** The accumulation of one pixel (lines 334-359): the kernel rows in order,
      each term in order, every sample read where Resolve says and weighted by
      its kernel entry. The result is the sum of the pixel's terms. */
  method AccumulatePixel(a: Args, xx: nat, yy: nat) returns (xxyy: int)
    requires a.Valid() && xx < a.f.xpxl && yy < a.f.ypxl
    ensures xxyy == PixelSum(a, xx, yy, 2 * a.f.khalf + 1)
  {
    var khalf := a.f.khalf;
    xxyy := 0;
    var yks: int := -(khalf as int);
    while yks < khalf + 1
      invariant -(khalf as int) <= yks <= khalf + 1
      invariant xxyy == PixelSum(a, xx, yy, yks + khalf)
    {
      var xks: int := -(khalf as int);
      while xks < khalf + 1
        invariant -(khalf as int) <= xks <= khalf + 1
        invariant xxyy == PixelSum(a, xx, yy, yks + khalf) + RowSum(a, xx, yy, yks, xks + khalf)
      {
        ResolveInBounds(a.f, xx, yy, xks, yks);
        KernelInBounds(a.kernel, khalf, xks, yks);
        var w := a.kernel[khalf + yks][khalf + xks];
        match Resolve(a.f, xx, yy, xks, yks) {
          case Skip =>
          case Local(i) =>
            xxyy := xxyy + w * (a.image[i] as int);
          case FromHalo(d, i) =>
            xxyy := xxyy + w * (Buffer(a.halo, d)[i] as int);
        }
        xks := xks + 1;
      }
      yks := yks + 1;
    }
  }

  /** blur (lines 313-367): the pixels of the tile are visited row by row and
      each accumulated value is stored at yy * xpxl + xx of a new buffer. The
      result holds the accumulated value of every pixel, in row-major order. */
  method BlurTile(image: seq<Word>, xsize: nat, ysize: nat, startX: nat, startY: nat, xpxl: nat, ypxl: nat,
                  kernel: seq<seq<int>>, khalf: nat, halo: Halos) returns (sImage: seq<int>)
    requires xsize > 0
    requires Args(Frame(xsize, ysize, startX, startY / xsize, xpxl, ypxl, khalf), image, halo, kernel).Valid()
    ensures sImage == Blurred(Args(Frame(xsize, ysize, startX, startY / xsize, xpxl, ypxl, khalf), image, halo, kernel))
  {
    var sy := startY / xsize;
    var a := Args(Frame(xsize, ysize, startX, sy, xpxl, ypxl, khalf), image, halo, kernel);
    var out := new int[Mul(ypxl, xpxl)];
    var yy := 0;
    while yy < ypxl
      invariant 0 <= yy <= ypxl && Mul(yy, xpxl) <= out.Length
      invariant forall q :: 0 <= q < Mul(yy, xpxl) ==> out[q] == PixelAt(a, q)
    {
      var xx := 0;
      while xx < xpxl
        invariant 0 <= xx <= xpxl && Mul(yy, xpxl) + xx <= out.Length
        invariant forall q :: 0 <= q < Mul(yy, xpxl) + xx ==> out[q] == PixelAt(a, q)
      {
        var xxyy := AccumulatePixel(a, xx, yy);
        var idx := Mul(yy, xpxl) + xx;
        BlurredAt(a, xx, yy, idx);
        out[idx] := xxyy;
        xx := xx + 1;
      }
      MulAddLeft(yy, 1, xpxl);
      MulOne(xpxl);
      MulMono(yy + 1, ypxl, xpxl);
      yy := yy + 1;
    }
    MulZero(xpxl);
    sImage := out[..];
    assert sImage == Blurred(a);
  }

  // --- the composed theorem -------------------------------------------------

  /** What main passes to blur on worker me: the image sizes, the tile's first
      column and row and its size, and the kernel radius. */
  function WorkerFrame(L: Layout, me: Coord, k: nat): Frame
    requires L.Valid()
  {
    Frame(L.xsize, L.ysize, X0(L, me.x), Y0(L, me.y), Width(L, me.x), Height(L, me.y), k)
  }

  /** identify_thread's placement, with start_y divided by xsize as on line 323,
      gives exactly that frame. */
  lemma {:induction false} PlacementFrame(L: Layout, me: Coord, k: nat)
    requires L.Valid() && InGrid(L, me.x, me.y)
    ensures Frame(L.xsize, L.ysize, IdentifyThread(L, me.x, me.y).startX,
                  IdentifyThread(L, me.x, me.y).startY / L.xsize,
                  IdentifyThread(L, me.x, me.y).xpxl, IdentifyThread(L, me.x, me.y).ypxl, k) == WorkerFrame(L, me, k)
  {
    IdentifyThreadPlacesTile(L, me.x, me.y);
    StartFormulaIsStart(L.xsize, L.px, me.x);
    QuotIsDiv(IdentifyThread(L, me.x, me.y).startY, L.xsize);
  }

  /** The arguments of blur on worker me after the halo exchange: its own tile
      and the four halos the exchange fills. */
  function WorkerArgs(L: Layout, tiles: seq<seq<Word>>, me: Coord, k: nat, kernel: seq<seq<int>>): (a: Args)
    requires Setup(L, tiles, me, k) && KernelShape(kernel, k)
    ensures a.Valid()
  {
    Args(WorkerFrame(L, me, k), TileOf(L, tiles, me),
         Halos(HaloRight(L, tiles, me, k), HaloLeft(L, tiles, me, k), HaloUp(L, tiles, me, k), HaloDown(L, tiles, me, k)),
         kernel)
  }

  /** The buffers of a call of blur on worker me hold what the exchange
      delivers: the worker's own tile and the four halos around it. */
  ghost predicate Delivered(a: Args, G: seq<Word>, L: Layout, me: Coord) {
    a.Valid() && IsImage(G, L) && L.Valid() && a.f == WorkerFrame(L, me, a.f.khalf) &&
    TileContent(G, L, me, a.image) &&
    SideContent(G, L, me, a.f.khalf, RightSide, a.halo.right) &&
    SideContent(G, L, me, a.f.khalf, LeftSide, a.halo.left) &&
    UpContent(G, L, me, a.f.khalf, a.halo.up) && DownContent(G, L, me, a.f.khalf, a.halo.down)
  }

  /** After the exchange, the arguments of blur on worker me are delivered. */
  lemma {:induction false} WorkerDelivered(G: seq<Word>, L: Layout, tiles: seq<seq<Word>>, me: Coord, k: nat,
                                           kernel: seq<seq<int>>, a: Args)
    requires Setup(L, tiles, me, k) && Known(G, L, tiles) && KernelShape(kernel, k)
    requires a == WorkerArgs(L, tiles, me, k, kernel)
    ensures Delivered(a, G, L, me)
  {
    assert TileContent(G, L, me, TileOf(L, tiles, me));
    ExchangeFillsSide(G, L, tiles, me, k, RightSide);
    ExchangeFillsSide(G, L, tiles, me, k, LeftSide);
    ExchangeFillsUp(G, L, tiles, me, k);
    ExchangeFillsDown(G, L, tiles, me, k);
  }

  /** The tile branch (lines 340-342): index idx + yks * xpxl + xks of the tile
      is the pixel at the offset position. */
  lemma {:induction false} ReadsTile(G: seq<Word>, L: Layout, me: Coord, tile: seq<Word>,
                                     xx: nat, yy: nat, xks: int, yks: int, i: int)
    requires IsImage(G, L) && L.Valid() && TileContent(G, L, me, tile)
    requires 0 <= xx + xks < Width(L, me.x) && 0 <= yy + yks < Height(L, me.y)
    requires i == Mul(yy, Width(L, me.x)) + xx + yks * Width(L, me.x) + xks
    ensures 0 <= i < |tile|
    ensures tile[i] == Extended(G, L, X0(L, me.x) + xx + xks, Y0(L, me.y) + yy + yks)
  {
    var W := Width(L, me.x);
    var r: nat, c: nat := yy + yks, xx + xks;
    MulShift(yy, yks, W);
    FlatBound(r, c, W, Height(L, me.y));
    assert i == Flat(r, c, W);
    assert tile[Flat(r, c, W)] == Extended(G, L, X0(L, me.x) + c, Y0(L, me.y) + r);
  }

  /** The RIGHT branch (lines 344-345): a column right of the tile is read from
      halo[RIGHT], at row yy + yks + khalf. */
  lemma {:induction false} ReadsRight(G: seq<Word>, L: Layout, me: Coord, k: nat, h: seq<Word>,
                                      xx: nat, yy: nat, xks: int, yks: int, i: int)
    requires IsImage(G, L) && L.Valid() && SideContent(G, L, me, k, RightSide, h)
    requires xx < Width(L, me.x) && yy < Height(L, me.y) && xks <= k && -(k as int) <= yks <= k
    requires xx + xks >= Width(L, me.x) && i == (xx + xks - Width(L, me.x)) + Mul(yy + yks + k, k)
    ensures 0 <= i < |h|
    ensures h[i] == Extended(G, L, X0(L, me.x) + xx + xks, Y0(L, me.y) + yy + yks)
  {
    var t: nat, c: nat := yy + yks + k, xx + xks - Width(L, me.x);
    FlatBound(t, c, k, Height(L, me.y) + 2 * k);
    assert i == Flat(t, c, k);
    assert h[Flat(t, c, k)] == Extended(G, L, SideX(L, me, RightSide, k, c), Y0(L, me.y) - k + t);
  }

  /** The LEFT branch (lines 347-348): a column left of the tile is read from
      halo[LEFT], at row yy + yks + khalf. */
  lemma {:induction false} ReadsLeft(G: seq<Word>, L: Layout, me: Coord, k: nat, h: seq<Word>,
                                     xx: nat, yy: nat, xks: int, yks: int, i: int)
    requires IsImage(G, L) && L.Valid() && SideContent(G, L, me, k, LeftSide, h)
    requires yy < Height(L, me.y) && -(k as int) <= xks && -(k as int) <= yks <= k
    requires xx + xks < 0 && i == (xx + xks + k) + Mul(yy + yks + k, k)
    ensures 0 <= i < |h|
    ensures h[i] == Extended(G, L, X0(L, me.x) + xx + xks, Y0(L, me.y) + yy + yks)
  {
    var t: nat, c: nat := yy + yks + k, xx + xks + k;
    FlatBound(t, c, k, Height(L, me.y) + 2 * k);
    assert i == Flat(t, c, k);
    assert h[Flat(t, c, k)] == Extended(G, L, SideX(L, me, LeftSide, k, c), Y0(L, me.y) - k + t);
  }

  /** The UP branch (lines 350-351): a row above the tile is read from halo[UP]. */
  lemma {:induction false} ReadsUp(G: seq<Word>, L: Layout, me: Coord, k: nat, h: seq<Word>,
                                   xx: nat, yy: nat, xks: int, yks: int, i: int)
    requires IsImage(G, L) && L.Valid() && UpContent(G, L, me, k, h)
    requires -(k as int) <= yks && 0 <= xx + xks < Width(L, me.x) && yy + yks < 0
    requires i == (xx + xks) + Mul(k + yy + yks, Width(L, me.x))
    ensures 0 <= i < |h|
    ensures h[i] == Extended(G, L, X0(L, me.x) + xx + xks, Y0(L, me.y) + yy + yks)
  {
    var W := Width(L, me.x);
    var t: nat, c: nat := k + yy + yks, xx + xks;
    FlatBound(t, c, W, k);
    assert i == Flat(t, c, W);
    assert h[Flat(t, c, W)] == Extended(G, L, X0(L, me.x) + c, Y0(L, me.y) - k + t);
  }

  /** The DOWN branch (lines 353-354): a row below the tile is read from
      halo[DOWN]. */
  lemma {:induction false} ReadsDown(G: seq<Word>, L: Layout, me: Coord, k: nat, h: seq<Word>,
                                     xx: nat, yy: nat, xks: int, yks: int, i: int)
    requires IsImage(G, L) && L.Valid() && DownContent(G, L, me, k, h)
    requires yy < Height(L, me.y) && yks <= k && 0 <= xx + xks < Width(L, me.x) && yy + yks >= Height(L, me.y)
    requires i == (xx + xks) + Mul(yy + yks - Height(L, me.y), Width(L, me.x))
    ensures 0 <= i < |h|
    ensures h[i] == Extended(G, L, X0(L, me.x) + xx + xks, Y0(L, me.y) + yy + yks)
  {
    var W, H := Width(L, me.x), Height(L, me.y);
    var t: nat, c: nat := yy + yks - H, xx + xks;
    FlatBound(t, c, W, k);
    assert i == Flat(t, c, W);
    assert h[Flat(t, c, W)] == Extended(G, L, X0(L, me.x) + c, Y0(L, me.y) + H + t);
  }

  /** Every sample blur reads from delivered buffers is the image pixel at the
      offset position (start_x + xx + xks, start_y + yy + yks), and a dropped term
      stands for a position outside the image, where the zero-padded image is 0. */
  lemma {:induction false} ReadIsGlobal(a: Args, G: seq<Word>, L: Layout, me: Coord, xx: nat, yy: nat, xks: int, yks: int)
    requires Delivered(a, G, L, me) && InKernel(a.f, xx, yy, xks, yks)
    ensures Read(a, xx, yy, xks, yks) == Extended(G, L, a.f.startX + xx + xks, a.f.startY + yy + yks)
  {
    var k := a.f.khalf;
    match Resolve(a.f, xx, yy, xks, yks)
    case Skip =>
    case Local(i) =>
      ReadsTile(G, L, me, a.image, xx, yy, xks, yks, i);
    case FromHalo(d, i) =>
      if d == Right {
        ReadsRight(G, L, me, k, a.halo.right, xx, yy, xks, yks, i);
      } else if d == Left {
        ReadsLeft(G, L, me, k, a.halo.left, xx, yy, xks, yks, i);
      } else if d == Up {
        ReadsUp(G, L, me, k, a.halo.up, xx, yy, xks, yks, i);
      } else {
        ReadsDown(G, L, me, k, a.halo.down, xx, yy, xks, yks, i);
      }
  }

  /** The reads of a call of blur agree with image G: every sample read is the
      pixel of the zero-padded image at the offset position. */
  ghost predicate Agrees(a: Args, G: seq<Word>, L: Layout) {
    a.Valid() && IsImage(G, L) && a.f.xsize == L.xsize && a.f.ysize == L.ysize &&
    forall xx: nat, yy: nat, xks: int, yks: int ::
      InKernel(a.f, xx, yy, xks, yks) ==>
        Read(a, xx, yy, xks, yks) == Extended(G, L, a.f.startX + xx + xks, a.f.startY + yy + yks)
  }

  /** Reads from delivered buffers agree with the image. */
  lemma {:induction false} DeliveredAgrees(a: Args, G: seq<Word>, L: Layout, me: Coord)
    requires Delivered(a, G, L, me)
    ensures Agrees(a, G, L)
  {
    forall xx: nat, yy: nat, xks: int, yks: int | InKernel(a.f, xx, yy, xks, yks)
      ensures Read(a, xx, yy, xks, yks) == Extended(G, L, a.f.startX + xx + xks, a.f.startY + yy + yks)
    {
      ReadIsGlobal(a, G, L, me, xx, yy, xks, yks);
    }
  }

  // --- the reference: the kernel over the zero-padded image -----------------

  /** The weighted pixels of kernel row yks around image position (x, y), for
      the offsets xks < n - khalf: the image is read as 0 outside its border. */
  function GlobalRowSum(G: seq<Word>, L: Layout, kernel: seq<seq<int>>, k: nat, x: int, y: int, yks: int, n: nat): int
    requires IsImage(G, L) && KernelShape(kernel, k) && -(k as int) <= yks <= k && n <= 2 * k + 1
  {
    if n == 0 then 0
    else GlobalRowSum(G, L, kernel, k, x, y, yks, n - 1) +
         kernel[k + yks][n - 1] * (Extended(G, L, x + (n - 1 - k), y + yks) as int)
  }

  /** The full kernel rows yks < m - khalf around image position (x, y). */
  function GlobalPixelSum(G: seq<Word>, L: Layout, kernel: seq<seq<int>>, k: nat, x: int, y: int, m: nat): int
    requires IsImage(G, L) && KernelShape(kernel, k) && m <= 2 * k + 1
  {
    if m == 0 then 0
    else GlobalPixelSum(G, L, kernel, k, x, y, m - 1) + GlobalRowSum(G, L, kernel, k, x, y, m - 1 - k, 2 * k + 1)
  }

  /** The reference at pixel q of a tile: image position
      (startX + q % xpxl, startY + q / xpxl). */
  function GlobalAt(G: seq<Word>, L: Layout, kernel: seq<seq<int>>, f: Frame, q: nat): int
    requires IsImage(G, L) && KernelShape(kernel, f.khalf) && q < Mul(f.ypxl, f.xpxl)
  {
    FlatInRange(q, f.xpxl, f.ypxl);
    GlobalPixelSum(G, L, kernel, f.khalf, f.startX + Rem(q, f.xpxl), f.startY + Quot(q, f.xpxl), 2 * f.khalf + 1)
  }

  /** Entry q of the tile's convolution is the kernel sum around the global
      pixel (x, y) that q stands for. */
  lemma {:induction false} GlobalAtPixel(G: seq<Word>, L: Layout, kernel: seq<seq<int>>, f: Frame, q: nat,
                                         k: nat, x: nat, y: nat)
    requires IsImage(G, L) && KernelShape(kernel, f.khalf) && q < Mul(f.ypxl, f.xpxl) && k == f.khalf
    requires f.xpxl > 0 && x == f.startX + Rem(q, f.xpxl) && y == f.startY + Quot(q, f.xpxl)
    ensures GlobalAt(G, L, kernel, f, q) == GlobalPixelSum(G, L, kernel, k, x, y, 2 * k + 1)
  {
  }

  /** The zero-padded convolution of the whole image over the pixels of a tile,
      in row-major order. */
  function GlobalBlurred(G: seq<Word>, L: Layout, kernel: seq<seq<int>>, f: Frame): (r: seq<int>)
    requires IsImage(G, L) && KernelShape(kernel, f.khalf)
  {
    seq(Mul(f.ypxl, f.xpxl), q requires 0 <= q < Mul(f.ypxl, f.xpxl) => GlobalAt(G, L, kernel, f, q))
  }

  /** A term of an agreeing call adds the kernel weight times the pixel of the
      zero-padded image at the offset position. */
  lemma {:induction false} TermIsGlobal(a: Args, G: seq<Word>, L: Layout, xx: nat, yy: nat, xks: int, yks: int)
    requires Agrees(a, G, L) && InKernel(a.f, xx, yy, xks, yks)
    ensures 0 <= a.f.khalf + yks < |a.kernel| && 0 <= a.f.khalf + xks < |a.kernel[a.f.khalf + yks]|
    ensures Term(a, xx, yy, xks, yks) ==
              a.kernel[a.f.khalf + yks][a.f.khalf + xks] *
              (Extended(G, L, a.f.startX + xx + xks, a.f.startY + yy + yks) as int)
  {
    KernelInBounds(a.kernel, a.f.khalf, xks, yks);
    assert Read(a, xx, yy, xks, yks) == Extended(G, L, a.f.startX + xx + xks, a.f.startY + yy + yks);
  }

  /** One kernel row of the accumulated value is that row of the reference. */
  lemma {:induction false} RowSumIsGlobal(a: Args, G: seq<Word>, L: Layout, xx: nat, yy: nat, yks: int, n: nat)
    requires Agrees(a, G, L) && xx < a.f.xpxl && yy < a.f.ypxl
    requires -(a.f.khalf as int) <= yks <= a.f.khalf && n <= 2 * a.f.khalf + 1
    ensures RowSum(a, xx, yy, yks, n) ==
              GlobalRowSum(G, L, a.kernel, a.f.khalf, a.f.startX + xx, a.f.startY + yy, yks, n)
  {
    if n > 0 {
      RowSumIsGlobal(a, G, L, xx, yy, yks, n - 1);
      TermIsGlobal(a, G, L, xx, yy, n - 1 - a.f.khalf, yks);
    }
  }

  /** The accumulated value of a pixel is the reference at that pixel. */
  lemma {:induction false} PixelSumIsGlobal(a: Args, G: seq<Word>, L: Layout, xx: nat, yy: nat, m: nat)
    requires Agrees(a, G, L) && xx < a.f.xpxl && yy < a.f.ypxl && m <= 2 * a.f.khalf + 1
    ensures PixelSum(a, xx, yy, m) == GlobalPixelSum(G, L, a.kernel, a.f.khalf, a.f.startX + xx, a.f.startY + yy, m)
  {
    if m > 0 {
      PixelSumIsGlobal(a, G, L, xx, yy, m - 1);
      RowSumIsGlobal(a, G, L, xx, yy, m - 1 - a.f.khalf, 2 * a.f.khalf + 1);
    }
  }

  /** Pixel q of the result is the reference at pixel q. */
  lemma {:induction false} PixelAtIsGlobal(a: Args, G: seq<Word>, L: Layout, q: nat)
    requires Agrees(a, G, L) && q < Mul(a.f.ypxl, a.f.xpxl)
    ensures PixelAt(a, q) == GlobalAt(G, L, a.kernel, a.f, q)
  {
    FlatInRange(q, a.f.xpxl, a.f.ypxl);
    PixelSumIsGlobal(a, G, L, Rem(q, a.f.xpxl), Quot(q, a.f.xpxl), 2 * a.f.khalf + 1);
  }

  /** When the reads of a call agree with the image, what blur computes is the
      zero-padded convolution of the image over the call's tile. */
  lemma {:induction false} BlurredIsGlobal(a: Args, G: seq<Word>, L: Layout)
    requires Agrees(a, G, L)
    ensures Blurred(a) == GlobalBlurred(G, L, a.kernel, a.f)
  {
    forall q | 0 <= q < Mul(a.f.ypxl, a.f.xpxl)
      ensures PixelAt(a, q) == GlobalAt(G, L, a.kernel, a.f, q)
    {
      PixelAtIsGlobal(a, G, L, q);
    }
  }

  /** The composed theorem: when every tile holds its part of the image and the
      halos are what the exchange delivers, what blur computes on worker me is
      the zero-padded convolution of the whole image over that worker's tile. */
  lemma {:induction false} BlurIsGlobal(G: seq<Word>, L: Layout, tiles: seq<seq<Word>>, me: Coord, k: nat,
                                        kernel: seq<seq<int>>)
    requires Setup(L, tiles, me, k) && Holds(G, L, tiles) && KernelShape(kernel, k)
    ensures Blurred(WorkerArgs(L, tiles, me, k, kernel)) == GlobalBlurred(G, L, kernel, WorkerFrame(L, me, k))
  {
    var a := WorkerArgs(L, tiles, me, k, kernel);
    HoldsKnown(G, L, tiles);
    WorkerDelivered(G, L, tiles, me, k, kernel, a);
    DeliveredAgrees(a, G, L, me);
    BlurredIsGlobal(a, G, L);
  }
}
