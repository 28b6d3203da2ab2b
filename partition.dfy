/** The domain decomposition of identify_thread: an image of xsize x ysize pixels
    is cut into a px x py grid of tiles; along each axis every tile gets n / p
    pixels and the first n % p tiles one more. */
module Partition {
  import opened Arith

  /** The image and grid sizes every worker starts from (the header's width and
      height, and the two grid dimensions chosen for the worker count). */
  datatype Layout = Layout(xsize: nat, ysize: nat, px: nat, py: nat)
  {
    /** Neither the image nor the grid is empty. */
    predicate Valid() {
      xsize > 0 && ysize > 0 && px > 0 && py > 0
    }
  }

  /** Number of pixels of tile i on an axis of n pixels cut among p tiles. */
  function Length(n: nat, p: nat, i: nat): nat
    requires p > 0
  {
    Quot(n, p) + (if i < Rem(n, p) then 1 else 0)
  }

  /** First pixel of tile i on that axis: the lengths of the tiles before it,
      laid end to end. */
  function Start(n: nat, p: nat, i: nat): nat
    requires p > 0
  {
    if i == 0 then 0 else Start(n, p, i - 1) + Length(n, p, i - 1)
  }

  /** The closed form identify_thread computes (lines 124-128): i whole shares,
      plus i extra pixels if i <= n % p and n % p of them otherwise. */
  function StartFormula(n: nat, p: nat, i: nat): nat
    requires p > 0
  {
    Mul(i, Quot(n, p)) + (if i <= Rem(n, p) then i else Rem(n, p))
  }

  /** The closed form is the start of the tile. */
  lemma {:induction false} StartFormulaIsStart(n: nat, p: nat, i: nat)
    requires p > 0
    ensures StartFormula(n, p, i) == Start(n, p, i)
  {
    if i > 0 {
      StartFormulaIsStart(n, p, i - 1);
      MulAddLeft(i - 1, 1, Quot(n, p));
      MulOne(Quot(n, p));
    }
  }

  /** Tiles are balanced: every length is n / p or n / p + 1, the longer ones
      are exactly those below n % p, and lengths never grow with the index. */
  lemma {:induction false} LengthBalanced(n: nat, p: nat, i: nat, j: nat)
    requires p > 0 && i <= j
    ensures Length(n, p, i) == Quot(n, p) || Length(n, p, i) == Quot(n, p) + 1
    ensures Length(n, p, i) == Quot(n, p) + 1 <==> i < Rem(n, p)
    ensures Length(n, p, j) <= Length(n, p, i) <= Length(n, p, 0)
    ensures Length(n, p, p - 1) == Quot(n, p)
  {
    QuotRem(n, p);
  }

  /** Tile i + 1 starts where tile i ends. */
  lemma {:induction false} StartStep(n: nat, p: nat, i: nat)
    requires p > 0
    ensures Start(n, p, i + 1) == Start(n, p, i) + Length(n, p, i)
  {
  }

  /** The first tile starts at 0 and the last one ends at n. */
  lemma {:induction false} StartEnds(n: nat, p: nat)
    requires p > 0
    ensures Start(n, p, 0) == 0
    ensures Start(n, p, p) == n
    ensures Start(n, p, p - 1) + Length(n, p, p - 1) == n
  {
    StartFormulaIsStart(n, p, p);
    StartStep(n, p, p - 1);
    QuotRem(n, p);
    MulComm(p, Quot(n, p));
  }

  /** Starts never decrease, and a tile ends no later than any later tile starts. */
  lemma {:induction false} StartMono(n: nat, p: nat, i: nat, j: nat)
    requires p > 0 && i < j
    ensures Start(n, p, i) + Length(n, p, i) <= Start(n, p, j)
    decreases j - i
  {
    StartStep(n, p, i);
    if i + 1 < j {
      StartMono(n, p, i + 1, j);
    }
  }

  /** The tile at or after tile i that holds pixel x. */
  function OwnerFrom(n: nat, p: nat, x: nat, i: nat): (o: nat)
    requires p > 0 && i <= p && Start(n, p, i) <= x < n
    ensures i <= o < p
    ensures Start(n, p, o) <= x < Start(n, p, o) + Length(n, p, o)
    decreases p - i
  {
    StartEnds(n, p);
    StartStep(n, p, i);
    if x < Start(n, p, i) + Length(n, p, i) then i else OwnerFrom(n, p, x, i + 1)
  }

  /** The tile that holds pixel x of an axis. */
  function Owner(n: nat, p: nat, x: nat): (o: nat)
    requires p > 0 && x < n
    ensures o < p
    ensures Start(n, p, o) <= x < Start(n, p, o) + Length(n, p, o)
  {
    StartEnds(n, p);
    OwnerFrom(n, p, x, 0)
  }

  /** No pixel of an axis lies in two tiles. */
  lemma {:induction false} OwnerUnique(n: nat, p: nat, x: nat, i: nat)
    requires p > 0 && i < p
    requires Start(n, p, i) <= x < Start(n, p, i) + Length(n, p, i)
    ensures x < n && Owner(n, p, x) == i
  {
    StartMono(n, p, i, p);
    StartEnds(n, p);
    var o := Owner(n, p, x);
    if o < i {
      StartMono(n, p, o, i);
    } else if i < o {
      StartMono(n, p, i, o);
    }
  }

  // --- the two axes together ------------------------------------------------

  /** Width of the tiles in grid column i. */
  function Width(L: Layout, i: nat): nat
    requires L.Valid()
  {
    Length(L.xsize, L.px, i)
  }

  /** Height of the tiles in grid row j. */
  function Height(L: Layout, j: nat): nat
    requires L.Valid()
  {
    Length(L.ysize, L.py, j)
  }

  /** First image column of grid column i. */
  function X0(L: Layout, i: nat): nat
    requires L.Valid()
  {
    Start(L.xsize, L.px, i)
  }

  /** First image row of grid row j. */
  function Y0(L: Layout, j: nat): nat
    requires L.Valid()
  {
    Start(L.ysize, L.py, j)
  }

  /** The five out-parameters of identify_thread. As in the program, startY holds
      the first row already multiplied by xsize. */
  datatype Placement = Placement(xpxl: nat, ypxl: nat, startIdx: nat, startX: nat, startY: nat)

  /** Neighbouring tiles touch: a tile ends where the next one starts, the first
      tiles start at 0 and the last ones end at the image border. */
  lemma {:induction false} Adjacent(L: Layout, i: nat, j: nat)
    requires L.Valid()
    ensures X0(L, i + 1) == X0(L, i) + Width(L, i) && Y0(L, j + 1) == Y0(L, j) + Height(L, j)
    ensures X0(L, 0) == 0 && Y0(L, 0) == 0
    ensures X0(L, L.px - 1) + Width(L, L.px - 1) == L.xsize
    ensures Y0(L, L.py - 1) + Height(L, L.py - 1) == L.ysize
  {
    StartStep(L.xsize, L.px, i);
    StartStep(L.ysize, L.py, j);
    StartEnds(L.xsize, L.px);
    StartEnds(L.ysize, L.py);
  }

  /** identify_thread for the worker at grid position (xxth, yyth). */
  function IdentifyThread(L: Layout, xxth: nat, yyth: nat): Placement
    requires L.Valid()
  {
    var startX := StartFormula(L.xsize, L.px, xxth);
    var startY := Mul(StartFormula(L.ysize, L.py, yyth), L.xsize);
    Placement(Length(L.xsize, L.px, xxth), Length(L.ysize, L.py, yyth), startX + startY, startX, startY)
  }

  /** Flat index of the first pixel of tile (i, j) in the row-major image. */
  function StartIdx(L: Layout, i: nat, j: nat): nat
    requires L.Valid()
  {
    Mul(Y0(L, j), L.xsize) + X0(L, i)
  }

  /** identify_thread agrees with the per-axis formulas: startIdx is the flat index
      of the tile's first pixel, blur's division of startY by xsize gives back the
      first row, and the tile fits inside the image. */
  lemma {:induction false} IdentifyThreadPlacesTile(L: Layout, i: nat, j: nat)
    requires L.Valid() && i < L.px && j < L.py
    ensures IdentifyThread(L, i, j).startIdx == StartIdx(L, i, j)
    ensures Quot(IdentifyThread(L, i, j).startY, L.xsize) == Y0(L, j)
    ensures X0(L, i) + Width(L, i) <= L.xsize && Y0(L, j) + Height(L, j) <= L.ysize
  {
    StartFormulaIsStart(L.xsize, L.px, i);
    StartFormulaIsStart(L.ysize, L.py, j);
    FlatSplit(Y0(L, j), 0, L.xsize);
    StartMono(L.xsize, L.px, i, L.px);
    StartMono(L.ysize, L.py, j, L.py);
    StartEnds(L.xsize, L.px);
    StartEnds(L.ysize, L.py);
  }

  /** Tile (i, j) lies inside the image. */
  lemma {:induction false} TileInside(L: Layout, i: nat, j: nat)
    requires L.Valid() && i < L.px && j < L.py
    ensures X0(L, i) + Width(L, i) <= L.xsize && Y0(L, j) + Height(L, j) <= L.ysize
  {
    StartMono(L.xsize, L.px, i, L.px);
    StartMono(L.ysize, L.py, j, L.py);
    StartEnds(L.xsize, L.px);
    StartEnds(L.ysize, L.py);
  }

  /** Local position (r, c) of tile (i, j) is the global pixel at flat index p. */
  predicate InTile(L: Layout, i: nat, j: nat, r: nat, c: nat, p: nat)
    requires L.Valid()
  {
    i < L.px && j < L.py && r < Height(L, j) && c < Width(L, i) &&
    p == StartIdx(L, i, j) + Mul(r, L.xsize) + c
  }

  /** The tile, row and column that hold global flat index p. */
  function Locate(L: Layout, p: nat): (t: (nat, nat, nat, nat))
    requires L.Valid() && p < Mul(L.ysize, L.xsize)
    ensures InTile(L, t.0, t.1, t.2, t.3, p)
  {
    FlatInRange(p, L.xsize, L.ysize);
    var x, y := Rem(p, L.xsize), Quot(p, L.xsize);
    var i, j := Owner(L.xsize, L.px, x), Owner(L.ysize, L.py, y);
    var y0, x0 := Y0(L, j), X0(L, i);
    MulAddLeft(y0, y - y0, L.xsize);
    (i, j, y - y0, x - x0)
  }

  /** Tiles placed at startIdx with row stride xsize cover every pixel of the image
      exactly once: each local position lands inside the image, and every pixel
      is reached from exactly one tile and one local position. */
  lemma {:induction false} TilesCoverOnce(L: Layout, i: nat, j: nat, r: nat, c: nat, p: nat)
    requires L.Valid() && InTile(L, i, j, r, c, p)
    ensures p < Mul(L.ysize, L.xsize)
    ensures Locate(L, p) == (i, j, r, c)
  {
    TileInside(L, i, j);
    var y0, x0 := Y0(L, j), X0(L, i);
    var y, x := y0 + r, x0 + c;
    MulAddLeft(y0, r, L.xsize);
    FlatBound(y, x, L.xsize, L.ysize);
    FlatSplit(y, x, L.xsize);
    OwnerUnique(L.xsize, L.px, x, i);
    OwnerUnique(L.ysize, L.py, y, j);
  }

  /** The pixel at flat index p is column X0 + c and row Y0 + r of the image,
      where (r, c) is its local position in the tile that holds it. */
  lemma {:induction false} LocateSplits(L: Layout, p: nat)
    requires L.Valid() && p < Mul(L.ysize, L.xsize)
    ensures X0(L, Locate(L, p).0) + Locate(L, p).3 == Rem(p, L.xsize)
    ensures Y0(L, Locate(L, p).1) + Locate(L, p).2 == Quot(p, L.xsize)
  {
    var t := Locate(L, p);
    TileInside(L, t.0, t.1);
    MulAddLeft(Y0(L, t.1), t.2, L.xsize);
    FlatSplit(Y0(L, t.1) + t.2, X0(L, t.0) + t.3, L.xsize);
  }
}
