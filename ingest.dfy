/** read_pixels2: all workers walk the image body once, in the order grid row,
    pixel row within it, grid column, and each run of one tile row is copied only
    by the worker that owns it. The file is an in-memory byte sequence read
    through a cursor, as fread would: a read returns what is left when fewer bytes
    remain, and a short read ends the walk. */
module Ingest {
  import opened Arith
  import opened Rows
  import opened Partition
  import opened Topology
  import opened Swap

  /** Bytes per sample: two when maxval is above 255 (line 223). */
  function ColorDepth(maxval: int): nat {
    if maxval > 255 then 2 else 1
  }

  /** Stream offset of the run of image row y that belongs to grid column i:
      ((y * xsize) + start_x) * cd. */
  function RunStart(L: Layout, cd: nat, y: nat, i: nat): nat
    requires L.Valid()
  {
    Mul(Mul(y, L.xsize) + X0(L, i), cd)
  }

  /** Bytes in a run of grid column i: xpxl * cd. */
  function RunLength(L: Layout, cd: nat, i: nat): nat
    requires L.Valid()
  {
    Mul(Width(L, i), cd)
  }

  /** The walk reaches run (y, i) before run (y', i'). */
  predicate Before(y: nat, i: nat, y': nat, i': nat) {
    y < y' || (y == y' && i < i')
  }

  /** Runs are consecutive pieces of the stream: every run ends no later than any
      later run starts. */
  lemma {:induction false} RunOrder(L: Layout, cd: nat, y: nat, i: nat, y': nat, i': nat)
    requires L.Valid() && i < L.px && i' <= L.px
    requires Before(y, i, y', i')
    ensures RunStart(L, cd, y, i) + RunLength(L, cd, i) <= RunStart(L, cd, y', i')
  {
    StartMono(L.xsize, L.px, i, L.px);
    StartEnds(L.xsize, L.px);
    if y == y' {
      StartMono(L.xsize, L.px, i, i');
    }
    var x0, w, x0' := X0(L, i), Width(L, i), X0(L, i');
    FlatOrder(y, x0 + w, y', x0', L.xsize);
    MulMono(Mul(y, L.xsize) + x0 + w, Mul(y', L.xsize) + x0', cd);
    MulAddLeft(Mul(y, L.xsize) + x0, w, cd);
  }

  /** Run i + 1 of a row starts where run i ends. */
  lemma {:induction false} RunStep(L: Layout, cd: nat, y: nat, i: nat)
    requires L.Valid()
    ensures RunStart(L, cd, y, i + 1) == RunStart(L, cd, y, i) + RunLength(L, cd, i)
  {
    StartStep(L.xsize, L.px, i);
    var x0, w := X0(L, i), Width(L, i);
    MulAddLeft(Mul(y, L.xsize) + x0, w, cd);
  }

  /** The run after the last grid column of a row is the first run of the next row. */
  lemma {:induction false} RunWrap(L: Layout, cd: nat, y: nat)
    requires L.Valid()
    ensures RunStart(L, cd, y, L.px) == RunStart(L, cd, y + 1, 0)
  {
    StartEnds(L.xsize, L.px);
  }

  /** Later rows start later. */
  lemma {:induction false} RunMono(L: Layout, cd: nat, y: nat, y': nat)
    requires L.Valid() && y <= y'
    ensures RunStart(L, cd, y, 0) <= RunStart(L, cd, y', 0)
  {
    StartEnds(L.xsize, L.px);
    FlatOrder(y, 0, y', 0, L.xsize);
    MulMono(Mul(y, L.xsize), Mul(y', L.xsize), cd);
  }

  /** Bytes in the image body: xsize * ysize * cd. */
  function BodyLength(L: Layout, cd: nat): nat {
    Mul(Mul(L.ysize, L.xsize), cd)
  }

  /** The whole body ends where the run after the last row would start. */
  lemma {:induction false} BodyEnd(L: Layout, cd: nat)
    requires L.Valid()
    ensures RunStart(L, cd, L.ysize, 0) == BodyLength(L, cd)
  {
    StartEnds(L.xsize, L.px);
  }

  /** Row r of the owner's tile after every run before (y, i) has been read: its
      run of the stream when that run comes before (y, i) and lies inside the
      stream, and its previous contents otherwise. */
  function WalkedRow(stream: seq<Byte>, L: Layout, me: Coord, cd: nat, prev: seq<seq<Byte>>, y: nat, i: nat, r: nat)
    : (row: seq<Byte>)
    requires L.Valid() && Uniform(prev, RunLength(L, cd, me.x)) && r < |prev|
    ensures |row| == RunLength(L, cd, me.x)
  {
    var run, W := RunStart(L, cd, Y0(L, me.y) + r, me.x), RunLength(L, cd, me.x);
    if Before(Y0(L, me.y) + r, me.x, y, i) && run + W <= |stream| then stream[run .. run + W] else prev[r]
  }

  /** All rows of the owner's tile after every run before (y, i) has been read. */
  function WalkedRows(stream: seq<Byte>, L: Layout, me: Coord, cd: nat, prev: seq<seq<Byte>>, y: nat, i: nat)
    : (rows: seq<seq<Byte>>)
    requires L.Valid() && Uniform(prev, RunLength(L, cd, me.x))
    ensures |rows| == |prev| && Uniform(rows, RunLength(L, cd, me.x))
  {
    seq(|prev|, r requires 0 <= r < |prev| => WalkedRow(stream, L, me, cd, prev, y, i, r))
  }

  /** The rows of the owner's tile at the end of read_pixels2, given the tile's
      previous contents. */
  function IngestedRows(stream: seq<Byte>, L: Layout, me: Coord, cd: nat, prev: seq<Byte>): (rows: seq<seq<Byte>>)
    requires L.Valid() && InGrid(L, me.x, me.y)
    requires |prev| == Mul(Height(L, me.y), RunLength(L, cd, me.x))
    ensures |rows| == Height(L, me.y) && Uniform(rows, RunLength(L, cd, me.x))
  {
    WalkedRows(stream, L, me, cd, RowsOf(prev, RunLength(L, cd, me.x), Height(L, me.y)), L.ysize, 0)
  }

  /** The owner's tile buffer at the end of read_pixels2: its rows laid end to end. */
  function Ingested(stream: seq<Byte>, L: Layout, me: Coord, cd: nat, prev: seq<Byte>): (tile: seq<Byte>)
    requires L.Valid() && InGrid(L, me.x, me.y)
    requires |prev| == Mul(Height(L, me.y), RunLength(L, cd, me.x))
    ensures |tile| == |prev|
  {
    var rows := IngestedRows(stream, L, me, cd, prev);
    FlattenLength(rows, RunLength(L, cd, me.x));
    Flatten(rows)
  }

  /** Two rows of different grid rows are different image rows. */
  lemma {:induction false} RowsOfDifferentTiles(L: Layout, j: nat, r: nat, j': nat, r': nat)
    requires L.Valid() && j < L.py && j' < L.py && r < Height(L, j) && r' < Height(L, j')
    requires Y0(L, j) + r == Y0(L, j') + r'
    ensures j == j' && r == r'
  {
    OwnerUnique(L.ysize, L.py, Y0(L, j) + r, j);
    OwnerUnique(L.ysize, L.py, Y0(L, j') + r', j');
  }

  /** Row r of the tile read from the stream is the stream's run for image row
      start_y + r from column start_x on, the xpxl * cd bytes from offset
      ((start_y + r) * xsize + start_x) * cd, when that run lies inside the
      stream, and the row's previous contents otherwise. */
  lemma {:induction false} IngestedRowAt(stream: seq<Byte>, L: Layout, me: Coord, cd: nat, prev: seq<Byte>, r: nat)
    requires L.Valid() && InGrid(L, me.x, me.y)
    requires |prev| == Mul(Height(L, me.y), RunLength(L, cd, me.x))
    requires r < Height(L, me.y)
    ensures var run, W := RunStart(L, cd, Y0(L, me.y) + r, me.x), RunLength(L, cd, me.x);
            IngestedRows(stream, L, me, cd, prev)[r] ==
              if run + W <= |stream| then stream[run .. run + W] else Row(prev, W, Height(L, me.y), r)
  {
    TileInside(L, me.x, me.y);
    assert Before(Y0(L, me.y) + r, me.x, L.ysize, 0);
  }

  /** On a stream holding the whole body, every row of the tile is the stream's
      copy of its image row. */
  lemma {:induction false} IngestedFromFullStream(stream: seq<Byte>, L: Layout, me: Coord, cd: nat, prev: seq<Byte>, r: nat)
    requires L.Valid() && InGrid(L, me.x, me.y)
    requires |prev| == Mul(Height(L, me.y), RunLength(L, cd, me.x))
    requires BodyLength(L, cd) <= |stream|
    requires r < Height(L, me.y)
    ensures var run, W := RunStart(L, cd, Y0(L, me.y) + r, me.x), RunLength(L, cd, me.x);
            run + W <= |stream| && IngestedRows(stream, L, me, cd, prev)[r] == stream[run .. run + W]
  {
    IngestedRowAt(stream, L, me, cd, prev, r);
    TileInside(L, me.x, me.y);
    RunOrder(L, cd, Y0(L, me.y) + r, me.x, L.ysize, 0);
    BodyEnd(L, cd);
  }

  /** Copies the xmax * cd bytes of line into row ypxlidx of the tile buffer, at
      offset ypxlidx * xmax * cd (lines 255-257). */
  method CopyRun(image: array<Byte>, ypxlidx: nat, xmax: nat, cd: nat, line: seq<Byte>)
    requires |line| == Mul(xmax, cd) && Mul(ypxlidx, Mul(xmax, cd)) + |line| <= image.Length
    modifies image
    ensures var off := Mul(ypxlidx, Mul(xmax, cd));
            image[..] == old(image[..])[..off] + line + old(image[..])[off + Mul(xmax, cd)..]
  {
    MulAssoc(ypxlidx, xmax, cd);
    MulComm(cd, xmax);
    ghost var off := Mul(Mul(ypxlidx, xmax), cd);
    for k := 0 to Mul(cd, xmax)
      invariant forall p :: 0 <= p < image.Length ==>
                  image[p] == if off <= p < off + k then line[p - off] else old(image[p])
    {
      image[k + Mul(Mul(ypxlidx, xmax), cd)] := line[k];
    }
  }

  /** Nothing has been read before the first run. */
  lemma {:induction false} WalkStart(stream: seq<Byte>, L: Layout, me: Coord, cd: nat, prev: seq<seq<Byte>>)
    requires L.Valid() && Uniform(prev, RunLength(L, cd, me.x))
    ensures WalkedRows(stream, L, me, cd, prev, 0, 0) == prev
  {
  }

  /** A run of another worker leaves the tile as it is. */
  lemma {:induction false} WalkOther(stream: seq<Byte>, L: Layout, me: Coord, cd: nat, prev: seq<seq<Byte>>,
                  ydim: nat, r: nat, y: nat, xdim: nat)
    requires L.Valid() && InGrid(L, me.x, me.y) && ydim < L.py && r < Height(L, ydim) && xdim < L.px
    requires Uniform(prev, RunLength(L, cd, me.x)) && |prev| == Height(L, me.y)
    requires y == Y0(L, ydim) + r
    requires me.x != xdim || me.y != ydim
    ensures WalkedRows(stream, L, me, cd, prev, y, xdim) == WalkedRows(stream, L, me, cd, prev, y, xdim + 1)
  {
    forall r' | 0 <= r' < |prev|
      ensures WalkedRow(stream, L, me, cd, prev, y, xdim, r') == WalkedRow(stream, L, me, cd, prev, y, xdim + 1, r')
    {
      if Y0(L, me.y) + r' == y && me.x == xdim {
        RowsOfDifferentTiles(L, me.y, r', ydim, r);
      }
    }
  }

  /** The owner's own run replaces row r of its tile. */
  lemma {:induction false} WalkOwn(stream: seq<Byte>, L: Layout, me: Coord, cd: nat, prev: seq<seq<Byte>>, r: nat, y: nat, line: seq<Byte>)
    requires L.Valid() && InGrid(L, me.x, me.y) && r < Height(L, me.y)
    requires Uniform(prev, RunLength(L, cd, me.x)) && |prev| == Height(L, me.y)
    requires y == Y0(L, me.y) + r
    requires RunStart(L, cd, y, me.x) + RunLength(L, cd, me.x) <= |stream|
    requires line == stream[RunStart(L, cd, y, me.x)..RunStart(L, cd, y, me.x) + RunLength(L, cd, me.x)]
    ensures WalkedRows(stream, L, me, cd, prev, y, me.x + 1) == WalkedRows(stream, L, me, cd, prev, y, me.x)[r := line]
  {
  }

  /** Reading past the last grid column of image row y is reading the next row. */
  lemma {:induction false} WalkWrap(stream: seq<Byte>, L: Layout, me: Coord, cd: nat, prev: seq<seq<Byte>>, y: nat)
    requires L.Valid() && InGrid(L, me.x, me.y) && Uniform(prev, RunLength(L, cd, me.x))
    ensures WalkedRows(stream, L, me, cd, prev, y, L.px) == WalkedRows(stream, L, me, cd, prev, y + 1, 0)
  {
  }

  /** Once a run does not fit in the stream, no later run does either, so the
      tile already has its final contents. */
  lemma {:induction false} WalkRest(stream: seq<Byte>, L: Layout, me: Coord, cd: nat, prev: seq<seq<Byte>>, ydim: nat, y: nat, i: nat)
    requires L.Valid() && InGrid(L, me.x, me.y) && ydim < L.py && y < Y0(L, ydim) + Height(L, ydim) && i < L.px
    requires Uniform(prev, RunLength(L, cd, me.x)) && |prev| == Height(L, me.y)
    requires |stream| < RunStart(L, cd, y, i) + RunLength(L, cd, i)
    ensures WalkedRows(stream, L, me, cd, prev, y, i) == WalkedRows(stream, L, me, cd, prev, L.ysize, 0)
  {
    TileInside(L, me.x, me.y);
    TileInside(L, i, ydim);
    forall r | 0 <= r < |prev|
      ensures WalkedRow(stream, L, me, cd, prev, y, i, r) == WalkedRow(stream, L, me, cd, prev, L.ysize, 0, r)
    {
      if !Before(Y0(L, me.y) + r, me.x, y, i) && (Y0(L, me.y) + r != y || me.x != i) {
        RunOrder(L, cd, y, i, Y0(L, me.y) + r, me.x);
      }
    }
  }

  /** Stores the owner's complete run for row r of its tile: the tile buffer
      now holds the walk one run further. */
  method StoreRun(stream: seq<Byte>, L: Layout, me: Coord, cd: nat, image: array<Byte>, ghost prev: seq<seq<Byte>>,
                  r: nat, ghost y: nat, xmax: nat, line: seq<Byte>)
    requires L.Valid() && InGrid(L, me.x, me.y) && r < Height(L, me.y)
    requires Uniform(prev, RunLength(L, cd, me.x)) && |prev| == Height(L, me.y)
    requires y == Y0(L, me.y) + r && xmax == Width(L, me.x)
    requires RunStart(L, cd, y, me.x) + RunLength(L, cd, me.x) <= |stream|
    requires line == stream[RunStart(L, cd, y, me.x)..RunStart(L, cd, y, me.x) + RunLength(L, cd, me.x)]
    requires image[..] == Flatten(WalkedRows(stream, L, me, cd, prev, y, me.x))
    modifies image
    ensures image[..] == Flatten(WalkedRows(stream, L, me, cd, prev, y, me.x + 1))
  {
    ghost var rows := WalkedRows(stream, L, me, cd, prev, y, me.x);
    WalkOwn(stream, L, me, cd, prev, r, y, line);
    FlattenUpdate(rows, Mul(xmax, cd), r, line);
    CopyRun(image, r, xmax, cd, line);
  }

  /** One read of the walk (lines 244-262): xmax * cd bytes are requested for
      run (y, xdim), y being row ypxlidx of grid row ydim; a complete read is
      copied into row ypxlidx of the tile when the run is the worker's own, and a
      short read ends the walk. */
  method ReadRun(stream: seq<Byte>, L: Layout, me: Coord, cd: nat, image: array<Byte>, ghost prev: seq<seq<Byte>>,
                 ydim: nat, ypxlidx: nat, xdim: nat, cursor: nat)
    returns (full: bool, next: nat)
    requires L.Valid() && InGrid(L, me.x, me.y) && ydim < L.py && ypxlidx < Height(L, ydim) && xdim < L.px
    requires Uniform(prev, RunLength(L, cd, me.x)) && |prev| == Height(L, me.y)
    requires cursor == RunStart(L, cd, Y0(L, ydim) + ypxlidx, xdim) <= |stream|
    requires image[..] == Flatten(WalkedRows(stream, L, me, cd, prev, Y0(L, ydim) + ypxlidx, xdim))
    modifies image
    ensures full <==> RunStart(L, cd, Y0(L, ydim) + ypxlidx, xdim) + RunLength(L, cd, xdim) <= |stream|
    ensures full ==> next == RunStart(L, cd, Y0(L, ydim) + ypxlidx, xdim + 1) <= |stream|
    ensures full ==> image[..] == Flatten(WalkedRows(stream, L, me, cd, prev, Y0(L, ydim) + ypxlidx, xdim + 1))
    ensures !full ==> next == |stream|
    ensures !full ==> image[..] == Flatten(WalkedRows(stream, L, me, cd, prev, L.ysize, 0))
  {
    ghost var y := Y0(L, ydim) + ypxlidx;
    var xmax := Quot(L.xsize, L.px);
    if xdim < Rem(L.xsize, L.px) {
      xmax := xmax + 1;
    }
    assert xmax == Width(L, xdim);
    var want := Mul(xmax, cd);
    assert want == RunLength(L, cd, xdim);
    var got := if |stream| - cursor < want then |stream| - cursor else want;
    var line := stream[cursor..cursor + got];
    full := got == want;
    next := cursor + got;
    if !full {
      WalkRest(stream, L, me, cd, prev, ydim, y, xdim);
    } else {
      RunStep(L, cd, y, xdim);
      if me.x == xdim && me.y == ydim {
        StoreRun(stream, L, me, cd, image, prev, ypxlidx, y, xmax, line);
      } else {
        WalkOther(stream, L, me, cd, prev, ydim, ypxlidx, y, xdim);
      }
    }
  }

  /** The walk over the grid columns for one image row (lines 242-262). */
  method ReadImageRow(stream: seq<Byte>, L: Layout, me: Coord, cd: nat, image: array<Byte>, ghost prev: seq<seq<Byte>>,
                      ydim: nat, ypxlidx: nat, cursor: nat)
    returns (full: bool, next: nat)
    requires L.Valid() && InGrid(L, me.x, me.y) && ydim < L.py && ypxlidx < Height(L, ydim)
    requires Uniform(prev, RunLength(L, cd, me.x)) && |prev| == Height(L, me.y)
    requires cursor == RunStart(L, cd, Y0(L, ydim) + ypxlidx, 0) <= |stream|
    requires image[..] == Flatten(WalkedRows(stream, L, me, cd, prev, Y0(L, ydim) + ypxlidx, 0))
    modifies image
    ensures full <==> RunStart(L, cd, Y0(L, ydim) + ypxlidx + 1, 0) <= |stream|
    ensures full ==> next == RunStart(L, cd, Y0(L, ydim) + ypxlidx + 1, 0) &&
                     image[..] == Flatten(WalkedRows(stream, L, me, cd, prev, Y0(L, ydim) + ypxlidx + 1, 0))
    ensures !full ==> next == |stream| &&
                      image[..] == Flatten(WalkedRows(stream, L, me, cd, prev, L.ysize, 0))
  {
    ghost var y := Y0(L, ydim) + ypxlidx;
    next := cursor;
    var xdim := 0;
    while xdim < L.px
      invariant xdim <= L.px
      invariant next == RunStart(L, cd, y, xdim) <= |stream|
      invariant image[..] == Flatten(WalkedRows(stream, L, me, cd, prev, y, xdim))
    {
      full, next := ReadRun(stream, L, me, cd, image, prev, ydim, ypxlidx, xdim, next);
      if !full {
        RunOrder(L, cd, y, xdim, y + 1, 0);
        RunWrap(L, cd, y);
        return;
      }
      xdim := xdim + 1;
    }
    RunWrap(L, cd, y);
    WalkWrap(stream, L, me, cd, prev, y);
    full := true;
  }

  /** The walk over the image rows of grid row ydim (lines 240-263). */
  method ReadGridRow(stream: seq<Byte>, L: Layout, me: Coord, cd: nat, image: array<Byte>, ghost prev: seq<seq<Byte>>,
                     ydim: nat, cursor: nat)
    returns (full: bool, next: nat)
    requires L.Valid() && InGrid(L, me.x, me.y) && ydim < L.py
    requires Uniform(prev, RunLength(L, cd, me.x)) && |prev| == Height(L, me.y)
    requires cursor == RunStart(L, cd, Y0(L, ydim), 0) <= |stream|
    requires image[..] == Flatten(WalkedRows(stream, L, me, cd, prev, Y0(L, ydim), 0))
    modifies image
    ensures full <==> RunStart(L, cd, Y0(L, ydim + 1), 0) <= |stream|
    ensures full ==> next == RunStart(L, cd, Y0(L, ydim + 1), 0)
    ensures full ==> image[..] == Flatten(WalkedRows(stream, L, me, cd, prev, Y0(L, ydim + 1), 0))
    ensures !full ==> next == |stream|
    ensures !full ==> image[..] == Flatten(WalkedRows(stream, L, me, cd, prev, L.ysize, 0))
  {
    var ymax := Quot(L.ysize, L.py);
    if ydim < Rem(L.ysize, L.py) {
      ymax := ymax + 1;
    }
    assert ymax == Height(L, ydim);
    next := cursor;
    var ypxlidx := 0;
    while ypxlidx < ymax
      invariant ypxlidx <= ymax
      invariant next == RunStart(L, cd, Y0(L, ydim) + ypxlidx, 0) <= |stream|
      invariant image[..] == Flatten(WalkedRows(stream, L, me, cd, prev, Y0(L, ydim) + ypxlidx, 0))
    {
      full, next := ReadImageRow(stream, L, me, cd, image, prev, ydim, ypxlidx, next);
      if !full {
        StartStep(L.ysize, L.py, ydim);
        RunMono(L, cd, Y0(L, ydim) + ypxlidx + 1, Y0(L, ydim + 1));
        return;
      }
      ypxlidx := ypxlidx + 1;
    }
    StartStep(L.ysize, L.py, ydim);
    full := true;
  }

  /** read_pixels2 for the worker at grid position me, whose tile buffer image has
      xpxl * ypxl * cd bytes (lines 236-264). Returns whether every read was
      complete and where the cursor stopped. */
  method ReadPixels(stream: seq<Byte>, L: Layout, me: Coord, maxval: int, image: array<Byte>)
    returns (ok: bool, cursor: nat)
    requires L.Valid() && InGrid(L, me.x, me.y)
    requires image.Length == Mul(Height(L, me.y), RunLength(L, ColorDepth(maxval), me.x))
    modifies image
    ensures ok <==> BodyLength(L, ColorDepth(maxval)) <= |stream|
    ensures cursor == if ok then BodyLength(L, ColorDepth(maxval)) else |stream|
    ensures image[..] == Ingested(stream, L, me, ColorDepth(maxval), old(image[..]))
  {
    var cd := ColorDepth(maxval);
    ghost var W, H := RunLength(L, cd, me.x), Height(L, me.y);
    ghost var prev := RowsOf(image[..], W, H);
    RowsOfFlatten(image[..], W, H);
    WalkStart(stream, L, me, cd, prev);
    StartEnds(L.ysize, L.py);
    BodyEnd(L, cd);
    cursor := 0;
    ok := true;
    var ydim := 0;
    while ydim < L.py
      invariant ydim <= L.py
      invariant cursor == RunStart(L, cd, Y0(L, ydim), 0) <= |stream|
      invariant image[..] == Flatten(WalkedRows(stream, L, me, cd, prev, Y0(L, ydim), 0))
    {
      ok, cursor := ReadGridRow(stream, L, me, cd, image, prev, ydim, cursor);
      if !ok {
        if ydim + 1 < L.py {
          StartMono(L.ysize, L.py, ydim + 1, L.py);
        }
        RunMono(L, cd, Y0(L, ydim + 1), L.ysize);
        return;
      }
      ydim := ydim + 1;
    }
  }
}
