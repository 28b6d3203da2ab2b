/** The Cartesian process grid: how grid ranks map to coordinates, and which
    workers MPI_Cart_shift and the corner arithmetic of main pair up. */
module Topology {
  import opened Arith
  import opened Partition

  /** A grid position: x is the coordinate along dimension 0 (xyth[0]), y along
      dimension 1 (xyth[1]). */
  datatype Coord = Coord(x: nat, y: nat)

  /** A neighbour, or None for MPI_PROC_NULL. */
  datatype Option<T> = None | Some(value: T)

  predicate InGrid(L: Layout, x: int, y: int) {
    0 <= x < L.px && 0 <= y < L.py
  }

  /** Rank of a grid position in the Cartesian communicator: ranks are in
      row-major order, the last dimension varying fastest. */
  function Rank(L: Layout, c: Coord): nat
    requires L.Valid()
  {
    Mul(c.x, L.py) + c.y
  }

  /** MPI_Cart_coords: the grid position of a rank. */
  function CoordsOf(L: Layout, rank: nat): Coord
    requires L.Valid()
  {
    Coord(Quot(rank, L.py), Rem(rank, L.py))
  }

  /** Ranks and grid positions are in one-to-one correspondence. */
  lemma {:induction false} RankCoords(L: Layout, c: Coord, rank: nat)
    requires L.Valid()
    ensures InGrid(L, c.x, c.y) ==> Rank(L, c) < Mul(L.px, L.py) && CoordsOf(L, Rank(L, c)) == c
    ensures rank < Mul(L.px, L.py) ==>
              InGrid(L, CoordsOf(L, rank).x, CoordsOf(L, rank).y) && Rank(L, CoordsOf(L, rank)) == rank
  {
    if InGrid(L, c.x, c.y) {
      FlatBound(c.x, c.y, L.py, L.px);
      FlatSplit(c.x, c.y, L.py);
    }
    if rank < Mul(L.px, L.py) {
      FlatInRange(rank, L.py, L.px);
    }
  }

  /** The worker at offset (dx, dy) from c, if that position is in the
      (non-periodic) grid. */
  function Offset(L: Layout, c: Coord, dx: int, dy: int): (o: Option<Coord>)
    ensures o.Some? ==> InGrid(L, o.value.x, o.value.y)
  {
    if InGrid(L, c.x + dx, c.y + dy) then Some(Coord(c.x + dx, c.y + dy)) else None
  }

  /** MPI_Cart_shift(dir, disp) on a non-periodic grid: (source, dest), the source
      at coordinate - disp and the destination at coordinate + disp along dir. */
  function CartShift(L: Layout, c: Coord, dir: nat, disp: int): (Option<Coord>, Option<Coord>)
    requires dir < 2
  {
    if dir == 0 then (Offset(L, c, -disp, 0), Offset(L, c, disp, 0))
    else (Offset(L, c, 0, -disp), Offset(L, c, 0, disp))
  }

  /** The corner exchange (lines 661-671): the source at -(deltax, deltay) and the
      destination at +(deltax, deltay), each checked against the grid bounds. */
  function CornerPeers(L: Layout, c: Coord, deltax: int, deltay: int): (Option<Coord>, Option<Coord>)
  {
    (Offset(L, c, -deltax, -deltay), Offset(L, c, deltax, deltay))
  }

  /** Every send has a matching receive: in the same iteration (same dir and disp,
      or the same deltax and deltay) a is b's source exactly when b is a's
      destination. */
  lemma {:induction false} PeersMatch(L: Layout, a: Coord, b: Coord, dir: nat, disp: int, deltax: int, deltay: int)
    requires L.Valid() && dir < 2
    requires InGrid(L, a.x, a.y) && InGrid(L, b.x, b.y)
    ensures CartShift(L, a, dir, disp).1 == Some(b) <==> CartShift(L, b, dir, disp).0 == Some(a)
    ensures CornerPeers(L, a, deltax, deltay).1 == Some(b) <==> CornerPeers(L, b, deltax, deltay).0 == Some(a)
  {
  }
}
