/** The loading stage of main (lines 519-535): each worker reads its tile of
    2-byte samples with read_pixels2, and swaps the xpxl * ypxl words of the
    buffer with swap_image. This is the stage on a little-endian host, where
    the swap is right. The buffer read as bytes is
    then used in place as unsigned shorts; HostWords is that reading. The image
    the later stages blur is the body of the file, in the file's byte order. */
module Load {
  import opened Arith
  import opened Rows
  import opened Partition
  import opened Topology
  import opened Swap
  import opened Ingest
  import opened Halo

  /** The image the file's body stands for: its xsize * ysize samples, each two
      bytes with the most significant first. */
  function FileImage(stream: seq<Byte>, L: Layout): (G: seq<Word>)
    requires L.Valid() && BodyLength(L, 2) <= |stream|
    ensures IsImage(G, L)
  {
    FileWords(stream[..BodyLength(L, 2)])
  }

  /** The tile of the worker at me after read_pixels2 and swap_image, given the
      uninitialised contents prev of the buffer malloc returned. */
  function LoadedTile(stream: seq<Byte>, L: Layout, me: Coord, prev: seq<Byte>): (t: seq<Word>)
    requires L.Valid() && InGrid(L, me.x, me.y)
    requires |prev| == Mul(Height(L, me.y), RunLength(L, 2, me.x))
  {
    SwapPrefix(HostWords(Ingested(stream, L, me, 2, prev)), Mul(Width(L, me.x), Height(L, me.y)))
  }

  /** Byte j of row r of the tile read from a full stream is stream byte
      RunStart + j of that row's run. */
  lemma {:induction false} IngestedByteAt(stream: seq<Byte>, L: Layout, me: Coord, cd: nat, prev: seq<Byte>,
                                          r: nat, j: nat, q: nat)
    requires L.Valid() && InGrid(L, me.x, me.y)
    requires |prev| == Mul(Height(L, me.y), RunLength(L, cd, me.x))
    requires BodyLength(L, cd) <= |stream|
    requires r < Height(L, me.y) && j < RunLength(L, cd, me.x)
    requires q == Mul(r, RunLength(L, cd, me.x)) + j
    ensures q < |Ingested(stream, L, me, cd, prev)| && RunStart(L, cd, Y0(L, me.y) + r, me.x) + j < |stream|
    ensures Ingested(stream, L, me, cd, prev)[q] == stream[RunStart(L, cd, Y0(L, me.y) + r, me.x) + j]
  {
    var rows := IngestedRows(stream, L, me, cd, prev);
    FlattenAt(rows, RunLength(L, cd, me.x), r, j);
    IngestedFromFullStream(stream, L, me, cd, prev, r);
  }

  /** Sample (x, y) of the file's image is the sample of the two bytes at
      2 * (y * xsize + x). */
  lemma {:induction false} FileImageAt(stream: seq<Byte>, L: Layout, x: nat, y: nat, P: nat)
    requires L.Valid() && BodyLength(L, 2) <= |stream|
    requires x < L.xsize && y < L.ysize && P == Mul(y, L.xsize) + x
    ensures 2 * P + 1 < |stream|
    ensures Extended(FileImage(stream, L), L, x, y) == FileWord(stream[2 * P], stream[2 * P + 1])
  {
    FlatBound(y, x, L.xsize, L.ysize);
    var body := stream[..BodyLength(L, 2)];
    assert body[2 * P] == stream[2 * P] && body[2 * P + 1] == stream[2 * P + 1];
  }

  /** The positions LoadedAt relates: word k of the tile is the word at bytes
      2k and 2k + 1 of the buffer, which hold bytes 2P and 2P + 1 of the stream. */
  lemma {:induction false} LoadIndices(L: Layout, me: Coord, r: nat, c: nat, k: nat, P: nat)
    requires L.Valid() && InGrid(L, me.x, me.y)
    requires r < Height(L, me.y) && c < Width(L, me.x)
    requires k == Mul(r, Width(L, me.x)) + c && P == Mul(Y0(L, me.y) + r, L.xsize) + X0(L, me.x) + c
    ensures k < Mul(Width(L, me.x), Height(L, me.y))
    ensures 2 * k == Mul(r, RunLength(L, 2, me.x)) + 2 * c
    ensures RunStart(L, 2, Y0(L, me.y) + r, me.x) + 2 * c == 2 * P
    ensures X0(L, me.x) + c < L.xsize && Y0(L, me.y) + r < L.ysize
  {
    FlatBound(r, c, Width(L, me.x), Height(L, me.y));
    MulComm(Width(L, me.x), Height(L, me.y));
    MulAssoc(r, Width(L, me.x), 2);
    TileInside(L, me.x, me.y);
  }

  /** The two bytes of word k = r * xpxl + c of the tile read from a full stream
      are stream bytes 2P and 2P + 1, where P = (Y0 + r) * xsize + X0 + c. */
  lemma {:induction false} LoadedBytesAt(stream: seq<Byte>, L: Layout, me: Coord, prev: seq<Byte>,
                                         r: nat, c: nat, k: nat, P: nat)
    requires L.Valid() && InGrid(L, me.x, me.y)
    requires |prev| == Mul(Height(L, me.y), RunLength(L, 2, me.x))
    requires BodyLength(L, 2) <= |stream|
    requires r < Height(L, me.y) && c < Width(L, me.x)
    requires k == Mul(r, Width(L, me.x)) + c && P == Mul(Y0(L, me.y) + r, L.xsize) + X0(L, me.x) + c
    ensures 2 * k + 1 < |Ingested(stream, L, me, 2, prev)| && 2 * P + 1 < |stream|
    ensures Ingested(stream, L, me, 2, prev)[2 * k] == stream[2 * P]
    ensures Ingested(stream, L, me, 2, prev)[2 * k + 1] == stream[2 * P + 1]
  {
    LoadIndices(L, me, r, c, k, P);
    IngestedByteAt(stream, L, me, 2, prev, r, 2 * c, 2 * k);
    IngestedByteAt(stream, L, me, 2, prev, r, 2 * c + 1, 2 * k + 1);
  }

  /** Local sample (c, r) of the loaded tile is the file's sample at image
      position (X0 + c, Y0 + r). */
  lemma {:induction false} LoadedAt(stream: seq<Byte>, L: Layout, me: Coord, prev: seq<Byte>, r: nat, c: nat)
    requires L.Valid() && InGrid(L, me.x, me.y)
    requires |prev| == Mul(Height(L, me.y), RunLength(L, 2, me.x))
    requires BodyLength(L, 2) <= |stream|
    requires r < Height(L, me.y) && c < Width(L, me.x)
    ensures Mul(r, Width(L, me.x)) + c < |LoadedTile(stream, L, me, prev)|
    ensures LoadedTile(stream, L, me, prev)[Mul(r, Width(L, me.x)) + c] ==
              Extended(FileImage(stream, L), L, X0(L, me.x) + c, Y0(L, me.y) + r)
  {
    var bytes := Ingested(stream, L, me, 2, prev);
    var k := Mul(r, Width(L, me.x)) + c;
    var y, x := Y0(L, me.y) + r, X0(L, me.x) + c;
    var P := Mul(y, L.xsize) + x;
    LoadIndices(L, me, r, c, k, P);
    LoadedBytesAt(stream, L, me, prev, r, c, k, P);
    FileImageAt(stream, L, x, y, P);
    SwapHostWordsAt(bytes, Mul(Width(L, me.x), Height(L, me.y)), k);
  }

  /** Word k = r * xpxl + c of the loaded tile and of the worker's tile of the
      file's image are both the file's sample at (X0 + c, Y0 + r). */
  lemma {:induction false} LoadedMatchesTile(stream: seq<Byte>, L: Layout, me: Coord, prev: seq<Byte>,
                                             r: nat, c: nat, k: nat)
    requires L.Valid() && InGrid(L, me.x, me.y)
    requires |prev| == Mul(Height(L, me.y), RunLength(L, 2, me.x))
    requires BodyLength(L, 2) <= |stream|
    requires r < Height(L, me.y) && c < Width(L, me.x) && k == Mul(r, Width(L, me.x)) + c
    ensures k < |LoadedTile(stream, L, me, prev)| && k < Mul(Height(L, me.y), Width(L, me.x))
    ensures LoadedTile(stream, L, me, prev)[k] == Tile(FileImage(stream, L), L, me.x, me.y)[k]
  {
    LoadedAt(stream, L, me, prev, r, c);
    TileAt(FileImage(stream, L), L, me.x, me.y, r, c);
  }

  /** Word k of the loaded tile is word k of the worker's tile of the file's image. */
  lemma {:induction false} LoadedWordIsTile(stream: seq<Byte>, L: Layout, me: Coord, prev: seq<Byte>, k: nat)
    requires L.Valid() && InGrid(L, me.x, me.y)
    requires |prev| == Mul(Height(L, me.y), RunLength(L, 2, me.x))
    requires BodyLength(L, 2) <= |stream|
    requires k < Mul(Height(L, me.y), Width(L, me.x))
    ensures k < |LoadedTile(stream, L, me, prev)|
    ensures LoadedTile(stream, L, me, prev)[k] == Tile(FileImage(stream, L), L, me.x, me.y)[k]
  {
    FlatInRange(k, Width(L, me.x), Height(L, me.y));
    LoadedMatchesTile(stream, L, me, prev, Quot(k, Width(L, me.x)), Rem(k, Width(L, me.x)), k);
  }

  /** On a stream holding the whole body, the loaded tile is the worker's tile of
      the file's image. */
  lemma {:induction false} LoadedIsTile(stream: seq<Byte>, L: Layout, me: Coord, prev: seq<Byte>)
    requires L.Valid() && InGrid(L, me.x, me.y)
    requires |prev| == Mul(Height(L, me.y), RunLength(L, 2, me.x))
    requires BodyLength(L, 2) <= |stream|
    ensures LoadedTile(stream, L, me, prev) == Tile(FileImage(stream, L), L, me.x, me.y)
  {
    var t := LoadedTile(stream, L, me, prev);
    var u := Tile(FileImage(stream, L), L, me.x, me.y);
    MulComm(Width(L, me.x), Height(L, me.y));
    MulAssoc(Height(L, me.y), Width(L, me.x), 2);
    assert |t| == |u|;
    forall k | 0 <= k < |t| ensures t[k] == u[k] {
      LoadedWordIsTile(stream, L, me, prev, k);
    }
  }

  /** Every worker's tile came from read_pixels2 and swap_image on the same
      stream; prevs holds each buffer's uninitialised contents. */
  predicate AllLoaded(stream: seq<Byte>, L: Layout, prevs: seq<seq<Byte>>, tiles: seq<seq<Word>>)
    requires L.Valid()
  {
    |tiles| == Mul(L.px, L.py) && |prevs| == |tiles| &&
    forall r :: 0 <= r < |tiles| ==>
      (RankCoords(L, Coord(0, 0), r);
       |prevs[r]| == Mul(Height(L, CoordsOf(L, r).y), RunLength(L, 2, CoordsOf(L, r).x)) &&
       tiles[r] == LoadedTile(stream, L, CoordsOf(L, r), prevs[r]))
  }

  /** On a stream holding the whole body, the loaded tiles are the file's image
      cut into tiles, which is what the halo exchange and blur start from. */
  lemma {:induction false} FileHolds(stream: seq<Byte>, L: Layout, prevs: seq<seq<Byte>>, tiles: seq<seq<Word>>)
    requires L.Valid() && BodyLength(L, 2) <= |stream|
    requires AllLoaded(stream, L, prevs, tiles)
    ensures Holds(FileImage(stream, L), L, tiles)
  {
    var G := FileImage(stream, L);
    forall r | 0 <= r < |tiles|
      ensures |tiles[r]| == Mul(Height(L, CoordsOf(L, r).y), Width(L, CoordsOf(L, r).x))
      ensures InGrid(L, CoordsOf(L, r).x, CoordsOf(L, r).y) ==>
                tiles[r] == Tile(G, L, CoordsOf(L, r).x, CoordsOf(L, r).y)
    {
      RankCoords(L, Coord(0, 0), r);
      LoadedIsTile(stream, L, CoordsOf(L, r), prevs[r]);
    }
  }
}
