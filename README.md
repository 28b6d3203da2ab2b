# Distributed image blur — a Dafny model of `MPI/blur.mpi.c`

The program blurs a PGM image with a square kernel on a two-dimensional grid
of MPI processes. It works in five stages:

1. Each worker computes the tile it owns with `identify_thread`. Tiles are
   balanced, and the first `xsize % px` columns and `ysize % py` rows of the
   grid get one extra pixel.
2. Each worker reads its own rows straight from the file with
   `read_pixels2`, and swaps the bytes of the 2-byte samples, which is right
   on a little-endian host (see "Findings").
3. The workers exchange halos with their eight neighbours: four edge
   messages, then four corner messages.
4. Each worker convolves its tile with `blur`. Every kernel term is read from
   the tile, from one of the four halo buffers, or dropped when it falls
   outside the image.
5. For the gather, workers are grouped by tile shape into up to four classes.
   Rank 0 heads every class. Class by class, rank 0 collects the blurred tiles
   with one `MPI_Gatherv` whose receive datatype is a strided vector placed at
   each worker's start index.

The model follows that structure, one module per file:

| module | file | what it holds |
|---|---|---|
| `Arith` | arith.dfy | explicit product, quotient and remainder facts the other proofs use |
| `Partition` | partition.dfy | `identify_thread`, the per-axis split, and the tiling of the image |
| `Rows` | rows.dfy | a row-major buffer seen as its rows |
| `Topology` | topology.dfy | Cartesian ranks and coordinates, `MPI_Cart_shift`, corner peers |
| `Swap` | swap.dfy | the `swap` macro, byte order, `swap_image` on an array |
| `Ingest` | ingest.dfy | the `read_pixels2` walk over the byte stream of the file, on an array |
| `Load` | load.dfy | the loading stage of `main`: the tile after `read_pixels2` and `swap_image` is the worker's part of the file's image |
| `Halo` | halo.dfy | the effect of the halo exchange on each receiver's buffers |
| `Blur` | blur.dfy | index resolution of `blur`, its accumulation loops, and the theorem that it computes the zero-padded convolution of the global image |
| `Classes` | classes.dfy | the class building of `main`, on arrays as the source does it |
| `Assembly` | assembly.dfy | the gather of the classes into the final image, and the theorem that it holds the global convolution |
| `Pipeline` | pipeline.dfy | the chain from the file's bytes to the final image |

How the model is represented:

- Samples are words (`Word`, 0..65535) and bytes (`Byte`).
- Kernel weights are integers, and a blurred pixel is the weighted sum
  `xxyy` (see "Left out").
- The file is a byte sequence.
- An MPI message is the sequence of samples its datatype selects.
- A receive is the overwrite that `MPI_Recv` or `MPI_Gatherv` performs on the
  receiving buffer.

The end-to-end result is `Assembly.BlurredImage`, which relies on two
earlier results:

- `Blur.BlurIsGlobal`: after the halo exchange, what `blur` computes on any
  worker is the zero-padded convolution of the whole image over that
  worker's tile.
- `Assembly.Assemble`: the gather puts every tile at its place.

Together they give `Assembly.BlurredImage`: if every worker starts from its
part of the image, the image rank 0 assembles, with the class shape that
`Assembly.Assemble` uses (see "Findings"), is the zero-padded convolution of
the whole image. `Load.FileHolds` shows that the tiles `read_pixels2` and
`swap_image` leave on a little-endian host are those parts of the image the
file holds, and `Pipeline.FileBlurred` chains the two, from the file's bytes
to the final image.

## Model

| member | source | states |
|---|---|---|
| Partition.LengthBalanced | MPI/blur.mpi.c:112-116 | every tile length along an axis is n / p or n / p + 1; it is the longer one exactly when the index is below n % p; lengths never grow with the index |
| Partition.StartFormulaIsStart | MPI/blur.mpi.c:124-128 | the closed form for start_x and start_y (index times n / p, plus the number of longer tiles before it) equals the sum of the lengths of the tiles before it |
| Partition.StartMono | MPI/blur.mpi.c:124-128 | a tile ends no later than any later tile starts, so tiles along an axis never overlap |
| Partition.StartEnds | MPI/blur.mpi.c:124-128 | the first tile starts at 0 and the last one ends at the image border |
| Partition.Adjacent | MPI/blur.mpi.c:112-128 | neighbouring tiles touch: each tile starts where the previous one ends |
| Partition.IdentifyThreadPlacesTile | MPI/blur.mpi.c:104-133 | start_idx is the flat index of the tile's first pixel; start_y divided by xsize gives back the first row; the tile lies inside the image |
| Partition.OwnerUnique | MPI/blur.mpi.c:112-128 | no pixel of an axis lies in two tiles; the tile that holds it is unique |
| Partition.TilesCoverOnce | MPI/blur.mpi.c:104-133 | a local position of a tile, placed at start_idx with row stride xsize, is a pixel of the image; every pixel is reached from exactly one tile and one local position |
| Partition.Locate | MPI/blur.mpi.c:104-133 | every pixel of the image lies in some tile at some local position |
| Partition.LocateSplits | MPI/blur.mpi.c:124-131 | the pixel at flat index p is at column X0 + c and row Y0 + r, where (r, c) is its local position |
| Topology.RankCoords | MPI/blur.mpi.c:422 | grid ranks and coordinates are in one-to-one correspondence (row-major, the second coordinate fastest) |
| Topology.PeersMatch | MPI/blur.mpi.c:607-673 | b is a's destination in MPI_Cart_shift, or in the corner loop, exactly when a is b's source, so every send has a matching receive |
| Swap.Swap | MPI/blur.mpi.c:21-22 | the macro, with the sign-extended mask of `(short int)0xff00`, exchanges the low and high byte of a word |
| Swap.SwapInvolution | MPI/blur.mpi.c:21-22 | swapping twice gives the word back |
| Swap.SwapHostWord | MPI/blur.mpi.c:21-22 | swapping a word read on a little-endian host gives the big-endian sample of the file |
| Swap.SwapImage | MPI/blur.mpi.c:285-304 | when maxval > 255, the first xsize * ysize words are swapped in place; otherwise the buffer is unchanged |
| Swap.SwapHostWords | MPI/blur.mpi.c:285-304 | swapping every word of a buffer read on a little-endian host gives the file's samples |
| Swap.SwapPrefixTwice | MPI/blur.mpi.c:285-304 | swapping the same prefix twice restores the buffer |
| Ingest.RunOrder | MPI/blur.mpi.c:238-263 | the walk reads runs (image row, grid column) in order, and each run ends no later than any later run starts |
| Ingest.RunWrap | MPI/blur.mpi.c:238-263 | the position after the last grid column of an image row is where the first run of the next row starts |
| Ingest.BodyEnd | MPI/blur.mpi.c:238-263 | the walk's position after the last image row is exactly the body length, xsize * ysize * color_depth bytes |
| Ingest.CopyRun | MPI/blur.mpi.c:255-257 | the xmax * color_depth bytes of `line` replace row ypxlidx of the tile buffer, and nothing else changes |
| Ingest.StoreRun | MPI/blur.mpi.c:252-258 | storing the owner's complete run advances the tile buffer by one step of the walk |
| Ingest.WalkOther | MPI/blur.mpi.c:252-258 | a run of another worker is read and dropped, leaving the tile buffer unchanged |
| Ingest.WalkRest | MPI/blur.mpi.c:259-262 | once a read falls short, no later run fits either, so the tile already has its final contents |
| Ingest.ReadRun | MPI/blur.mpi.c:243-261 | a run is complete exactly when it fits in the stream; if so, the cursor advances by its length and the buffer by one step; otherwise the walk stops |
| Ingest.ReadImageRow | MPI/blur.mpi.c:242-262 | the walk over the grid columns of one image row, with the same complete-or-stop outcome |
| Ingest.ReadGridRow | MPI/blur.mpi.c:240-263 | the walk over the image rows of one grid row, with the same complete-or-stop outcome |
| Ingest.ReadPixels | MPI/blur.mpi.c:214-266 | read_pixels2 succeeds exactly when the stream holds the whole body; the cursor ends at the body's length or at the end of the stream; the tile buffer is the walk's result |
| Ingest.IngestedRowAt | MPI/blur.mpi.c:238-263 | row r of the tile is the owner's run of image row Y0 + r when that run fits in the stream, and its old contents otherwise |
| Ingest.IngestedFromFullStream | MPI/blur.mpi.c:238-263 | on a stream holding the whole body, every row of the tile is the file's copy of its image row |
| Ingest.IngestedByteAt | MPI/blur.mpi.c:252-257 | on a full stream, byte j of tile row r is byte j of the run of image row Y0 + r, at stream offset ((Y0 + r) * xsize + X0) * cd + j |
| Swap.SwapHostWordsAt | MPI/blur.mpi.c:285-304 | word k of a buffer read on a little-endian host, once swapped, is the file's sample of bytes 2k and 2k + 1 |
| Swap.SourceLoadedLittleEndian | MPI/blur.mpi.c:19-22 | on a little-endian host, reading the buffer and swapping every word, as main does, gives the file's samples |
| Swap.SourceBigEndianGarbles | MPI/blur.mpi.c:19-22 | the host test of line 19 is constant, so a big-endian host swaps as well: the sample 0x0100 becomes 0x0001 |
| Swap.LoadedWordsAreFile | MPI/blur.mpi.c:19-22 | swapping only on a little-endian host gives the file's samples on either host |
| Load.FileImageAt | MPI/blur.mpi.c:534-535 | sample (x, y) of the file's image is the big-endian word of stream bytes 2 (y * xsize + x) and the one after |
| Load.LoadedBytesAt | MPI/blur.mpi.c:252-257 | the two bytes of word k = r * xpxl + c of the tile read from a full stream are stream bytes 2P and 2P + 1, for image pixel P = (Y0 + r) * xsize + X0 + c |
| Load.LoadIndices | MPI/blur.mpi.c:252-257 | word k = r * xpxl + c of the tile sits at bytes 2k and 2k + 1 of the buffer, which come from stream bytes 2P and 2P + 1 for image pixel P = (Y0 + r) * xsize + X0 + c |
| Load.LoadedAt | MPI/blur.mpi.c:519-535 | local sample (c, r) of the tile after read_pixels2 and swap_image is the file's sample at image position (X0 + c, Y0 + r) |
| Load.LoadedMatchesTile | MPI/blur.mpi.c:519-535 | word r * xpxl + c of the loaded tile and of the worker's tile of the file's image are the same sample of the file |
| Load.LoadedWordIsTile | MPI/blur.mpi.c:519-535 | each word of the loaded tile is the same word of the worker's tile of the file's image |
| Load.LoadedIsTile | MPI/blur.mpi.c:519-535 | on a stream holding the whole body, the loaded tile is the worker's tile of the file's image |
| Load.FileHolds | MPI/blur.mpi.c:519-535 | when every worker has loaded its tile from the same full stream, the tiles are the file's image cut into tiles, the starting point of the halo exchange |
| Halo.VectorAt | MPI/blur.mpi.c:614-620 | element c of block m of an MPI_Type_vector message is the sample m * stride + c past the start |
| Halo.ZerosAt | MPI/blur.mpi.c:596-599 | the halo buffers start as zeros (calloc) |
| Halo.DeliverAt | MPI/blur.mpi.c:628-637 | a received message overwrites exactly the samples from its offset on, and the rest of the buffer is unchanged |
| Halo.HaloUpAt | MPI/blur.mpi.c:626-644 | row t of halo[UP] is image row Y0 - khalf + t over the tile's columns, or zeros above the image |
| Halo.HaloDownAt | MPI/blur.mpi.c:629-647 | row t of halo[DOWN] is image row Y0 + ypxl + t over the tile's columns, or zeros below the image |
| Halo.SideEdgeBand | MPI/blur.mpi.c:632-653 | row m of the middle band of halo[RIGHT] or halo[LEFT] is row Y0 + m of the khalf image columns beside the tile, or zeros past the image border |
| Halo.SideHeadRow | MPI/blur.mpi.c:661-718 | a row of the head band of a side halo is the khalf x khalf image block diagonally above the tile, or zeros outside the image |
| Halo.SideTailRow | MPI/blur.mpi.c:661-718 | a row of the tail band of a side halo is the khalf x khalf image block diagonally below the tile, or zeros outside the image |
| Halo.SideCornerKeeps | MPI/blur.mpi.c:686-700 | a corner receive writes only its own band of the side halo |
| Halo.ExchangeFillsUp | MPI/blur.mpi.c:604-718 | after the exchange, halo[UP] holds the khalf image rows just above the tile, zero-padded |
| Halo.ExchangeFillsDown | MPI/blur.mpi.c:604-718 | after the exchange, halo[DOWN] holds the khalf image rows just below the tile, zero-padded |
| Halo.ExchangeFillsSide | MPI/blur.mpi.c:604-718 | after the exchange, halo[RIGHT] and halo[LEFT] hold the khalf image columns beside the tile, with the corner blocks, zero-padded |
| Blur.Resolve | MPI/blur.mpi.c:338-355 | exactly one outcome per term: dropped when the offset position is outside the image; else from the tile when inside it; else RIGHT or LEFT when the column leaves the tile; else UP or DOWN |
| Blur.ResolveInBounds | MPI/blur.mpi.c:340-355 | every index read is inside its buffer: the tile, (ypxl + 2 khalf) * khalf for a side halo, xpxl * khalf for UP and DOWN |
| Blur.DiagonalReadsCorner | MPI/blur.mpi.c:343-348 | a diagonal offset is read from a side halo, in its head or tail band, which the corner exchange fills |
| Blur.KernelInBounds | MPI/blur.mpi.c:335-342 | kernel[khalfsize + yks][khalfsize + xks] is inside the ksize x ksize kernel |
| Blur.AccumulatePixel | MPI/blur.mpi.c:334-359 | the two kernel loops compute the sum of the weighted terms of the pixel, and every read is where Resolve says |
| Blur.BlurTile | MPI/blur.mpi.c:313-367 | the value stored at yy * xpxl + xx is the accumulated value of pixel (xx, yy), for every pixel of the tile |
| Blur.PlacementFrame | MPI/blur.mpi.c:519-730 | the arguments main passes to blur, with start_y divided by xsize (line 323), are the worker's tile |
| Blur.ReadIsGlobal | MPI/blur.mpi.c:338-355 | on delivered buffers, every sample read is the image pixel at the offset position, and a dropped term stands for a zero outside the image |
| Blur.BlurredIsGlobal | MPI/blur.mpi.c:313-367 | when the reads agree with the image, blur's result is the zero-padded convolution of the image over the tile |
| Blur.BlurIsGlobal | MPI/blur.mpi.c:594-730 | when every tile is its part of the image, blur on any worker after the halo exchange computes the global convolution over its tile |
| Classes.BuildClasses | MPI/blur.mpi.c:759-807 | the number of classes and the lists cases_thid that the arrays cases_counter and cases_long_array produce are Cases and ClassLists |
| Classes.Classify | MPI/blur.mpi.c:770-798 | after the walk over ranks 1 to nths - 1, the arrays hold, for each class, rank 0 followed by the ranks of that class in increasing order |
| Classes.CopyOut | MPI/blur.mpi.c:802-807 | each list is copied out of its row at its own length |
| Classes.ClassBranches | MPI/blur.mpi.c:772-797 | the branches pick exactly one list per rank: 3 when smaller on both axes; 1 when smaller on one axis with two classes; otherwise 1 for narrower, 2 for shorter, 0 for worker 0's shape |
| Classes.ListsStep | MPI/blur.mpi.c:770-798 | filing rank i appends it to the list of its class and leaves the other lists unchanged |
| Classes.ClassListsPartition | MPI/blur.mpi.c:764-798 | rank 0 heads every list, and every rank i >= 1 occurs exactly once in exactly one list, the list of its class |
| Classes.ClassIsShape | MPI/blur.mpi.c:770-797 | two ranks are in the same class exactly when their tiles have the same shape, and class 0 is exactly the ranks shaped like worker 0 |
| Classes.GatheredFromGrid | MPI/blur.mpi.c:759-761 | the gathered sizes come from the grid; cases is 4 exactly when both axes are cut unevenly and 1 exactly when neither is (2 otherwise) |
| Classes.ListMembers | MPI/blur.mpi.c:764-798 | a rank is in list g exactly when it is rank 0 or a worker of class g |
| Classes.ClassShapeOf | MPI/blur.mpi.c:770-797 | every worker, rank 0 included, has the shape of its class; no class is wider or taller than worker 0's tile |
| Assembly.BlockInTile | MPI/blur.mpi.c:860-865 | the resized vector datatype at a tile's start_idx, with w and h no larger than the tile, covers exactly the first h rows and w columns of that tile, and puts there message word r * w + c at local position (r, c) |
| Assembly.AssembledAt | MPI/blur.mpi.c:857-884 | in the assembled image, local position (r, c) of worker o's tile is pixel start_idx + r * xsize + c, holding element r * xpxl + c of o's result |
| Assembly.GatherClass | MPI/blur.mpi.c:875-884 | an MPI_Gatherv with displacements start_idx of the members sets each member's covered pixels to its message words and leaves every other pixel unchanged |
| Assembly.ClassSettles | MPI/blur.mpi.c:857-884 | gathering class g keeps the pixels already final, and makes final those of class g; class 0, gathered last, also makes rank 0's pixels final |
| Assembly.Assemble | MPI/blur.mpi.c:835-884 | building the classes and gathering them from the last down to class 0 into the zeroed image yields every tile at its place |
| Assembly.SourceShapeAgrees | MPI/blur.mpi.c:860 | the shape read from cases_thid[g][1] is missing exactly when class g has no worker other than rank 0; where it exists it equals the class shape |
| Assembly.SingleProcessReadsPastList | MPI/blur.mpi.c:860 | with one process the only list is rank 0 alone, so cases_thid[0][1] is read past the list |
| Assembly.PixelIsGlobal | MPI/blur.mpi.c:730-884 | every pixel of the assembled image is the kernel sum of the global image around it |
| Assembly.AllBlurredSized | MPI/blur.mpi.c:329 | every worker's blur result has its tile's size |
| Assembly.BlurredImage | MPI/blur.mpi.c:594-884 | the image rank 0 assembles from every worker's blur, with the class shape of Assemble (see Findings), is the zero-padded convolution of the whole image |
| Pipeline.FileBlurred | MPI/blur.mpi.c:519-884 | from a stream holding the whole 2-byte body, the image rank 0 assembles after loading, halo exchange, blur and gather is the zero-padded convolution of the file's image |
| Assembly.TwoWorkersReadsPastList | MPI/blur.mpi.c:860 | with two workers and an odd split, the lists are [0] and [0, 1], so the read of cases_thid[0][1] falls past the first |
| Assembly.FiveByFourReadsPastList | MPI/blur.mpi.c:860 | on a 5 x 4 image and a 2 x 1 grid the widths are 3 and 2, the lists are [0] and [0, 1], and the read of line 860 for class 0 falls past its list |

## Left out

- MPI itself is left out: processes, blocking, message matching, tags,
  barriers, and the creation and freeing of communicators, groups and
  datatypes. Each exchange is modelled by the effect its message has on the
  receiver. Deadlock freedom is not modelled.
- Grid ranks are taken to be world ranks. `MPI_Cart_create` is called with
  reorder set to 1 (line 411). The class lists hold grid ranks but are used
  as world ranks in `MPI_Group_incl` (line 828).
- `MPI_Gatherv` does not fix the order in which messages arrive. The model
  receives the members in list order. Their blocks are disjoint, so the order
  does not change the result.
- The kernel set-up (lines 550-590) is left out because it builds float
  kernels, so kernel weights are integers. knorm and the floating-point
  accumulation are left out as well.
- Blur.BlurTile: stores the raw weighted sum `xxyy` and not
  `round(xxyy / knorm)` (line 360), because that step is floating point. The
  store into the signed short `sImage` is not modelled either.
- Blur.BlurTile: the dead `idx++` (line 361) and the unused `_maxval`
  (line 330) have no counterpart.
- Integer widths are left out of the index arithmetic. The source computes
  `start_y * xsize` and `start_x + start_y` in signed `int` (lines 130-131),
  the buffer sizes in `unsigned int` (lines 224 and 299), and passes `int`
  displacements to `MPI_Gatherv` (line 879). The model's integers are
  unbounded, so every partition, ingest, load and assembly result holds only
  for images whose byte offsets fit: `xsize * ysize * 2 < 2^31`. Beyond that,
  the signed products overflow, which C leaves undefined.
- `Assembly.GatherClass` and `Assembly.Assemble` keep the output buffer as a
  sequence that the loop reassigns, not as an array updated in place, so the
  model does not capture aliasing of that buffer.
- The 1-byte path is left out of loading (`Load`), blur, the halo exchange
  and the gather. These stages always treat samples as unsigned shorts.
  `Ingest.ReadPixels` and `Swap.SwapImage` do model both colour depths.
- `Load` states the loading stage on values. `Load.LoadedTile` composes
  `Ingest.Ingested` and `Swap.SwapPrefix`, the functions that specify the
  `ReadPixels` and `SwapImage` methods. The byte buffer that `main` hands on
  as `void *` and uses as unsigned shorts is read through `Swap.HostWords`.
  Only a little-endian host is modelled. The test at line 19 does not depend
  on the host, so `main` swaps at lines 535-536 and 898-899 on every host; on a
  big-endian host the samples would be wrong (see "Findings").
- Command-line parsing, header reading, `write_pgm_image`, the timers and
  the final `swap_image` before writing (line 899) are left out. The swap's
  effect is covered by `Swap.SwapPrefixTwice`, but it is not composed into the
  written file.
- The `malloc` failure branch of `read_pixels2` (lines 226-232) is left out.
  A short `fread` is modelled as the walk stopping (`ok` false); the early
  return without `fclose` is not.
- The `line` buffer of `read_pixels2` (line 250) is never freed. Memory is
  not modelled, so the leak is out of scope.
- The halo exchange takes as a precondition (`Halo.HaloFits`) that khalf is
  at most xsize / px when px > 1, and at most ysize / py when py > 1. The
  sends index `ypxl - khalfsize` and `xpxl - khalfsize` and need it; the
  program does not check it.
- Assembly.Assemble: uses the class shape (`Classes.ClassShape`) where line
  860 reads `cases_thid[g][1]`. The two agree whenever the source's read is
  inside the list (`Assembly.SourceShapeAgrees`). See "Findings".

## Findings

| source | as written | input that shows it | evidently intended | confidence | as-written member | corrected member |
|---|---|---|---|---|---|---|
| MPI/blur.mpi.c:860 | the shape of class g is read from `cases_thid[g][1]`, the list's second entry, also on line 884 | one process (`mpirun -np 1`): the only list is `[0]`, allocated with one entry, so entry 1 is read past its end; the same happens for any class with no worker besides rank 0, e.g. a 5 x 4 image on a 2 x 1 grid, where class 0 is `[0]` | the class's own tile shape, which every member shares | not executed | Assembly.SingleProcessReadsPastList | Assembly.SourceShapeAgrees |
| MPI/blur.mpi.c:19 | `#if ((0x100 & 0xf) == 0x0)` chooses the byte-exchanging `swap` and sets `I_M_LITTLE_ENDIAN` to 1; the expression is a preprocessor constant that holds on every host, so `swap_image` runs at lines 535-536 and 898-899 whatever the host | a big-endian host reading the sample 0x0100 (bytes 1, 0) gets 0x0100, and the swap turns it into 0x0001 | a test of the host's byte order, so that only a little-endian host swaps | not executed | Swap.SourceBigEndianGarbles | Swap.LoadedWordsAreFile |
