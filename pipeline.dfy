/** The whole program on one image: the loading stage, the halo exchange,
    blur and the gather, chained from the bytes of the file to the final image. */
module Pipeline {
  import opened Partition
  import opened Swap
  import opened Ingest
  import opened Load
  import opened Halo
  import opened Blur
  import opened Assembly

  /** From the file to the final image: when every worker loads its tile with
      read_pixels2 and swap_image from a stream holding the whole body, and the
      results are those of blur after the halo exchange, the image rank 0
      assembles is the zero-padded convolution of the image the file holds.
      Shaped follows from AllLoaded (FileHolds); it is stated so that AllBlurred
      is well formed. */
  lemma {:induction false} FileBlurred(stream: seq<Byte>, L: Layout, prevs: seq<seq<Byte>>, tiles: seq<seq<Word>>,
                                       k: nat, kernel: seq<seq<int>>, results: seq<seq<int>>)
    requires L.Valid() && BodyLength(L, 2) <= |stream| && AllLoaded(stream, L, prevs, tiles)
    requires Shaped(L, tiles) && HaloFits(L, k) && KernelShape(kernel, k)
    requires AllBlurred(L, tiles, k, kernel, results)
    ensures Sized(L, results) && Assembled(L, results) == GlobalImage(FileImage(stream, L), L, kernel, k)
  {
    FileHolds(stream, L, prevs, tiles);
    BlurredImage(FileImage(stream, L), L, tiles, k, kernel, results);
  }
}
