/** 16-bit samples and the little-endian byte swap: the swap macro and
    swap_image. A binary grey map with maxval above 255 stores each sample as two
    bytes, most significant first; a little-endian host reads them the other way
    round and swaps every word after reading and before writing. */
module Swap {
  import opened Arith


  type Byte = bv8
  type Word = bv16

  /** Low and high byte of a word. */
  function Lo(v: Word): Byte {
    (v & 0xff) as Byte
  }

  function Hi(v: Word): Byte {
    (v >> 8) as Byte
  }

  /** The swap macro on a little-endian host. The unsigned short operand is
      promoted to int; the mask (short int)0xff00 sign-extends to 0xffffff00; the
      sum is stored back into an unsigned short. It exchanges the two bytes. */
  function Swap(mem: Word): (r: Word)
    ensures Lo(r) == Hi(mem) && Hi(r) == Lo(mem)
  {
    var m := mem as bv32;
    var sum := ((m & 0xffff_ff00) >> 8) + ((m & 0x0000_00ff) << 8);
    (sum & 0xffff) as Word
  }

  /** A word is determined by its two bytes. */
  lemma {:induction false} BytesDetermineWord(v: Word, u: Word)
    requires Lo(v) == Lo(u) && Hi(v) == Hi(u)
    ensures v == u
  {
  }

  /** Swapping twice gives the word back, so the swap before blurring and the swap
      before writing cancel. */
  lemma {:induction false} SwapInvolution(v: Word)
    ensures Swap(Swap(v)) == v
  {
    BytesDetermineWord(Swap(Swap(v)), v);
  }

  /** How a little-endian host reads two consecutive bytes as an unsigned short:
      the first is the low byte. */
  function HostWord(b0: Byte, b1: Byte): (w: Word)
    ensures Lo(w) == b0 && Hi(w) == b1
  {
    (b1 as Word << 8) | b0 as Word
  }

  /** The sample two consecutive bytes of the file stand for: the first is the
      high byte. */
  function FileWord(b0: Byte, b1: Byte): (w: Word)
    ensures Hi(w) == b0 && Lo(w) == b1
  {
    (b0 as Word << 8) | b1 as Word
  }

  /** Swapping a word read on a little-endian host gives the file's sample. */
  lemma {:induction false} SwapHostWord(b0: Byte, b1: Byte)
    ensures Swap(HostWord(b0, b1)) == FileWord(b0, b1)
  {
    BytesDetermineWord(Swap(HostWord(b0, b1)), FileWord(b0, b1));
  }

  /** Reading a byte buffer in place as unsigned shorts on a little-endian host. */
  function HostWords(bytes: seq<Byte>): (ws: seq<Word>)
    ensures |ws| == |bytes| / 2
  {
    seq(|bytes| / 2, k requires 0 <= k < |bytes| / 2 => HostWord(bytes[2 * k], bytes[2 * k + 1]))
  }

  /** The samples a byte buffer holds in the file's byte order. */
  function FileWords(bytes: seq<Byte>): (ws: seq<Word>)
    ensures |ws| == |bytes| / 2
  {
    seq(|bytes| / 2, k requires 0 <= k < |bytes| / 2 => FileWord(bytes[2 * k], bytes[2 * k + 1]))
  }

  /** The buffer with its first n words swapped and the rest untouched. */
  function SwapPrefix(s: seq<Word>, n: nat): (r: seq<Word>)
    ensures |r| == |s|
  {
    seq(|s|, k requires 0 <= k < |s| => if k < n then Swap(s[k]) else s[k])
  }

  /** Swapping the same prefix twice restores the buffer. */
  lemma {:induction false} SwapPrefixTwice(s: seq<Word>, n: nat)
    ensures SwapPrefix(SwapPrefix(s, n), n) == s
  {
    forall k | 0 <= k < |s| ensures SwapPrefix(SwapPrefix(s, n), n)[k] == s[k] {
      if k < n {
        SwapInvolution(s[k]);
      }
    }
  }

  /** Swapping every word of a buffer read on a little-endian host gives the
      file's samples. */
  lemma {:induction false} SwapHostWords(bytes: seq<Byte>)
    ensures SwapPrefix(HostWords(bytes), |bytes| / 2) == FileWords(bytes)
  {
    forall k | 0 <= k < |bytes| / 2
      ensures SwapPrefix(HostWords(bytes), |bytes| / 2)[k] == FileWords(bytes)[k]
    {
      SwapHostWord(bytes[2 * k], bytes[2 * k + 1]);
    }
  }

  /** Word k of a buffer read on a little-endian host, once swapped, is the
      file's sample of bytes 2k and 2k + 1. */
  lemma {:induction false} SwapHostWordsAt(bytes: seq<Byte>, n: nat, k: nat)
    requires k < n && 2 * k + 1 < |bytes|
    ensures k < |SwapPrefix(HostWords(bytes), n)|
    ensures SwapPrefix(HostWords(bytes), n)[k] == FileWord(bytes[2 * k], bytes[2 * k + 1])
  {
    SwapHostWord(bytes[2 * k], bytes[2 * k + 1]);
  }

  /** The byte order of the host the program runs on. */
  datatype ByteOrder = LittleEndian | BigEndian

  /** How a host of the given byte order reads a byte buffer in place as
      unsigned shorts. */
  function ReadWords(order: ByteOrder, bytes: seq<Byte>): (ws: seq<Word>)
    ensures |ws| == |bytes| / 2
  {
    if order == LittleEndian then HostWords(bytes) else FileWords(bytes)
  }

  /** The samples main works on after reading and swap_image, as written. The
      test of line 19, (0x100 & 0xf) == 0x0, is a constant expression that holds
      on every host, so I_M_LITTLE_ENDIAN is 1 and every word is swapped
      whatever the host. */
  function SourceLoadedWords(order: ByteOrder, bytes: seq<Byte>): (ws: seq<Word>)
    ensures |ws| == |bytes| / 2
  {
    SwapPrefix(ReadWords(order, bytes), |bytes| / 2)
  }

  /** On a little-endian host the words as written are the file's samples. */
  lemma {:induction false} SourceLoadedLittleEndian(bytes: seq<Byte>)
    ensures SourceLoadedWords(LittleEndian, bytes) == FileWords(bytes)
  {
    SwapHostWords(bytes);
  }

  /** On a big-endian host the unconditional swap garbles the samples: the
      sample 0x0100, stored as bytes 1 and 0, becomes 0x0001. */
  lemma {:induction false} SourceBigEndianGarbles()
    ensures SourceLoadedWords(BigEndian, [1, 0]) == [0x0001]
    ensures FileWords([1, 0]) == [0x0100]
  {
    var b: seq<Byte> := [1, 0];
    assert FileWord(1, 0) == 0x0100;
    assert Swap(0x0100) == 0x0001;
    assert FileWords(b) == [FileWord(1, 0)];
    assert SourceLoadedWords(BigEndian, b) == [Swap(FileWord(1, 0))];
  }

  /** The samples as intended: swapped only where the host is little-endian. */
  function LoadedWords(order: ByteOrder, bytes: seq<Byte>): (ws: seq<Word>)
    ensures |ws| == |bytes| / 2
  {
    if order == LittleEndian then SwapPrefix(HostWords(bytes), |bytes| / 2) else FileWords(bytes)
  }

  /** On either host the intended load gives the file's samples. */
  lemma {:induction false} LoadedWordsAreFile(order: ByteOrder, bytes: seq<Byte>)
    ensures LoadedWords(order, bytes) == FileWords(bytes)
  {
    if order == LittleEndian {
      SwapHostWords(bytes);
    }
  }

  /** swap_image: when maxval > 255, swaps the first xsize * ysize words of the
      buffer in place; otherwise the buffer holds bytes and is left alone. */
  method SwapImage(image: array<Word>, xsize: nat, ysize: nat, maxval: int)
    requires maxval > 255 ==> Mul(xsize, ysize) <= image.Length
    modifies image
    ensures image[..] == if maxval > 255 then SwapPrefix(old(image[..]), Mul(xsize, ysize)) else old(image[..])
  {
    if maxval > 255 {
      var size := Mul(xsize, ysize);
      for i := 0 to size
        invariant forall k :: 0 <= k < image.Length ==> image[k] == if k < i then Swap(old(image[k])) else old(image[k])
      {
        image[i] := Swap(image[i]);
      }
    }
  }
}
