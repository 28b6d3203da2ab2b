/** Integer products and quotients for the specification functions. Every buffer
    of the program is a rectangle stored row by row, element (row, col) at
    row * width + col, and the offsets the program computes are sums of such
    products. Products are written Mul(a, b) and the facts the proofs need about
    them are the lemmas below; the quotient and remainder Quot(n, d) / Rem(n, d)
    are defined by repeated subtraction, and QuotIsDiv ties them to the
    operators the program itself uses. */
module Arith {

  /** a * b. */
  function Mul(a: nat, b: nat): nat {
    a * b
  }

  /** The flat index r * w + c of element (r, c) of a rectangle of width w. */
  function Flat(r: nat, c: nat, w: nat): nat {
    Mul(r, w) + c
  }

  /** n / d, rounded down. */
  function Quot(n: nat, d: nat): nat
    requires d > 0
    decreases n
  {
    if n < d then 0 else Quot(n - d, d) + 1
  }

  /** n % d. */
  function Rem(n: nat, d: nat): nat
    requires d > 0
    decreases n
  {
    if n < d then n else Rem(n - d, d)
  }

  /** Moving a left factor by a signed amount d moves the product by d * c: how
      the program's signed offsets (yks * xpxl) meet the row-major layout. */
  lemma {:induction false} MulShift(a: nat, d: int, c: nat)
    requires a + d >= 0
    ensures Mul(a + d, c) == Mul(a, c) + d * c
  {
  }

  /** Mul distributes over a sum of left factors. */
  lemma {:induction false} MulAddLeft(a: nat, b: nat, c: nat)
    ensures Mul(a + b, c) == Mul(a, c) + Mul(b, c)
  {
    if b > 0 {
      MulAddLeft(a, b - 1, c);
    }
  }

  /** Mul distributes over a difference of left factors. */
  lemma {:induction false} MulSubLeft(a: nat, b: nat, c: nat)
    requires b <= a
    ensures Mul(a - b, c) == Mul(a, c) - Mul(b, c)
  {
    MulAddLeft(a - b, b, c);
  }

  /** Mul distributes over a sum of right factors. */
  lemma {:induction false} MulAddRight(a: nat, b: nat, c: nat)
    ensures Mul(a, b + c) == Mul(a, b) + Mul(a, c)
  {
    if a > 0 {
      MulAddRight(a - 1, b, c);
    }
  }

  /** Multiplying by zero on the right gives zero. */
  lemma {:induction false} MulZero(a: nat)
    ensures Mul(a, 0) == 0
  {
    if a > 0 {
      MulZero(a - 1);
    }
  }

  /** Multiplying by one gives the other factor. */
  lemma {:induction false} MulOne(a: nat)
    ensures Mul(a, 1) == a && Mul(1, a) == a
  {
    if a > 0 {
      MulOne(a - 1);
    }
  }

  /** Mul is commutative. */
  lemma {:induction false} MulComm(a: nat, b: nat)
    ensures Mul(a, b) == Mul(b, a)
  {
    if a == 0 {
      MulZero(b);
    } else {
      MulComm(a - 1, b);
      MulAddRight(b, a - 1, 1);
      MulOne(b);
    }
  }

  /** Mul is associative. */
  lemma {:induction false} MulAssoc(a: nat, b: nat, c: nat)
    ensures Mul(Mul(a, b), c) == Mul(a, Mul(b, c))
  {
    if a > 0 {
      MulAssoc(a - 1, b, c);
      MulAddLeft(Mul(a - 1, b), b, c);
    }
  }

  /** A larger left factor gives a product at least as large. */
  lemma {:induction false} MulMono(a: nat, b: nat, n: nat)
    requires a <= b
    ensures Mul(a, n) <= Mul(b, n)
  {
    MulAddLeft(a, b - a, n);
  }

  /** A larger right factor gives a product at least as large. */
  lemma {:induction false} MulMonoRight(n: nat, a: nat, b: nat)
    requires a <= b
    ensures Mul(n, a) <= Mul(n, b)
  {
    MulAddRight(n, a, b - a);
  }

  /** A product of positive factors is positive. */
  lemma {:induction false} MulPositive(a: nat, b: nat)
    requires a > 0 && b > 0
    ensures Mul(a, b) > 0
  {
  }

  /** Quot and Rem split n into whole multiples of d and a remainder below d. */
  lemma {:induction false} QuotRem(n: nat, d: nat)
    requires d > 0
    ensures Mul(Quot(n, d), d) + Rem(n, d) == n && Rem(n, d) < d
    decreases n
  {
    if n >= d {
      QuotRem(n - d, d);
    }
  }

  /** The split into multiples and remainder is unique. */
  lemma {:induction false} QuotRemUnique(q: nat, r: nat, n: nat, d: nat)
    requires d > 0 && r < d && Mul(q, d) + r == n
    ensures Quot(n, d) == q && Rem(n, d) == r
    decreases n
  {
    if q > 0 {
      QuotRemUnique(q - 1, r, n - d, d);
    }
  }

  /** Quot and Rem are the quotient and remainder of natural-number division. */
  lemma {:induction false} QuotIsDiv(n: nat, d: nat)
    requires d > 0
    ensures Quot(n, d) == n / d && Rem(n, d) == n % d
  {
    QuotRemUnique(n / d, n % d, n, d);
  }

  /** A flat index splits back into its row and column. */
  lemma {:induction false} FlatSplit(r: nat, c: nat, w: nat)
    requires c < w
    ensures Quot(Mul(r, w) + c, w) == r && Rem(Mul(r, w) + c, w) == c
  {
    QuotRemUnique(r, c, Mul(r, w) + c, w);
  }

  /** Two flat positions are equal only at the same row and column. */
  lemma {:induction false} FlatUnique(r: nat, c: nat, r': nat, c': nat, w: nat)
    requires c < w && c' < w
    requires Mul(r, w) + c == Mul(r', w) + c'
    ensures r == r' && c == c'
  {
    FlatSplit(r, c, w);
    FlatSplit(r', c', w);
  }

  /** Row r of an h-row rectangle of width w ends inside it. */
  lemma {:induction false} RowEnd(r: nat, w: nat, h: nat)
    requires r < h
    ensures Mul(r, w) + w <= Mul(h, w)
  {
    MulMono(r + 1, h, w);
  }

  /** A position inside an h-row rectangle of width w lies before h * w. */
  lemma {:induction false} FlatBound(r: nat, c: nat, w: nat, h: nat)
    requires r < h && c < w
    ensures Mul(r, w) + c < Mul(h, w)
  {
    RowEnd(r, w, h);
  }

  /** Every flat index below h * w is the flat index of a row below h. */
  lemma {:induction false} FlatInRange(k: nat, w: nat, h: nat)
    requires k < Mul(h, w)
    ensures w > 0 && Quot(k, w) < h && Rem(k, w) < w
    ensures k == Mul(Quot(k, w), w) + Rem(k, w)
  {
    if w == 0 {
      MulZero(h);
    } else {
      QuotRem(k, w);
      if Quot(k, w) >= h {
        MulMono(h, Quot(k, w), w);
      }
    }
  }

  /** Flat positions of a row-major rectangle are ordered row first, then column. */
  lemma {:induction false} FlatOrder(y: nat, x: nat, y': nat, x': nat, w: nat)
    requires x <= w
    requires y < y' || (y == y' && x <= x')
    ensures Mul(y, w) + x <= Mul(y', w) + x'
  {
    if y < y' {
      MulMono(y + 1, y', w);
    }
  }
}
