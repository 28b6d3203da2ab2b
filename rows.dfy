/** A rectangular buffer stored row by row, seen as its sequence of rows. Every
    buffer of the program (tiles, halo strips, the final image) is laid out this
    way: h rows of w elements take h * w places, element (r, c) at r * w + c. */
module Rows {
  import opened Arith

  /** The rows laid end to end. */
  function Flatten<T>(rows: seq<seq<T>>): seq<T> {
    if rows == [] then [] else rows[0] + Flatten(rows[1..])
  }

  /** Every row has w elements. */
  predicate Uniform<T>(rows: seq<seq<T>>, w: nat) {
    forall r :: 0 <= r < |rows| ==> |rows[r]| == w
  }

  /** Row r of a buffer of h rows of w elements. */
  function Row<T>(s: seq<T>, w: nat, h: nat, r: nat): (row: seq<T>)
    requires |s| == Mul(h, w) && r < h
    ensures |row| == w
  {
    RowEnd(r, w, h);
    s[Mul(r, w) .. Mul(r, w) + w]
  }

  /** The rows of a buffer of h rows of w elements. */
  function RowsOf<T>(s: seq<T>, w: nat, h: nat): (rows: seq<seq<T>>)
    requires |s| == Mul(h, w)
    ensures |rows| == h && Uniform(rows, w)
  {
    seq(h, r requires 0 <= r < h => Row(s, w, h, r))
  }

  /** h uniform rows of w elements laid end to end take h * w places. */
  lemma {:induction false} FlattenLength<T>(rows: seq<seq<T>>, w: nat)
    requires Uniform(rows, w)
    ensures |Flatten(rows)| == Mul(|rows|, w)
  {
    if rows != [] {
      FlattenLength(rows[1..], w);
    }
  }

  /** Element (r, c) of the rows sits at flat index r * w + c. */
  lemma {:induction false} FlattenAt<T>(rows: seq<seq<T>>, w: nat, r: nat, c: nat)
    requires Uniform(rows, w) && r < |rows| && c < w
    ensures Mul(r, w) + c < |Flatten(rows)|
    ensures Flatten(rows)[Mul(r, w) + c] == rows[r][c]
  {
    FlattenLength(rows, w);
    FlatBound(r, c, w, |rows|);
    if r > 0 {
      FlattenAt(rows[1..], w, r - 1, c);
      MulAddLeft(r - 1, 1, w);
      MulOne(w);
    }
  }

  /** Replacing row r replaces the w elements from r * w on. */
  lemma {:induction false} FlattenUpdate<T>(rows: seq<seq<T>>, w: nat, r: nat, line: seq<T>)
    requires Uniform(rows, w) && r < |rows| && |line| == w
    ensures Mul(r, w) + w <= |Flatten(rows)|
    ensures Flatten(rows[r := line]) == Flatten(rows)[..Mul(r, w)] + line + Flatten(rows)[Mul(r, w) + w..]
  {
    FlattenLength(rows, w);
    RowEnd(r, w, |rows|);
    if r == 0 {
      assert rows[0 := line][1..] == rows[1..];
    } else {
      var tail := rows[1..];
      FlattenUpdate(tail, w, r - 1, line);
      MulAddLeft(r - 1, 1, w);
      MulOne(w);
      assert rows[r := line] == [rows[0]] + tail[r - 1 := line];
      assert rows[r := line][1..] == tail[r - 1 := line];
    }
  }

  /** Cutting a buffer into rows and laying them end to end gives it back. */
  lemma {:induction false} RowsOfFlatten<T>(s: seq<T>, w: nat, h: nat)
    requires |s| == Mul(h, w)
    ensures Flatten(RowsOf(s, w, h)) == s
  {
    var rows := RowsOf(s, w, h);
    FlattenLength(rows, w);
    forall p | 0 <= p < |s| ensures Flatten(rows)[p] == s[p] {
      FlatInRange(p, w, h);
      var r, c := Quot(p, w), Rem(p, w);
      RowEnd(r, w, h);
      assert rows[r] == Row(s, w, h, r);
      FlattenAt(rows, w, r, c);
    }
  }

  /** Element c of row r of s is element r * w + c of s. */
  lemma {:induction false} RowAt<T>(s: seq<T>, w: nat, h: nat, r: nat, c: nat)
    requires |s| == Mul(h, w) && r < h && c < w
    ensures Mul(r, w) + c < |s| && RowsOf(s, w, h)[r][c] == s[Mul(r, w) + c]
  {
    RowEnd(r, w, h);
  }
}
