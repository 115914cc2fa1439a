/**
 The Salsa20/8 core (RFC 7914, section 3): the specification in terms of quarter-rounds, row rounds and column
 rounds, and the in-place loop over sixteen words.

 Where the rounds put things is independent of what a quarter-round computes, so that part is generic in the
 quarter-round.
 */
module Salsa20 {
  import opened Words

  // -- Specification -----------------------------------------------------------------------------

  datatype Quarter<T> = Quarter(a: T, b: T, c: T, d: T)

  /** The one step all rounds are made of: x ^= R(y + z, n). */
  function Stir(x: Word, y: Word, z: Word, n: bv32): Word
    requires 0 < n < 32
  {
    x ^ Rotl(y + z, n)
  }

  function QuarterRound(y: Quarter<Word>): Quarter<Word> {
    var b := Stir(y.b, y.a, y.d, 7);
    var c := Stir(y.c, b, y.a, 9);
    var d := Stir(y.d, c, b, 13);
    var a := Stir(y.a, d, c, 18);
    Quarter(a, b, c, d)
  }

  /** A quarter-round on each row of the four-by-four matrix, row i starting at its diagonal element. */
  function RowRound<T>(qr: Quarter<T> -> Quarter<T>, y: seq<T>): (z: seq<T>)
    requires |y| == 16
    ensures |z| == 16
  {
    var r0 := qr(Quarter(y[0], y[1], y[2], y[3]));
    var r1 := qr(Quarter(y[5], y[6], y[7], y[4]));
    var r2 := qr(Quarter(y[10], y[11], y[8], y[9]));
    var r3 := qr(Quarter(y[15], y[12], y[13], y[14]));
    [r0.a, r0.b, r0.c, r0.d,
     r1.d, r1.a, r1.b, r1.c,
     r2.c, r2.d, r2.a, r2.b,
     r3.b, r3.c, r3.d, r3.a]
  }

  function Transpose<T>(y: seq<T>): (z: seq<T>)
    requires |y| == 16
    ensures |z| == 16
  {
    [y[0], y[4], y[8], y[12],
     y[1], y[5], y[9], y[13],
     y[2], y[6], y[10], y[14],
     y[3], y[7], y[11], y[15]]
  }

  /** A column round is a row round of the transposed matrix; a double round is a column round, then a row round. */
  function DoubleRound<T>(qr: Quarter<T> -> Quarter<T>, y: seq<T>): (z: seq<T>)
    requires |y| == 16
    ensures |z| == 16
  {
    RowRound(qr, Transpose(RowRound(qr, Transpose(y))))
  }

  function DoubleRounds<T>(qr: Quarter<T> -> Quarter<T>, x: seq<T>, n: nat): (z: seq<T>)
    requires |x| == 16
    ensures |z| == 16
  {
    if n == 0 then x else DoubleRound(qr, DoubleRounds(qr, x, n - 1))
  }

  /** Eight rounds, then the input is added back. */
  function Core(x: seq<Word>): (z: seq<Word>)
    requires |x| == 16
    ensures |z| == 16
  {
    ZipWith(Add, x, DoubleRounds(QuarterRound, x, 4))
  }

  // -- The in-place form -------------------------------------------------------------------------

  /** One quarter-round written into positions a, b, c, d of a block. */
  ghost function QuarterAt<T>(qr: Quarter<T> -> Quarter<T>, x: seq<T>, a: nat, b: nat, c: nat, d: nat): (z: seq<T>)
    requires |x| == 16 && a < 16 && b < 16 && c < 16 && d < 16
    ensures |z| == 16
  {
    var q := qr(Quarter(x[a], x[b], x[c], x[d]));
    x[a := q.a][b := q.b][c := q.c][d := q.d]
  }

  /** The four quarter-rounds of one half never touch each other's words: done one after the other in place, on the
      columns, they make the column round. */
  lemma ColumnRoundSteps<T>(qr: Quarter<T> -> Quarter<T>, x: seq<T>)
    requires |x| == 16
    ensures
      var x1 := QuarterAt(qr, QuarterAt(qr, x, 0, 4, 8, 12), 5, 9, 13, 1);
      QuarterAt(qr, QuarterAt(qr, x1, 10, 14, 2, 6), 15, 3, 7, 11) == Transpose(RowRound(qr, Transpose(x)))
  {
    var r0 := qr(Quarter(x[0], x[4], x[8], x[12]));
    var x1 := QuarterAt(qr, x, 0, 4, 8, 12);
    assert x1 == [r0.a, x[1], x[2], x[3], r0.b, x[5], x[6], x[7], r0.c, x[9], x[10], x[11], r0.d, x[13], x[14], x[15]];
    var r1 := qr(Quarter(x[5], x[9], x[13], x[1]));
    var x2 := QuarterAt(qr, x1, 5, 9, 13, 1);
    assert x2 == [r0.a, r1.d, x[2], x[3], r0.b, r1.a, x[6], x[7], r0.c, r1.b, x[10], x[11], r0.d, r1.c, x[14], x[15]];
    var r2 := qr(Quarter(x[10], x[14], x[2], x[6]));
    var x3 := QuarterAt(qr, x2, 10, 14, 2, 6);
    assert x3 == [r0.a, r1.d, r2.c, x[3], r0.b, r1.a, r2.d, x[7], r0.c, r1.b, r2.a, x[11], r0.d, r1.c, r2.b, x[15]];
  }

  lemma RowRoundSteps<T>(qr: Quarter<T> -> Quarter<T>, x: seq<T>)
    requires |x| == 16
    ensures
      var x1 := QuarterAt(qr, QuarterAt(qr, x, 0, 1, 2, 3), 5, 6, 7, 4);
      QuarterAt(qr, QuarterAt(qr, x1, 10, 11, 8, 9), 15, 12, 13, 14) == RowRound(qr, x)
  {
    var r0 := qr(Quarter(x[0], x[1], x[2], x[3]));
    var x1 := QuarterAt(qr, x, 0, 1, 2, 3);
    assert x1 == [r0.a, r0.b, r0.c, r0.d] + x[4..];
    var r1 := qr(Quarter(x[5], x[6], x[7], x[4]));
    var x2 := QuarterAt(qr, x1, 5, 6, 7, 4);
    assert x2 == [r0.a, r0.b, r0.c, r0.d, r1.d, r1.a, r1.b, r1.c] + x[8..];
    var r2 := qr(Quarter(x[10], x[11], x[8], x[9]));
    var x3 := QuarterAt(qr, x2, 10, 11, 8, 9);
    assert x3 == [r0.a, r0.b, r0.c, r0.d, r1.d, r1.a, r1.b, r1.c, r2.c, r2.d, r2.a, r2.b] + x[12..];
  }

  /** One line of the source's loop: four updates that make a quarter-round. */
  method QuarterRoundInPlace(x: array<Word>, a: nat, b: nat, c: nat, d: nat)
    requires x.Length == 16
    requires a < 16 && b < 16 && c < 16 && d < 16
    requires a != b && a != c && a != d && b != c && b != d && c != d
    modifies x
    ensures x[..] == QuarterAt(QuarterRound, old(x[..]), a, b, c, d)
  {
    hide Stir;
    ghost var y := x[..];
    x[b] := Stir(x[b], x[a], x[d], 7);
    x[c] := Stir(x[c], x[b], x[a], 9);
    x[d] := Stir(x[d], x[c], x[b], 13);
    x[a] := Stir(x[a], x[d], x[c], 18);
    assert Quarter(x[a], x[b], x[c], x[d]) == QuarterRound(Quarter(y[a], y[b], y[c], y[d]));
    assert x[..] == y[a := x[a]][b := x[b]][c := x[c]][d := x[d]];
  }

  /** The body of the source's loop. */
  method DoubleRoundInPlace(x: array<Word>)
    requires x.Length == 16
    modifies x
    ensures x[..] == DoubleRound(QuarterRound, old(x[..]))
  {
    ColumnRoundSteps(QuarterRound, x[..]);
    QuarterRoundInPlace(x, 0, 4, 8, 12);
    QuarterRoundInPlace(x, 5, 9, 13, 1);
    QuarterRoundInPlace(x, 10, 14, 2, 6);
    QuarterRoundInPlace(x, 15, 3, 7, 11);
    RowRoundSteps(QuarterRound, x[..]);
    QuarterRoundInPlace(x, 0, 1, 2, 3);
    QuarterRoundInPlace(x, 5, 6, 7, 4);
    QuarterRoundInPlace(x, 10, 11, 8, 9);
    QuarterRoundInPlace(x, 15, 12, 13, 14);
  }

  method RoundsInPlace(x: array<Word>, rounds: nat)
    requires x.Length == 16 && rounds % 2 == 0
    modifies x
    ensures x[..] == DoubleRounds(QuarterRound, old(x[..]), rounds / 2)
  {
    hide DoubleRound;
    var i := 0;
    while i < rounds
      invariant 0 <= i <= rounds && i % 2 == 0
      invariant x[..] == DoubleRounds(QuarterRound, old(x[..]), i / 2)
    {
      DoubleRoundInPlace(x);
      i := i + 2;
    }
  }

  method CoreInPlace(b: array<Word>)
    requires b.Length == 16
    modifies b
    ensures b[..] == Core(old(b[..]))
  {
    hide DoubleRounds;
    var x := new Word[16](i requires 0 <= i < 16 reads b => b[i]);
    assert x[..] == b[..];
    RoundsInPlace(x, 8);
    ZipInPlace(Add, b, x[..]);
  }
}
