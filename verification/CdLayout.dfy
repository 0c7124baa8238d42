/** Where the two parity layers of a sector lie: a matrix of 26 rows of 43 words under the header and
    the data, of which a P codeword is a column and a Q codeword a diagonal. */
module CdLayout {
  import opened Numbers
  import opened BitOps
  import opened CdGf
  import opened CdCodeword
  import opened CdSector

  // ---------- the parts of a sector ----------

  /** Twelve bytes of synchronisation, four of header and 2048 of data come before the code; four
      bytes of code and eight zeros before the P bytes; two rows of P bytes and two of Q bytes end it. */
  lemma Parts()
    ensures EDC_AT == 12 + 4 + 2048 && P_AT == EDC_AT + 4 + 8 && Q_AT == P_AT + 2 * 86 && SECTOR == Q_AT + 2 * 52
    ensures P_AT == 0xC + 24 * 86 && Q_AT == 0xC + 26 * 86
  {
  }

  // ---------- the matrix ----------

  /** Byte `i` of the matrix, counted from the header, is byte `Half` of the word in row `Row` and
      column `Column`. */
  function Row(i: nat): nat { i / 86 }
  function Column(i: nat): nat { i % 86 / 2 }
  function Half(i: nat): nat { i % 2 }

  lemma {:induction false} Cell(i: nat)
    ensures i == 86 * Row(i) + 2 * Column(i) + Half(i) && Column(i) < 43 && Half(i) < 2
  {
    DivParts(i, 86);
    assert i % 2 == i % 86 % 2;
  }

  lemma CellIs(r: nat, c: nat, h: nat)
    requires c < 43 && h < 2
    ensures var i := 86 * r + 2 * c + h; Row(i) == r && Column(i) == c && Half(i) == h
  {
    var i := 86 * r + 2 * c + h;
    Cell(i);
    assert i / 86 == r;
  }

  /** A P codeword is a column: it begins in the first row, each next byte is one row on, and its two
      parity bytes are in the last two rows. */
  lemma PColumn(m: nat, k: nat)
    requires m < 86 && k < 24
    ensures var i := Index(false, m, k); Row(i) == k && Column(i) == m / 2 && Half(i) == m % 2
    ensures var p := Dest(false) + m - 0xC; Row(p) == 24 && Column(p) == m / 2 && Half(p) == m % 2
    ensures var p := Dest(false) + Count(false) + m - 0xC; Row(p) == 25 && Column(p) == m / 2 && Half(p) == m % 2
  {
    PIndex(m, k);
    CellIs(k, m / 2, m % 2);
    CellIs(24, m / 2, m % 2);
    CellIs(25, m / 2, m % 2);
  }

  lemma PIndex(m: nat, k: nat)
    requires m < 86 && k < 24
    ensures Index(false, m, k) == 86 * k + m == 86 * k + 2 * (m / 2) + m % 2
  {
    SmallMod(86 * k + m, 2064);
  }

  lemma SmallMod(a: nat, b: nat)
    requires a < b
    ensures a % b == a
  {
  }

  /** A Q codeword is a diagonal: it begins at the head of a row, and each next byte is one row and
      one column on, round from the last row to the first. */
  lemma QDiagonal(m: nat, k: nat)
    requires m < 52 && k < 43
    ensures var i := Index(true, m, k); Row(i) == (m / 2 + k) % 26 && Column(i) == k && Half(i) == m % 2
  {
    QIndex(m, k);
    CellIs((m / 2 + k) % 26, k, m % 2);
  }

  lemma QIndex(m: nat, k: nat)
    requires m < 52 && k < 43
    ensures Index(true, m, k) == 86 * ((m / 2 + k) % 26) + 2 * k + m % 2
  {
    var a, r := m / 2 + k, (m / 2 + k) % 26;
    assert m / 2 * 86 + m % 2 + 88 * k == 86 * a + 2 * k + m % 2;
    assert 86 * a == 86 * r + 2236 * (a / 26);
    Turns(86 * r + 2 * k + m % 2, a / 26);
  }

  lemma Turns(a: nat, q: nat)
    requires a < 2236 && q <= 2
    ensures (a + 2236 * q) % 2236 == a
  {
  }

  // ---------- every byte in one codeword of each layer ----------

  /** Every byte from the header to the zeros is in exactly one P codeword, once. */
  lemma InOneColumn(i: nat)
    requires i < Size(false)
    ensures Row(i) < 24 && Index(false, i % 86, Row(i)) == i
    ensures forall m, k :: 0 <= m < 86 && 0 <= k < 24 && Index(false, m, k) == i ==> m == i % 86 && k == Row(i)
  {
    DivParts(i, 86);
    PIndex(i % 86, i / 86);
    forall m, k | 0 <= m < 86 && 0 <= k < 24 && Index(false, m, k) == i ensures m == i % 86 && k == Row(i) {
      PIndex(m, k);
      assert (86 * k + m) / 86 == k && (86 * k + m) % 86 == m;
    }
  }

  /** Every byte from the header to the P bytes is in exactly one Q codeword, once. */
  lemma InOneDiagonal(i: nat)
    requires i < Size(true)
    ensures exists m :: 0 <= m < 52 && Index(true, m, Column(i)) == i
    ensures forall m, k :: 0 <= m < 52 && 0 <= k < 43 && Index(true, m, k) == i ==> k == Column(i) && m == Diagonal(i)
  {
    hide Index;
    Cell(i);
    DiagonalThrough(i);
    QDiagonal(Diagonal(i), Column(i));
    Cell(Index(true, Diagonal(i), Column(i)));
    assert Index(true, Diagonal(i), Column(i)) == i;
    forall m, k | 0 <= m < 52 && 0 <= k < 43 && Index(true, m, k) == i ensures k == Column(i) && m == Diagonal(i) {
      QDiagonal(m, k);
      OnlyDiagonal(m, k, i);
    }
  }

  /** The codeword that runs through a byte. */
  function Diagonal(i: nat): nat { 2 * ((Row(i) + 52 - Column(i)) % 26) + Half(i) }

  lemma DiagonalThrough(i: nat)
    requires i < Size(true)
    ensures Diagonal(i) < 52 && (Diagonal(i) / 2 + Column(i)) % 26 == Row(i) && Diagonal(i) % 2 == Half(i)
  {
    Cell(i);
    var d := (Row(i) + 52 - Column(i)) % 26;
    assert Row(i) < 26;
    Across(Row(i), Column(i));
  }

  lemma Across(r: nat, c: nat)
    requires r < 26 && c < 43
    ensures ((r + 52 - c) % 26 + c) % 26 == r
  {
  }

  lemma OnlyDiagonal(m: nat, k: nat, i: nat)
    requires m < 52 && k < 43 && Row(i) == (m / 2 + k) % 26 && Column(i) == k && Half(i) == m % 2
    ensures m == Diagonal(i)
  {
    BackAcross(m / 2, k);
  }

  lemma BackAcross(a: nat, k: nat)
    requires a < 26 && k < 43
    ensures ((a + k) % 26 + 52 - k) % 26 == a
  {
  }

  // ---------- the field ----------

  /** The field is that of the standard: alpha^8 is alpha^4 + alpha^3 + alpha^2 + 1. */
  lemma FieldPolynomial()
    ensures Power(8) == Add(Power(4), Add(Power(3), Add(Power(2), 1)))
    ensures forall x: Byte :: x < 128 ==> TimesAlpha(x) == 2 * x
  {
    assert Power(1) == 2;
    assert Power(2) == 4;
    assert Power(3) == 8;
    assert Power(4) == 16;
    assert Power(5) == 32;
    assert Power(6) == 64;
    assert Power(7) == 128;
    Known();
  }

  lemma Known()
    ensures Xor(256, 285) == 29 && Xor(4, 1) == 5 && Xor(8, 5) == 13 && Xor(16, 13) == 29
  {
    assert Xor(1, 1) == 0;
    assert Xor(2, 2) == 0;
    assert Xor(4, 4) == 0;
    assert Xor(8, 8) == 0;
    assert Xor(16, 17) == 1;
    assert Xor(32, 35) == 3;
    assert Xor(64, 71) == 7;
    assert Xor(128, 142) == 14;
    assert Xor(1, 0) == 1;
    assert Xor(2, 1) == 3;
    assert Xor(4, 3) == 7;
    assert Xor(8, 6) == 14;
  }

  /** Powers of alpha. */
  function Power(n: nat): Byte {
    if n == 0 then 1 else TimesAlpha(Power(n - 1))
  }
}
