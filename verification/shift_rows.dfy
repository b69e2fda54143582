/** The Shift Rows step of the enhanced cipher: the text is laid out in rows of numColumns
    characters (the last row padded with spaces), row i is rotated left by i positions, and
    the rows are read back with their trailing whitespace stripped. inverse_shift rotates
    right instead. */
module ShiftRows {
  import opened Text
  import opened Arith

  /** The matrix both operations build: consecutive runs of n characters, each padded with
      spaces to n (only the last run can be short). */
  function Rows(text: string, n: nat): (r: seq<string>)
    requires n > 0
    ensures forall i :: 0 <= i < |r| ==> |r[i]| == n
    decreases |text|
  {
    if text == [] then []
    else
      var k := if |text| < n then |text| else n;
      [LJust(text[..k], n)] + Rows(text[k..], n)
  }

  /** There are ceil(len / n) rows, and read row after row they are the text padded with
      spaces to a whole grid. */
  lemma {:induction false} RowsLayout(text: string, n: nat)
    requires n > 0
    ensures |Rows(text, n)| * n >= |text| > (|Rows(text, n)| - 1) * n
    ensures Concat(Rows(text, n)) == LJust(text, |Rows(text, n)| * n)
    decreases |text|
  {
    if text != [] {
      var k := if |text| < n then |text| else n;
      var rest := Rows(text[k..], n);
      RowsLayout(text[k..], n);
      RowsStep(text, k, n, |rest|);
      ConcatCons(LJust(text[..k], n), rest);
    }
  }

  /** num_rows = ceil(len(text) / num_columns) is the number of rows of the matrix. */
  lemma RowCount(text: string, n: nat)
    requires n > 0
    ensures CeilDiv(|text|, n) == |Rows(text, n)|
  {
    RowsLayout(text, n);
    CeilDivUnique(|text|, n, |Rows(text, n)|);
  }

  /** One more row: the first k characters padded to n, then the rest padded to m rows. */
  lemma RowsStep(text: string, k: nat, n: nat, m: nat)
    requires n > 0 && 0 < k <= |text| && k <= n && (k < |text| ==> k == n)
    requires m * n >= |text| - k > (m - 1) * n
    ensures (m + 1) * n >= |text| > m * n
    ensures LJust(text[..k], n) + LJust(text[k..], m * n) == LJust(text, (m + 1) * n)
  {
    assert (m + 1) * n == m * n + n;
    if k == |text| {
      assert m == 0;
    } else {
      assert text[..k] + text[k..] == text;
    }
  }

  /** ''.join(''.join(row).rstrip() for row in matrix). */
  function Flatten(rows: seq<string>): string
  {
    if rows == [] then [] else RStrip(rows[0]) + Flatten(rows[1..])
  }

  /** The loop of shift: row i becomes row[i:] + row[:i]. Row 0 and every row whose index
      reaches its width come out unchanged, because the slices do not wrap. */
  function ShiftMatrix(rows: seq<string>): (r: seq<string>)
    ensures |r| == |rows|
    ensures forall i :: 0 <= i < |r| ==> |r[i]| == |rows[i]|
    ensures forall i :: 0 <= i < |r| && (i == 0 || i >= |rows[i]|) ==> r[i] == rows[i]
  {
    seq(|rows|, i requires 0 <= i < |rows| => RotateLeft(rows[i], i))
  }

  /** The loop of inverse_shift: row i becomes row[-i:] + row[:-i]. */
  function UnshiftMatrix(rows: seq<string>): (r: seq<string>)
    ensures |r| == |rows|
    ensures forall i :: 0 <= i < |r| ==> |r[i]| == |rows[i]|
    ensures forall i :: 0 <= i < |r| && (i == 0 || i >= |rows[i]|) ==> r[i] == rows[i]
  {
    seq(|rows|, i requires 0 <= i < |rows| => RotateRight(rows[i], i))
  }

  /** What shift(text, n) returns. */
  function Shifted(text: string, n: nat): string
    requires n > 0
  {
    Flatten(ShiftMatrix(Rows(text, n)))
  }

  /** What inverse_shift(text, n) returns. */
  function Unshifted(text: string, n: nat): string
    requires n > 0
  {
    Flatten(UnshiftMatrix(Rows(text, n)))
  }

  // ---------------------------------------------------------------------------
  // The two operations, step by step

  /** shift: build the matrix, rotate rows 1 .. num_rows - 1 in place, flatten. A
      non-positive column count divides by zero in the source. */
  method Shift(text: string, numColumns: nat) returns (result: string)
    requires numColumns > 0
    ensures result == Shifted(text, numColumns)
  {
    var numRows := CeilDiv(|text|, numColumns);
    var matrix := Rows(text, numColumns);
    RowCount(text, numColumns);
    ghost var original := matrix;
    var i := 1;
    while i < numRows
      invariant 1 <= i && (numRows > 0 ==> i <= numRows)
      invariant |matrix| == numRows
      invariant forall k :: 0 < k < i && k < numRows ==> matrix[k] == RotateLeft(original[k], k)
      invariant forall k :: (k == 0 || i <= k) && k < numRows ==> matrix[k] == original[k]
    {
      matrix := matrix[i := RotateLeft(matrix[i], i)];
      i := i + 1;
    }
    assert matrix == ShiftMatrix(original) by {
      forall k | 0 <= k < numRows
        ensures matrix[k] == ShiftMatrix(original)[k]
      {
      }
    }
    result := Flatten(matrix);
  }

  /** inverse_shift: the same loop rotating each row right by its index. */
  method InverseShift(text: string, numColumns: nat) returns (result: string)
    requires numColumns > 0
    ensures result == Unshifted(text, numColumns)
  {
    var numRows := CeilDiv(|text|, numColumns);
    var matrix := Rows(text, numColumns);
    RowCount(text, numColumns);
    ghost var original := matrix;
    var i := 1;
    while i < numRows
      invariant 1 <= i && (numRows > 0 ==> i <= numRows)
      invariant |matrix| == numRows
      invariant forall k :: 0 < k < i && k < numRows ==> matrix[k] == RotateRight(original[k], k)
      invariant forall k :: (k == 0 || i <= k) && k < numRows ==> matrix[k] == original[k]
    {
      matrix := matrix[i := RotateRight(matrix[i], i)];
      i := i + 1;
    }
    assert matrix == UnshiftMatrix(original) by {
      forall k | 0 <= k < numRows
        ensures matrix[k] == UnshiftMatrix(original)[k]
      {
      }
    }
    result := Flatten(matrix);
  }

  // ---------------------------------------------------------------------------
  // The shape of a matrix built from whitespace-free text

  /** A padded last row: it holds some text, and its only whitespace is the space padding. */
  predicate PaddedRow(row: string) {
    (exists c :: c in row && !IsWhitespace(c))
    && (forall c :: c in row && IsWhitespace(c) ==> c == ' ')
  }

  /** The matrix of a non-empty whitespace-free text: rows of width n, every row but the
      last free of whitespace, the last one padded. */
  predicate Grid(rows: seq<string>, n: nat) {
    rows != []
    && (forall i :: 0 <= i < |rows| ==> |rows[i]| == n)
    && (forall i :: 0 <= i < |rows| - 1 ==> NoWhitespace(rows[i]))
    && PaddedRow(rows[|rows| - 1])
  }

  /** Whitespace-free text makes a Grid. */
  lemma {:induction false} RowsGrid(text: string, n: nat)
    requires n > 0 && text != [] && NoWhitespace(text)
    ensures Grid(Rows(text, n), n)
    decreases |text|
  {
    var k := if |text| < n then |text| else n;
    var first := LJust(text[..k], n);
    assert first[0] == text[0] && !IsWhitespace(text[0]);
    if k < |text| {
      RowsGrid(text[k..], n);
      assert first == text[..k];
    }
  }

  /** Flattening the matrix of whitespace-free text gives the text back. */
  lemma {:induction false} FlattenRows(text: string, n: nat)
    requires n > 0 && NoWhitespace(text)
    ensures Flatten(Rows(text, n)) == text
    decreases |text|
  {
    if text != [] {
      var k := if |text| < n then |text| else n;
      RStripLJust(text[..k], n);
      FlattenRows(text[k..], n);
      assert text == text[..k] + text[k..];
    }
  }

  /** A padded row loses only its padding to rstrip, and ljust puts the padding back. */
  lemma LJustRStrip(row: string)
    requires PaddedRow(row)
    ensures RStrip(row) != [] && LJust(RStrip(row), |row|) == row
  {
    var r := RStrip(row);
    var c :| c in row && !IsWhitespace(c);
    var j :| 0 <= j < |row| && row[j] == c;
    assert j < |r|;
    forall i | |r| <= i < |row|
      ensures row[i] == ' '
    {
      assert row[i] in row;
    }
    assert LJust(r, |row|) == row;
  }

  /** Laying out the flattened Grid again gives the same Grid. */
  lemma {:induction false} RowsFlatten(rows: seq<string>, n: nat)
    requires n > 0 && Grid(rows, n)
    ensures Flatten(rows) != [] && Rows(Flatten(rows), n) == rows
  {
    if |rows| == 1 {
      LJustRStrip(rows[0]);
      RowsSingle(Flatten(rows), n);
    } else {
      var rest := rows[1..];
      assert Grid(rest, n) by {
        assert rest[|rest| - 1] == rows[|rows| - 1];
      }
      RowsFlatten(rest, n);
      assert Flatten(rows) == rows[0] + Flatten(rest) by {
        assert RStrip(rows[0]) == rows[0];
      }
      RowsCons(rows[0], Flatten(rest), n);
      assert rows == [rows[0]] + rest;
    }
  }

  /** Text of at most one row makes a single padded row. */
  lemma RowsSingle(text: string, n: nat)
    requires 0 < |text| <= n
    ensures Rows(text, n) == [LJust(text, n)]
  {
    assert text[..|text|] == text && text[|text|..] == [];
  }

  /** A full first row followed by more text is laid out as that row, then the rest. */
  lemma RowsCons(first: string, rest: string, n: nat)
    requires |first| == n > 0 && rest != []
    ensures Rows(first + rest, n) == [first] + Rows(rest, n)
  {
    var text := first + rest;
    assert text[..n] == first && text[n..] == rest;
  }

  /** Rotating each row keeps the shape of a Grid. */
  lemma GridRotated(rows: seq<string>, n: nat)
    requires Grid(rows, n)
    ensures Grid(ShiftMatrix(rows), n) && Grid(UnshiftMatrix(rows), n)
  {
    var left, right := ShiftMatrix(rows), UnshiftMatrix(rows);
    forall i | 0 <= i < |rows|
      ensures multiset(left[i]) == multiset(rows[i]) && multiset(right[i]) == multiset(rows[i])
    {
      RotatePermutes(rows[i], i);
    }
    GridSameLetters(rows, left, n);
    GridSameLetters(rows, right, n);
  }

  /** Rearranging the characters within each row keeps the shape of a Grid. */
  lemma GridSameLetters(rows: seq<string>, other: seq<string>, n: nat)
    requires Grid(rows, n) && |other| == |rows|
    requires forall i :: 0 <= i < |rows| ==> multiset(other[i]) == multiset(rows[i])
    ensures Grid(other, n)
  {
    forall i | 0 <= i < |rows|
      ensures |other[i]| == n
    {
      assert |multiset(other[i])| == |multiset(rows[i])|;
    }
    forall i | 0 <= i < |rows| - 1
      ensures NoWhitespace(other[i])
    {
      NoWhitespacePermuted(rows[i], other[i]);
    }
    var last := |rows| - 1;
    var c :| c in rows[last] && !IsWhitespace(c);
    assert c in multiset(rows[last]);
    assert c in other[last];
    forall d | d in other[last] && IsWhitespace(d)
      ensures d == ' '
    {
      assert d in multiset(other[last]);
    }
  }

  // ---------------------------------------------------------------------------
  // Properties

  /** inverse_shift undoes shift on whitespace-free text of any length. */
  lemma ShiftRoundTrip(text: string, n: nat)
    requires n > 0 && NoWhitespace(text)
    ensures Unshifted(Shifted(text, n), n) == text
  {
    if text != [] {
      var rows := Rows(text, n);
      var shifted := ShiftMatrix(rows);
      assert Rows(Shifted(text, n), n) == shifted by {
        RowsGrid(text, n);
        GridRotated(rows, n);
        RowsFlatten(shifted, n);
      }
      assert UnshiftMatrix(shifted) == rows by {
        forall i | 0 <= i < |rows|
          ensures UnshiftMatrix(shifted)[i] == rows[i]
        {
          RotateRoundTrip(rows[i], i);
        }
      }
      FlattenRows(text, n);
    }
  }

  /** shift undoes inverse_shift on whitespace-free text of any length. */
  lemma UnshiftRoundTrip(text: string, n: nat)
    requires n > 0 && NoWhitespace(text)
    ensures Shifted(Unshifted(text, n), n) == text
  {
    if text != [] {
      var rows := Rows(text, n);
      var unshifted := UnshiftMatrix(rows);
      assert Rows(Unshifted(text, n), n) == unshifted by {
        RowsGrid(text, n);
        GridRotated(rows, n);
        RowsFlatten(unshifted, n);
      }
      assert ShiftMatrix(unshifted) == rows by {
        forall i | 0 <= i < |rows|
          ensures ShiftMatrix(unshifted)[i] == rows[i]
        {
          RotateRoundTrip(rows[i], i);
        }
      }
      FlattenRows(text, n);
    }
  }

  /** Rows of text whose length is a multiple of n are exact slices of it: no padding. */
  lemma FullRows(text: string, n: nat)
    requires n > 0 && |text| % n == 0
    ensures Concat(Rows(text, n)) == text
  {
    var rows := Rows(text, n);
    RowsLayout(text, n);
    CeilDivUnique(|text|, n, |rows|);
    assert |rows| * n == |text|;
  }

  /** Rows without whitespace are not changed by rstrip: flattening is plain joining. */
  lemma {:induction false} FlattenClean(rows: seq<string>)
    requires forall i :: 0 <= i < |rows| ==> NoWhitespace(rows[i])
    ensures Flatten(rows) == Concat(rows)
  {
    if rows != [] {
      FlattenClean(rows[1..]);
    }
  }

  /** Rearranging the characters within each row rearranges the joined rows. */
  lemma {:induction false} ConcatSameLetters(rows: seq<string>, other: seq<string>)
    requires |other| == |rows|
    requires forall i :: 0 <= i < |rows| ==> multiset(other[i]) == multiset(rows[i])
    ensures multiset(Concat(other)) == multiset(Concat(rows))
  {
    if rows != [] {
      ConcatSameLetters(rows[1..], other[1..]);
    }
  }

  /** For whitespace-free text filling whole rows, shift and inverse_shift only rearrange the
      characters: same length, same multiset. */
  lemma ShiftPermutes(text: string, n: nat)
    requires n > 0 && NoWhitespace(text) && |text| % n == 0
    ensures |Shifted(text, n)| == |text| && multiset(Shifted(text, n)) == multiset(text)
    ensures |Unshifted(text, n)| == |text| && multiset(Unshifted(text, n)) == multiset(text)
  {
    var rows := Rows(text, n);
    FullRows(text, n);
    forall i | 0 <= i < |rows|
      ensures NoWhitespace(rows[i])
    {
      ConcatContains(rows, i);
      forall j | 0 <= j < |rows[i]|
        ensures !IsWhitespace(rows[i][j])
      {
        assert rows[i][j] in multiset(text);
      }
    }
    var left, right := ShiftMatrix(rows), UnshiftMatrix(rows);
    forall i | 0 <= i < |rows|
      ensures multiset(left[i]) == multiset(rows[i]) && multiset(right[i]) == multiset(rows[i])
      ensures NoWhitespace(left[i]) && NoWhitespace(right[i])
    {
      RotatePermutes(rows[i], i);
      NoWhitespacePermuted(rows[i], left[i]);
      NoWhitespacePermuted(rows[i], right[i]);
    }
    FlattenClean(left);
    FlattenClean(right);
    ConcatSameLetters(rows, left);
    ConcatSameLetters(rows, right);
  }

  // ---------------------------------------------------------------------------
  // Worked values

  /** Three full whitespace-free rows: the middle one turns by one, the last by two. */
  lemma ThreeRows(a: string, b: string, c: string, n: nat)
    requires |a| == |b| == |c| == n > 0
    requires NoWhitespace(a) && NoWhitespace(b) && NoWhitespace(c)
    ensures Shifted(a + b + c, n) == a + RotateLeft(b, 1) + RotateLeft(c, 2)
    ensures Unshifted(a + b + c, n) == a + RotateRight(b, 1) + RotateRight(c, 2)
  {
    ThreeRowsLayout(a, b, c, n);
    ThreeRowsTurned(a, b, c);
  }

  lemma ThreeRowsLayout(a: string, b: string, c: string, n: nat)
    requires |a| == |b| == |c| == n > 0
    ensures Rows(a + b + c, n) == [a, b, c]
  {
    RowsCons(b, c, n);
    RowsCons(a, b + c, n);
    RowsSingle(c, n);
    assert a + b + c == a + (b + c);
  }

  lemma ThreeRowsTurned(a: string, b: string, c: string)
    requires NoWhitespace(a) && NoWhitespace(b) && NoWhitespace(c)
    ensures Flatten(ShiftMatrix([a, b, c])) == a + RotateLeft(b, 1) + RotateLeft(c, 2)
    ensures Flatten(UnshiftMatrix([a, b, c])) == a + RotateRight(b, 1) + RotateRight(c, 2)
  {
    var rows := [a, b, c];
    var left := [a, RotateLeft(b, 1), RotateLeft(c, 2)];
    var right := [a, RotateRight(b, 1), RotateRight(c, 2)];
    assert ShiftMatrix(rows) == left && UnshiftMatrix(rows) == right;
    CleanRows(rows, left);
    CleanRows(rows, right);
    ConcatThree(a, RotateLeft(b, 1), RotateLeft(c, 2));
    ConcatThree(a, RotateRight(b, 1), RotateRight(c, 2));
  }

  /** Rows that are rotations of whitespace-free rows flatten to their plain join. */
  lemma CleanRows(rows: seq<string>, turned: seq<string>)
    requires |turned| == |rows|
    requires forall i :: 0 <= i < |rows| ==> NoWhitespace(rows[i])
    requires forall i :: 0 <= i < |rows| ==>
      turned[i] == RotateLeft(rows[i], i) || turned[i] == RotateRight(rows[i], i)
    ensures Flatten(turned) == Concat(turned)
  {
    forall i | 0 <= i < |rows|
      ensures NoWhitespace(turned[i])
    {
      RotatePermutes(rows[i], i);
      NoWhitespacePermuted(rows[i], turned[i]);
    }
    FlattenClean(turned);
  }

  /** A full row and a short one: the short row is padded before it turns. */
  lemma TwoRows(a: string, b: string, n: nat)
    requires |a| == n && 0 < |b| <= n
    requires NoWhitespace(a)
    ensures Shifted(a + b, n) == a + RStrip(RotateLeft(LJust(b, n), 1))
    ensures Unshifted(a + b, n) == a + RStrip(RotateRight(LJust(b, n), 1))
  {
    RowsCons(a, b, n);
    RowsSingle(b, n);
    assert Rows(a + b, n) == [a, LJust(b, n)];
    TwoRowsTurned(a, LJust(b, n));
  }

  lemma TwoRowsTurned(a: string, b: string)
    requires NoWhitespace(a)
    ensures Flatten(ShiftMatrix([a, b])) == a + RStrip(RotateLeft(b, 1))
    ensures Flatten(UnshiftMatrix([a, b])) == a + RStrip(RotateRight(b, 1))
  {
    var left, right := ShiftMatrix([a, b]), UnshiftMatrix([a, b]);
    assert left == [a, RotateLeft(b, 1)] && right == [a, RotateRight(b, 1)];
    assert RStrip(a) == a;
    FlattenTwo(left);
    FlattenTwo(right);
  }

  lemma FlattenTwo(rows: seq<string>)
    requires |rows| == 2
    ensures Flatten(rows) == RStrip(rows[0]) + RStrip(rows[1])
  {
    var rest := rows[1..];
    assert rest[0] == rows[1] && rest[1..] == [];
    assert Flatten(rest) == RStrip(rows[1]) + Flatten([]);
  }

  /** A 3 by 3 square: rows ABC, DEF, GHI become ABC, EFD, IGH. */
  lemma SquareExample(a: string, b: string, c: string)
    requires a == "ABC" && b == "DEF" && c == "GHI"
    ensures Shifted(a + b + c, 3) == "ABCEFDIGH"
  {
    ThreeRows(a, b, c, 3);
    assert RotateLeft(b, 1) == "EFD" && RotateLeft(c, 2) == "IGH";
  }

  /** ... and back: rows ABC, EFD, IGH turn right into ABC, DEF, GHI. */
  lemma SquareInverseExample(a: string, b: string, c: string)
    requires a == "ABC" && b == "EFD" && c == "IGH"
    ensures Unshifted(a + b + c, 3) == "ABCDEFGHI"
  {
    ThreeRows(a, b, c, 3);
    assert RotateRight(b, 1) == "DEF" && RotateRight(c, 2) == "GHI";
  }

  /** Three rows of four: row 1 by one, row 2 by two, and no fourth row. */
  lemma WideExample(a: string, b: string, c: string)
    requires a == "ABCD" && b == "EFGH" && c == "IJKL"
    ensures Shifted(a + b + c, 4) == "ABCDFGHEKLIJ"
  {
    ThreeRows(a, b, c, 4);
    assert RotateLeft(b, 1) == "FGHE" && RotateLeft(c, 2) == "KLIJ";
  }

  lemma WideInverseExample(a: string, b: string, c: string)
    requires a == "ABCD" && b == "FGHE" && c == "KLIJ"
    ensures Unshifted(a + b + c, 4) == "ABCDEFGHIJKL"
  {
    ThreeRows(a, b, c, 4);
    assert RotateRight(b, 1) == "EFGH" && RotateRight(c, 2) == "IJKL";
  }

  /** A short last row is padded first, so the padding blank moves inside the output. */
  lemma PaddedExample(a: string, b: string)
    requires a == "ABC" && b == "DE"
    ensures Shifted(a + b, 3) == a + "E D"
  {
    TwoRows(a, b, 3);
    var padded := LJust(b, 3);
    assert padded == "DE ";
    var turned := RotateLeft(padded, 1);
    assert turned == "E D";
    assert RStrip(turned) == turned;
  }

  /** The inverse pads the short row, turns it back and strips the blank again. */
  lemma PaddedInverseExample(a: string, c: string)
    requires a == "ABC" && c == "E D"
    ensures Unshifted(a + c, 3) == a + "DE"
  {
    TwoRows(a, c, 3);
    assert LJust(c, 3) == c;
    var turned := RotateRight(c, 1);
    assert turned == "DE ";
    assert RStrip(turned) == RStrip("DE") == "DE";
  }

  /** Empty text has no rows. */
  lemma EmptyExample(n: nat)
    requires n > 0
    ensures Shifted([], n) == [] && Unshifted([], n) == []
  {
  }
}
