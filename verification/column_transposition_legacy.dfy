/** The older column transposition. Keys are 0-based column indices. A round pads the text with
    spaces to a whole grid of |key| columns, reads the columns off in key order and strips the
    trailing whitespace. Its inverse_transpose runs the same forward round with the inverse key,
    which does not undo a round (InverseTransposeNotInverse); the read-back round of the core
    module, given the key itself, does (CorrectedRoundTrip). */
module ColumnTranspositionLegacy {
  import opened Text
  import opened Arith
  import opened ColumnTransposition
  import ShiftRows

  /** The position of cell (row, col) when a grid of `width`-wide rows is read row by row. */
  function Cell(row: nat, col: nat, width: nat, height: nat): (p: nat)
    requires row < height && col < width
    ensures p < height * width
  {
    CellInGrid(row, col, height, width);
    row * width + col
  }

  /** The text padded with spaces to num_columns * ceil(len / num_columns): the least multiple
      of n that is not shorter than the text. */
  function PaddedText(text: string, n: nat): (r: string)
    requires n > 0
    ensures text <= r && forall i :: |text| <= i < |r| ==> r[i] == ' '
    ensures |r| == n * CeilDiv(|text|, n)
    ensures |r| % n == 0 && |text| <= |r| < |text| + n
  {
    var numRows := CeilDiv(|text|, n);
    RowCol(numRows, n, 0);
    assert (numRows - 1) * n == numRows * n - n;
    text + seq(n * numRows - |text|, _ => ' ')
  }

  /** text[i * n:i * n + n], row i of the grid: n characters, the c-th being cell (i, c). */
  function Row(padded: string, n: nat, rows: nat, i: nat): (r: string)
    requires |padded| == rows * n && i < rows
    ensures |r| == n && forall c :: 0 <= c < n ==> r[c] == padded[Cell(i, c, n, rows)]
  {
    if n == 0 then "" else
      CellInGrid(i, n - 1, rows, n);
      padded[i * n .. i * n + n]
  }

  /** [text[i:i + n] for i in range(0, len(text), n)] on a text whose length n divides: rows of
      n characters, cell (i, c) being character i * n + c. */
  function Grid(padded: string, n: nat): (r: seq<string>)
    requires n > 0 && |padded| % n == 0
    ensures |r| * n == |padded| && Uniform(r, n)
    ensures forall i, c :: 0 <= i < |r| && 0 <= c < n ==> r[i][c] == padded[Cell(i, c, n, |r|)]
  {
    var numRows := |padded| / n;
    assert numRows * n == |padded|;
    seq(numRows, i requires 0 <= i < numRows => Row(padded, n, numRows, i))
  }

  /** Read row after row, the grid is the text it was cut from. */
  lemma GridConcat(padded: string, n: nat)
    requires n > 0 && |padded| % n == 0
    ensures Concat(Grid(padded, n)) == padded
  {
    var grid := Grid(padded, n);
    var even := SplitEven(padded, |grid|, n);
    forall i | 0 <= i < |grid| ensures grid[i] == even[i] {
      forall c | 0 <= c < n ensures grid[i][c] == even[i][c] {
        ConcatUniformAt(even, n, i, c);
      }
    }
    assert grid == even;
  }

  /** Two grids of n-wide rows that read the same row after row are the same grid. */
  lemma UniformUnique(a: seq<string>, b: seq<string>, n: nat)
    requires n > 0 && Uniform(a, n) && Uniform(b, n) && Concat(a) == Concat(b)
    ensures a == b
  {
    ConcatUniformLength(a, n);
    ConcatUniformLength(b, n);
    MulCancel(|a|, |b|, n);
    forall i | 0 <= i < |a| ensures a[i] == b[i] {
      forall c | 0 <= c < n ensures a[i][c] == b[i][c] {
        ConcatUniformAt(a, n, i, c);
        ConcatUniformAt(b, n, i, c);
      }
    }
  }

  /** The grid a round builds has ceil(len / n) rows of n characters that, read row after
      row, are the text followed by spaces; it is the row matrix of the row shift. */
  lemma PaddedGrid(text: string, n: nat)
    requires n > 0
    ensures Grid(PaddedText(text, n), n) == ShiftRows.Rows(text, n)
    ensures |Grid(PaddedText(text, n), n)| == CeilDiv(|text|, n)
    ensures Concat(Grid(PaddedText(text, n), n)) == LJust(text, n * CeilDiv(|text|, n))
  {
    var padded := PaddedText(text, n);
    var width := n * CeilDiv(|text|, n);
    var rows := ShiftRows.Rows(text, n);
    ShiftRows.RowsLayout(text, n);
    ShiftRows.RowCount(text, n);
    GridConcat(padded, n);
    var spaced := LJust(text, width);
    forall i | 0 <= i < width ensures padded[i] == spaced[i] {
      if i < |text| {
        assert padded[i] == text[i] && spaced[i] == text[i];
      }
    }
    assert padded == spaced;
    UniformUnique(Grid(padded, n), rows, n);
  }

  /** The columns `cols` names, in that order, each read top to bottom. */
  function KeyColumns(grid: seq<string>, n: nat, cols: seq<int>): (r: seq<string>)
    requires Uniform(grid, n) && forall j :: 0 <= j < |cols| ==> 0 <= cols[j] < n
    ensures |r| == |cols| && Uniform(r, |grid|)
  {
    seq(|cols|, j requires 0 <= j < |cols| => Column(grid, cols[j]))
  }

  /** `transposed` once the loop has read the first `count` key entries of a grid of |key|
      columns: the columns they name, each top to bottom, in key order. */
  function ReadOff(grid: seq<string>, key: seq<int>, count: nat): string
    requires Uniform(grid, |key|) && InRange(key) && count <= |key|
  {
    if count == 0 then "" else ReadOff(grid, key, count - 1) + Column(grid, key[count - 1])
  }

  /** One older round: lay the text out in space-padded rows of |key|, read the columns in key
      order, rstrip. */
  function Round(text: string, key: seq<int>): string
    requires |key| > 0 && InRange(key)
  {
    RStrip(ReadOff(ShiftRows.Rows(text, |key|), key, |key|))
  }

  /** _single_round_transpose: the padding, the grid, then one column per key entry appended
      to `transposed`, stripped at the end. */
  method SingleRoundTranspose(text: string, key: seq<int>) returns (result: string)
    requires |key| > 0 && InRange(key)
    ensures result == Round(text, key)
  {
    var numColumns := |key|;
    var numRows := CeilDiv(|text|, numColumns);
    var padding := numColumns * numRows - |text|;
    var padded := text + seq(padding, _ => ' ');
    assert padded == PaddedText(text, numColumns);
    var grid := Grid(padded, numColumns);
    PaddedGrid(text, numColumns);
    var transposed := "";
    for j := 0 to |key|
      invariant transposed == ReadOff(grid, key, j)
    {
      transposed := transposed + Column(grid, key[j]);
    }
    result := RStrip(transposed);
  }

  /** The read-off is the key's columns joined. */
  lemma {:induction false} ReadOffColumns(grid: seq<string>, key: seq<int>, count: nat)
    requires Uniform(grid, |key|) && InRange(key) && count <= |key|
    ensures ReadOff(grid, key, count) == Concat(KeyColumns(grid, |key|, key[..count]))
  {
    var n := |key|;
    if count > 0 {
      ReadOffColumns(grid, key, count - 1);
      assert KeyColumns(grid, n, key[..count])
        == KeyColumns(grid, n, key[..count - 1]) + [Column(grid, key[count - 1])];
      ConcatAppend(KeyColumns(grid, n, key[..count - 1]), Column(grid, key[count - 1]));
    }
  }

  /** No padding is added when n divides the length: the row matrix is the text cut into
      rows. */
  lemma Unpadded(text: string, n: nat, rows: nat)
    requires n > 0 && |text| == rows * n
    ensures |text| % n == 0 && ShiftRows.Rows(text, n) == Grid(text, n) && |Grid(text, n)| == rows
  {
    assert (rows - 1) * n == rows * n - n;
    CeilDivUnique(|text|, n, rows);
    RowCol(rows, n, 0);
    assert text + seq(0, _ => ' ') == text;
    assert PaddedText(text, n) == text;
    PaddedGrid(text, n);
  }

  /** Every character of the columns read off the rows of whitespace-free text is a
      character of that text, at the cell the closed form names. */
  lemma ReadOffCells(text: string, key: seq<int>, rows: nat)
    requires |key| > 0 && InRange(key) && |text| == rows * |key|
    ensures |ReadOff(ShiftRows.Rows(text, |key|), key, |key|)| == |text|
    ensures forall j, r :: 0 <= j < |key| && 0 <= r < rows ==>
      ReadOff(ShiftRows.Rows(text, |key|), key, |key|)[Cell(j, r, rows, |key|)]
        == text[Cell(r, key[j], |key|, rows)]
    ensures NoWhitespace(text) ==> NoWhitespace(ReadOff(ShiftRows.Rows(text, |key|), key, |key|))
  {
    var n := |key|;
    Unpadded(text, n, rows);
    var grid := Grid(text, n);
    var pieces := KeyColumns(grid, n, key);
    var out := ReadOff(grid, key, n);
    ReadOffColumns(grid, key, n);
    assert key[..n] == key;
    assert out == Concat(pieces);
    ConcatUniformLength(pieces, rows);
    forall j, r | 0 <= j < n && 0 <= r < rows
      ensures out[Cell(j, r, rows, n)] == text[Cell(r, key[j], n, rows)]
    {
      ConcatUniformAt(pieces, rows, j, r);
    }
    if NoWhitespace(text) {
      CellsNoWhitespace(text, out, key, rows);
    }
  }

  /** Output whose every cell is a character of whitespace-free text has no whitespace. */
  lemma CellsNoWhitespace(text: string, out: string, key: seq<int>, rows: nat)
    requires |key| > 0 && InRange(key) && |text| == rows * |key| && |out| == |text|
    requires NoWhitespace(text)
    requires forall j, r :: 0 <= j < |key| && 0 <= r < rows ==>
      out[Cell(j, r, rows, |key|)] == text[Cell(r, key[j], |key|, rows)]
    ensures NoWhitespace(out)
  {
    forall i | 0 <= i < |out| ensures !IsWhitespace(out[i]) {
      PositionInGrid(i, |key|, rows);
      var j, r := i / rows, i % rows;
      assert out[Cell(j, r, rows, |key|)] == text[Cell(r, key[j], |key|, rows)];
    }
  }

  /** For whitespace-free text that n divides into R rows, a round keeps the length and sends
      character r * n + key[j] to position j * R + r: run j of the output is column key[j]. */
  lemma RoundClosedForm(text: string, key: seq<int>, rows: nat)
    requires |key| > 0 && InRange(key) && NoWhitespace(text) && |text| == rows * |key|
    ensures |Round(text, key)| == |text| && NoWhitespace(Round(text, key))
    ensures forall j, r :: 0 <= j < |key| && 0 <= r < rows ==>
      Round(text, key)[Cell(j, r, rows, |key|)] == text[Cell(r, key[j], |key|, rows)]
  {
    ReadOffCells(text, key, rows);
  }

  /** With a permutation key, an older round on such text is the core module's forward round
      under the inverse order: both emit column key[0], then column key[1], and so on. */
  lemma RoundAsCore(text: string, key: seq<int>)
    requires IsOrder(key) && NoWhitespace(text) && |text| % |key| == 0
    ensures Round(text, key) == Transposed(text, Inverse(key))
  {
    var n := |key|;
    DivExact(|text|, n);
    ReadOffCells(text, key, |text| / n);
    Unpadded(text, n, |text| / n);
    var grid := Grid(text, n);
    GridConcat(text, n);
    var q := Inverse(key);
    TransposedGrid(grid, q);
    InverseInvolution(key);
    ReadOffColumns(grid, key, n);
    assert key[..n] == key;
    assert ColumnsInOrder(grid, q) == KeyColumns(grid, n, key);
  }

  /** Such a round only moves characters: the output is a permutation of the input, and it is
      again whitespace-free with a length n divides. */
  lemma RoundPermutes(text: string, key: seq<int>)
    requires IsOrder(key) && NoWhitespace(text) && |text| % |key| == 0
    ensures multiset(Round(text, key)) == multiset(text)
    ensures |Round(text, key)| == |text| && NoWhitespace(Round(text, key))
  {
    RoundAsCore(text, key);
    TransposedPermutes(text, Inverse(key));
    NoWhitespacePermuted(text, Round(text, key));
  }

  // ---------------------------------------------------------------------------
  // _get_inverse_key

  /** The list [0] * n after the first `count` entries of the key: slot key[i] holds i, a later
      entry overwriting an earlier one. */
  function Inverted(key: seq<int>, count: nat): (r: seq<int>)
    requires InRange(key) && count <= |key|
    ensures |r| == |key| && InRange(r)
  {
    if count == 0 then seq(|key|, _ => 0)
    else Inverted(key, count - 1)[key[count - 1] := count - 1]
  }

  /** With distinct entries nothing is overwritten: inverse[key[i]] == i for every i so far. */
  lemma {:induction false} InvertedRecords(key: seq<int>, count: nat)
    requires IsPermutation(key) && count <= |key|
    ensures forall i :: 0 <= i < count ==> Inverted(key, count)[key[i]] == i
  {
    if count > 0 {
      InvertedRecords(key, count - 1);
    }
  }

  /** For a permutation key the result is the inverse permutation. */
  lemma InvertedIsInverse(key: seq<int>)
    requires IsPermutation(key)
    ensures Inverted(key, |key|) == Inverse(key)
  {
    var r := Inverted(key, |key|);
    var q := Inverse(key);
    InvertedRecords(key, |key|);
    forall j | 0 <= j < |key| ensures r[j] == q[j] {
      assert key[q[j]] == j;
      assert r[key[q[j]]] == q[j];
    }
  }

  /** _get_inverse_key: fill [0] * n with inverse[k] = i for each entry k at position i. */
  method GetInverseKey(key: seq<int>) returns (inverse: seq<int>)
    requires InRange(key)
    ensures inverse == Inverted(key, |key|)
    ensures IsPermutation(key) ==> inverse == Inverse(key)
  {
    inverse := seq(|key|, _ => 0);
    for i := 0 to |key|
      invariant inverse == Inverted(key, i)
    {
      inverse := inverse[key[i] := i];
    }
    if IsPermutation(key) {
      InvertedIsInverse(key);
    }
  }

  // ---------------------------------------------------------------------------
  // transpose and inverse_transpose

  /** The text after `rounds` older rounds (an empty key is only usable with no round). */
  function Rounds(text: string, key: seq<int>, rounds: nat): string
    requires InRange(key) && (|key| > 0 || rounds == 0)
  {
    if rounds == 0 then text else Round(Rounds(text, key, rounds - 1), key)
  }

  /** transpose: the round `rounds` times over, the text unchanged when rounds <= 0. */
  method Transpose(text: string, key: seq<int>, rounds: int) returns (result: string)
    requires InRange(key) && (|key| > 0 || rounds <= 0)
    ensures result == Rounds(text, key, Runs(rounds))
  {
    result := text;
    for i := 0 to Runs(rounds)
      invariant result == Rounds(text, key, i)
    {
      result := SingleRoundTranspose(result, key);
    }
  }

  /** inverse_transpose as written: the forward round `rounds` times with the inverse key. */
  method InverseTranspose(text: string, key: seq<int>, rounds: int) returns (result: string)
    requires InRange(key) && (|key| > 0 || rounds <= 0)
    ensures result == Rounds(text, Inverted(key, |key|), Runs(rounds))
  {
    var inverseKey := GetInverseKey(key);
    result := Transpose(text, inverseKey, rounds);
  }

  /** Rounds keep whitespace-free text whitespace-free, its length and its characters. */
  lemma {:induction false} RoundsPermute(text: string, key: seq<int>, rounds: nat)
    requires IsOrder(key) && NoWhitespace(text) && |text| % |key| == 0
    ensures multiset(Rounds(text, key, rounds)) == multiset(text)
    ensures |Rounds(text, key, rounds)| == |text| && NoWhitespace(Rounds(text, key, rounds))
  {
    if rounds > 0 {
      var k := rounds - 1;
      RoundsPermute(text, key, k);
      RoundPermutes(Rounds(text, key, k), key);
      assert Rounds(text, key, k + 1) == Round(Rounds(text, key, k), key);
    }
  }

  /** The as-written inverse_transpose is no inverse: with key [1, 0], "ABCD" becomes "BDAC",
      and a round with the inverse key [1, 0] turns that into "DCBA", not "ABCD". */
  lemma InverseTransposeNotInverse(text: string, key: seq<int>)
    requires text == "ABCD" && key == [1, 0]
    ensures Inverted(key, |key|) == [1, 0]
    ensures Rounds(text, key, 1) == "BDAC"
    ensures Rounds(Rounds(text, key, 1), Inverted(key, |key|), 1) == "DCBA" != text
  {
    TwoByTwo(text, key);
    TwoByTwo("BDAC", key);
  }

  /** A round with key [1, 0] on four whitespace-free characters a b / c d gives b d a c. */
  lemma TwoByTwo(text: string, key: seq<int>)
    requires |text| == 4 && NoWhitespace(text) && key == [1, 0]
    ensures Round(text, key) == [text[1], text[3], text[0], text[2]]
  {
    RoundClosedForm(text, key, 2);
    var out := Round(text, key);
    assert out[Cell(0, 0, 2, 2)] == text[Cell(0, 1, 2, 2)];
    assert out[Cell(0, 1, 2, 2)] == text[Cell(1, 1, 2, 2)];
    assert out[Cell(1, 0, 2, 2)] == text[Cell(0, 0, 2, 2)];
    assert out[Cell(1, 1, 2, 2)] == text[Cell(1, 0, 2, 2)];
  }

  /** inverse_transpose as evidently intended: each round cuts the text into |key| runs and
      reads run j back into column key[j]. That is the core module's inverse round, given the
      key itself (counted from 1 there) rather than its inverse. */
  method CorrectedInverseTranspose(text: string, key: seq<int>, rounds: int) returns (result: string)
    requires IsOrder(key)
    ensures result == InverseRounds(text, key, Runs(rounds))
  {
    var numbered := Numbered(key);
    result := RunInverseRounds(text, numbered, rounds);
  }

  /** One corrected read-back round undoes one older round. */
  lemma CorrectedRound(text: string, key: seq<int>)
    requires IsOrder(key) && NoWhitespace(text) && |text| % |key| == 0
    ensures InverseTransposed(Round(text, key), key) == text
  {
    RoundAsCore(text, key);
    RoundTrip(text, Inverse(key));
    InverseInvolution(key);
  }

  /** The corrected inverse undoes any number of older rounds on whitespace-free text whose
      length the key length divides. */
  lemma {:induction false} CorrectedRoundTrip(text: string, key: seq<int>, rounds: nat)
    requires IsOrder(key) && NoWhitespace(text) && |text| % |key| == 0
    ensures InverseRounds(Rounds(text, key, rounds), key, rounds) == text
  {
    if rounds > 0 {
      var k := rounds - 1;
      CorrectedRoundTrip(text, key, k);
      CorrectedNextRound(text, key, k);
    }
  }

  /** The step of the induction: the claim for k rounds gives it for k + 1. */
  lemma CorrectedNextRound(text: string, key: seq<int>, k: nat)
    requires IsOrder(key) && NoWhitespace(text) && |text| % |key| == 0
    requires InverseRounds(Rounds(text, key, k), key, k) == text
    ensures InverseRounds(Rounds(text, key, k + 1), key, k + 1) == text
  {
    RoundsPermute(text, key, k);
    CorrectedStep(Rounds(text, key, k), key, k);
  }

  /** Peeling an older round off with the first of k + 1 read-back rounds. */
  lemma CorrectedStep(previous: string, key: seq<int>, k: nat)
    requires IsOrder(key) && NoWhitespace(previous) && |previous| % |key| == 0
    ensures InverseRounds(Round(previous, key), key, k + 1) == InverseRounds(previous, key, k)
  {
    CorrectedRound(previous, key);
  }
}
