/** The keyed column transposition of the pipeline. The text loses its whitespace, is upper-cased
    and is padded with the last letters of the alphabet up to a multiple of the key length n. A
    forward round deals character i into bucket key[i mod n] - 1 and joins the buckets; an inverse
    round cuts the text into columns and reads them back row by row. Keys count columns from 1;
    the specification functions take the 0-based slots key[i] - 1 the code indexes with. */
module ColumnTransposition {
  import opened Text
  import opened Arith

  /** ALPHABET: the 26 capital letters in order (AlphabetLiteral spells it out). */
  function Alphabet(): (r: string)
    ensures |r| == 26 && UpperLetters(r)
  {
    seq(26, i requires 0 <= i < 26 => (65 + i) as char)
  }

  /** Every entry names one of the |key| columns, counting from 1. */
  predicate KeyInRange(key: seq<int>) {
    |key| > 0 && forall i :: 0 <= i < |key| ==> 1 <= key[i] <= |key|
  }

  /** The 0-based column each entry of the key names: key[i] - 1. */
  function Slots(key: seq<int>): (r: seq<int>)
    ensures |r| == |key|
  {
    seq(|key|, i requires 0 <= i < |key| => key[i] - 1)
  }

  /** Every entry is a position of p. */
  predicate InRange(p: seq<int>) {
    forall i :: 0 <= i < |p| ==> 0 <= p[i] < |p|
  }

  /** A permutation of 0..|p| - 1: every entry in range, no entry twice, every position named. */
  predicate IsPermutation(p: seq<int>) {
    InRange(p)
    && (forall i, j :: 0 <= i < j < |p| ==> p[i] != p[j])
    && (forall v :: 0 <= v < |p| ==> v in p)
  }

  /** A key: a permutation of 1..n for some n >= 1. */
  predicate IsKey(key: seq<int>) {
    KeyInRange(key) && IsPermutation(Slots(key))
  }

  /** No lower-case ASCII letter, so upper() changes nothing. */
  predicate UpperCase(s: string) {
    forall i :: 0 <= i < |s| ==> !('a' <= s[i] <= 'z')
  }

  // ---------------------------------------------------------------------------
  // _prepare_text

  /** Only the letters A to Z. */
  predicate UpperLetters(s: string) {
    forall i :: 0 <= i < |s| ==> 'A' <= s[i] <= 'Z'
  }

  lemma AlphabetLiteral()
    ensures Alphabet() == "ABCDEFGHIJKLMNOPQRSTUVWXYZ"
  {
  }

  /** Every suffix of the alphabet is made of upper-case letters. */
  lemma AlphabetSuffix(k: nat)
    requires k <= 26
    ensures |Alphabet()| == 26 && UpperLetters(Alphabet()[k..])
  {
  }

  /** The padding step: for p = -len mod n, ALPHABET[-p:] is appended when p > 0. That is the
      last p letters of the alphabet, or all 26 when p is larger. */
  function Padded(clean: string, numColumns: nat): (r: string)
    requires numColumns > 0
    ensures clean <= r && |r| - |clean| <= 26
    ensures r[|clean|..] == Alphabet()[26 - (|r| - |clean|)..] && UpperLetters(r[|clean|..])
  {
    var paddingLength := -|clean| % numColumns;
    AlphabetSuffix(if paddingLength <= 26 then 26 - paddingLength else 0);
    if paddingLength > 0 then
      var r := clean + Alphabet()[if paddingLength <= 26 then 26 - paddingLength else 0..];
      assert r[|clean|..] == Alphabet()[if paddingLength <= 26 then 26 - paddingLength else 0..];
      r
    else
      clean
  }

  /** For n <= 27 the padding reaches the least multiple of n that holds the text. */
  lemma PaddedMultiple(clean: string, numColumns: nat)
    requires 0 < numColumns <= 27
    ensures |Padded(clean, numColumns)| % numColumns == 0
    ensures |Padded(clean, numColumns)| < |clean| + numColumns
  {
    PadToMultiple(|clean|, numColumns);
    MultipleAt(|clean|, numColumns, |Padded(clean, numColumns)|);
  }

  /** No padding is added when n already divides the length. */
  lemma PaddedNothing(clean: string, numColumns: nat)
    requires numColumns > 0 && |clean| % numColumns == 0
    ensures Padded(clean, numColumns) == clean
  {
    NegatedMultiple(|clean|, numColumns);
  }

  lemma NegatedMultiple(a: int, n: int)
    requires n > 0 && a % n == 0
    ensures -a % n == 0
  {
    var q := a / n;
    assert a == q * n;
    assert -a == (-q) * n;
    DivModUnique(-a, n, -q, 0);
  }

  /** _prepare_text: ''.join(text.split()).upper(), then padded. The result starts with the
      cleaned, upper-cased text and continues with the last letters of the alphabet. */
  function PrepareText(text: string, numColumns: nat): (r: string)
    requires numColumns > 0 && IsAscii(text)
    ensures Upper(RemoveWhitespace(text)) <= r && NoWhitespace(r) && IsAscii(r)
    ensures |r| - |RemoveWhitespace(text)| <= 26
    ensures r[|RemoveWhitespace(text)|..] == Alphabet()[26 - (|r| - |RemoveWhitespace(text)|)..]
  {
    var clean := Upper(Concat(SplitWhitespace(text)));
    CleanText(text);
    var r := Padded(clean, numColumns);
    Appended(clean, r[|clean|..]);
    assert r == clean + r[|clean|..];
    r
  }

  /** For n <= 27 the prepared length is the least multiple of n that holds the cleaned text. */
  lemma PreparedLength(text: string, numColumns: nat)
    requires 0 < numColumns <= 27 && IsAscii(text)
    ensures |PrepareText(text, numColumns)| % numColumns == 0
    ensures |PrepareText(text, numColumns)| < |RemoveWhitespace(text)| + numColumns
  {
    PaddedMultiple(Upper(Concat(SplitWhitespace(text))), numColumns);
  }

  lemma Appended(a: string, b: string)
    requires NoWhitespace(a) && IsAscii(a) && UpperLetters(b)
    ensures NoWhitespace(a + b) && IsAscii(a + b)
  {
  }

  lemma CleanText(text: string)
    requires IsAscii(text)
    ensures NoWhitespace(Upper(RemoveWhitespace(text))) && IsAscii(Upper(RemoveWhitespace(text)))
  {
    var s := RemoveWhitespace(text);
    forall i | 0 <= i < |s| ensures s[i] in multiset(text) {
      assert s[i] in multiset(s);
    }
    forall i | 0 <= i < |s| ensures s[i] as int < 128 {
      assert s[i] in multiset(text);
      var k :| 0 <= k < |text| && text[k] == s[i];
    }
  }

  /** Adding -a mod n to a reaches a multiple of n; for n <= 27 a positive pad is at most 26. */
  lemma PadToMultiple(a: int, n: int)
    requires n > 0
    ensures 0 <= -a % n < n && (a + -a % n) % n == 0
    ensures n <= 27 && -a % n > 0 ==> -a % n <= 26
  {
    var q := -a / n;
    assert -a == q * n + -a % n;
    DivModUnique(a + -a % n, n, -q, 0);
  }

  lemma MultipleAt(a: int, n: int, total: int)
    requires 0 < n <= 27 && (total == a + -a % n || (total == a && -a % n == 0))
    ensures total % n == 0 && a <= total < a + n
  {
    PadToMultiple(a, n);
  }

  /** Upper-case, whitespace-free text whose length is a multiple of n is already prepared. */
  lemma PrepareClean(text: string, numColumns: nat)
    requires numColumns > 0 && IsAscii(text) && NoWhitespace(text) && UpperCase(text)
    requires |text| % numColumns == 0
    ensures PrepareText(text, numColumns) == text
  {
    AlreadyClean(text);
    PaddedNothing(text, numColumns);
  }

  /** Cleaning changes nothing in upper-case, whitespace-free text. */
  lemma AlreadyClean(text: string)
    requires NoWhitespace(text) && UpperCase(text)
    ensures Upper(Concat(SplitWhitespace(text))) == text
  {
    RemoveWhitespaceNoop(text);
    assert Upper(text) == text;
  }

  /** Twenty-five clean letters on seven columns gain the three letters XYZ. */
  lemma PrepareExample(text: string, tail: string)
    requires |text| == 25 && IsAscii(text) && NoWhitespace(text) && UpperCase(text)
    requires tail == "XYZ"
    ensures PrepareText(text, 7) == text + tail
  {
    AlreadyClean(text);
    PaddedExample(text, tail);
  }

  lemma PaddedExample(text: string, tail: string)
    requires |text| == 25 && tail == "XYZ"
    ensures Padded(text, 7) == text + tail
  {
    assert -25 % 7 == 3;
    assert Alphabet()[23..] == tail;
  }

  // ---------------------------------------------------------------------------
  // _get_inverse_key

  /** The first `count` positions recorded: slot p[i] holds i, the slots not yet named -1. */
  function Recorded(p: seq<int>, count: nat): (r: seq<int>)
    requires IsPermutation(p) && count <= |p|
    ensures |r| == |p|
    ensures forall i :: 0 <= i < count ==> r[p[i]] == i
  {
    if count == 0 then seq(|p|, _ => -1)
    else Recorded(p, count - 1)[p[count - 1] := count - 1]
  }

  /** The inverse permutation: slot j holds the position at which p names j. */
  function Inverse(p: seq<int>): (r: seq<int>)
    requires IsPermutation(p)
    ensures |r| == |p| && IsPermutation(r)
    ensures forall i :: 0 <= i < |p| ==> r[p[i]] == i
    ensures forall j :: 0 <= j < |p| ==> p[r[j]] == j
  {
    InverseUndoes(p);
    InverseIsPermutation(p);
    Recorded(p, |p|)
  }

  lemma InverseUndoes(p: seq<int>)
    requires IsPermutation(p)
    ensures forall j :: 0 <= j < |p| ==> 0 <= Recorded(p, |p|)[j] < |p| && p[Recorded(p, |p|)[j]] == j
  {
    var r := Recorded(p, |p|);
    forall j | 0 <= j < |p| ensures 0 <= r[j] < |p| && p[r[j]] == j {
      assert j in p;
      var i :| 0 <= i < |p| && p[i] == j;
      assert r[p[i]] == i;
    }
  }

  lemma InverseIsPermutation(p: seq<int>)
    requires IsPermutation(p)
    ensures IsPermutation(Recorded(p, |p|))
  {
    var r := Recorded(p, |p|);
    InverseUndoes(p);
    forall v | 0 <= v < |p| ensures v in r {
      assert r[p[v]] == v;
    }
  }

  /** Inverting twice gives the permutation back. */
  lemma InverseInvolution(p: seq<int>)
    requires IsPermutation(p)
    ensures Inverse(Inverse(p)) == p
  {
    var q := Inverse(p);
    var back := Inverse(q);
    forall i | 0 <= i < |p| ensures back[i] == p[i] {
      assert back[q[p[i]]] == p[i];
    }
  }

  /** 0-based positions counted from 1 again. */
  function Numbered(q: seq<int>): (r: seq<int>)
    ensures |r| == |q| && Slots(r) == q
  {
    var r := seq(|q|, j requires 0 <= j < |q| => q[j] + 1);
    assert Slots(r) == q;
    r
  }

  /** The inverse key: slot j holds the position, from 1, at which key names column j + 1. It is
      itself a key, and its slots are the inverse permutation of the key's slots. */
  function InverseKey(key: seq<int>): (r: seq<int>)
    requires IsKey(key)
    ensures IsKey(r) && Slots(r) == Inverse(Slots(key))
  {
    Numbered(Inverse(Slots(key)))
  }

  /** In the source's own 1-based terms: inverse[key[i] - 1] == i + 1 and key[inverse[j] - 1] == j + 1. */
  lemma InverseKeyUndoes(key: seq<int>)
    requires IsKey(key)
    ensures forall i :: 0 <= i < |key| ==> InverseKey(key)[key[i] - 1] == i + 1
    ensures forall j :: 0 <= j < |key| ==> key[InverseKey(key)[j] - 1] == j + 1
  {
    var p, q := Slots(key), Slots(InverseKey(key));
    forall i | 0 <= i < |key| ensures InverseKey(key)[key[i] - 1] == i + 1 {
      assert q[p[i]] == i;
    }
    forall j | 0 <= j < |key| ensures key[InverseKey(key)[j] - 1] == j + 1 {
      assert p[q[j]] == j;
    }
  }

  /** Inverting a key twice gives the key back. */
  lemma InverseKeyInvolution(key: seq<int>)
    requires IsKey(key)
    ensures InverseKey(InverseKey(key)) == key
  {
    InverseInvolution(Slots(key));
    var back := InverseKey(InverseKey(key));
    assert Slots(back) == Slots(key);
    forall i | 0 <= i < |key| ensures back[i] == key[i] {
      assert Slots(back)[i] == Slots(key)[i];
    }
  }

  method GetInverseKey(key: seq<int>) returns (inverse: seq<int>)
    requires IsKey(key)
    ensures inverse == InverseKey(key)
  {
    ghost var p := Slots(key);
    inverse := seq(|key|, _ => 0);
    var i := 0;
    while i < |key|
      invariant 0 <= i <= |key|
      invariant inverse == Numbered(Recorded(p, i))
    {
      NumberedStep(p, i);
      inverse := inverse[key[i] - 1 := i + 1];
      i := i + 1;
    }
  }

  lemma NumberedStep(p: seq<int>, i: nat)
    requires IsPermutation(p) && i < |p|
    ensures Numbered(Recorded(p, i + 1)) == Numbered(Recorded(p, i))[p[i] := i + 1]
  {
  }

  // ---------------------------------------------------------------------------
  // _single_round_transpose

  /** The slots of a key in range are positions of the key. */
  lemma SlotsInRange(key: seq<int>)
    requires KeyInRange(key)
    ensures |Slots(key)| > 0 && InRange(Slots(key))
  {
  }

  /** A column order: a permutation of 0..n - 1 for some n >= 1, as the slots of a key are. */
  predicate IsOrder(p: seq<int>) {
    |p| > 0 && IsPermutation(p)
  }

  /** The buckets after the characters of text have been dealt: character i is appended to
      bucket p[i mod n]. */
  function Buckets(text: string, p: seq<int>): (r: seq<string>)
    requires |p| > 0 && InRange(p)
    ensures |r| == |p|
  {
    if text == [] then seq(|p|, _ => "")
    else
      var i := |text| - 1;
      var grid := Buckets(text[..i], p);
      var b := p[i % |p|];
      grid[b := grid[b] + [text[i]]]
  }

  /** One forward round: the buckets joined in order. */
  function Transposed(text: string, p: seq<int>): string
    requires |p| > 0 && InRange(p)
  {
    Concat(Buckets(text, p))
  }

  method SingleRoundTranspose(text: string, key: seq<int>) returns (result: string)
    requires KeyInRange(key)
    ensures result == Transposed(text, Slots(key))
  {
    ghost var p := Slots(key);
    var numColumns := |key|;
    var grid: seq<string> := seq(numColumns, _ => "");
    var i := 0;
    while i < |text|
      invariant 0 <= i <= |text|
      invariant grid == Buckets(text[..i], p)
    {
      assert text[..i + 1][..i] == text[..i];
      assert p[i % numColumns] == key[i % numColumns] - 1;
      grid := grid[key[i % numColumns] - 1 := grid[key[i % numColumns] - 1] + [text[i]]];
      i := i + 1;
    }
    assert text[..|text|] == text;
    result := Concat(grid);
  }

  /** A forward round keeps every character and adds none, for text of any length. */
  lemma {:induction false} TransposedPermutes(text: string, p: seq<int>)
    requires |p| > 0 && InRange(p)
    ensures |Transposed(text, p)| == |text| && multiset(Transposed(text, p)) == multiset(text)
  {
    if text == [] {
      ConcatUniformLength(Buckets(text, p), 0);
    } else {
      var i := |text| - 1;
      TransposedPermutes(text[..i], p);
      ConcatGrowPiece(Buckets(text[..i], p), p[i % |p|], text[i]);
      assert text == text[..i] + [text[i]];
    }
  }

  /** Every row of the grid is w characters wide. */
  predicate Uniform(grid: seq<string>, w: nat) {
    forall k :: 0 <= k < |grid| ==> |grid[k]| == w
  }

  /** Column c of a grid: character c of every row, top to bottom. */
  function Column(grid: seq<string>, c: nat): (r: string)
    requires forall k :: 0 <= k < |grid| ==> c < |grid[k]|
    ensures |r| == |grid|
  {
    seq(|grid|, k requires 0 <= k < |grid| => grid[k][c])
  }

  /** Row r read across the columns: character r of every column, left to right. */
  function Across(columns: seq<string>, r: nat): (s: string)
    requires forall c :: 0 <= c < |columns| ==> r < |columns[c]|
    ensures |s| == |columns|
  {
    seq(|columns|, c requires 0 <= c < |columns| => columns[c][r])
  }

  lemma ModShift(a: int, n: int, s: int)
    requires n > 0 && a % n == 0 && 0 <= s < n
    ensures (a + s) % n == s
  {
    DivModUnique(a + s, n, a / n, s);
  }

  lemma UniformLength(grid: seq<string>, w: nat)
    requires w > 0 && Uniform(grid, w)
    ensures |Concat(grid)| == |grid| * w && |Concat(grid)| % w == 0 && |Concat(grid)| / w == |grid|
  {
    ConcatUniformLength(grid, w);
    RowCol(|grid|, w, 0);
  }

  /** Text whose length is count * w is count rows of w characters joined. */
  lemma {:induction false} SplitEven(text: string, count: nat, w: nat) returns (grid: seq<string>)
    requires |text| == count * w
    ensures |grid| == count && Uniform(grid, w) && Concat(grid) == text
  {
    if count == 0 {
      grid := [];
    } else {
      assert count * w == w + (count - 1) * w;
      var rest := SplitEven(text[w..], count - 1, w);
      grid := [text[..w]] + rest;
      ConcatCons(text[..w], rest);
      assert text == text[..w] + text[w..];
    }
  }

  /** Dealing s more characters of a row of n appends row[c] to bucket p[c] once c < s. */
  lemma {:induction false} BucketsRow(text: string, row: string, p: seq<int>, s: nat, c: nat)
    requires IsOrder(p) && |text| % |p| == 0 && |row| == |p| && s <= |p| && c < |p|
    ensures Buckets(text + row[..s], p)[p[c]] == Buckets(text, p)[p[c]] + (if c < s then [row[c]] else [])
  {
    if s == 0 {
      assert text + row[..0] == text;
    } else {
      BucketsRow(text, row, p, s - 1, c);
      var t := text + row[..s];
      assert t[..|t| - 1] == text + row[..s - 1];
      assert t[|t| - 1] == row[s - 1];
      ModShift(|text|, |p|, s - 1);
    }
  }

  /** With the text laid out in rows of n, bucket p[c] receives column c: the characters of
      column c, top to bottom, in their original order. */
  lemma {:induction false} BucketsGrid(grid: seq<string>, p: seq<int>, c: nat)
    requires IsOrder(p) && Uniform(grid, |p|) && c < |p|
    ensures Buckets(Concat(grid), p)[p[c]] == Column(grid, c)
  {
    if grid != [] {
      var k := |grid| - 1;
      var prefix := grid[..k];
      assert grid == prefix + [grid[k]];
      ConcatAppend(prefix, grid[k]);
      BucketsGrid(prefix, p, c);
      UniformLength(prefix, |p|);
      BucketsRow(Concat(prefix), grid[k], p, |p|, c);
      assert grid[k][..|p|] == grid[k];
      ColumnSnoc(prefix, grid[k], c);
    }
  }

  /** Adding a row at the bottom adds its character c at the end of column c. */
  lemma ColumnSnoc(grid: seq<string>, row: string, c: nat)
    requires (forall k :: 0 <= k < |grid| ==> c < |grid[k]|) && c < |row|
    ensures Column(grid + [row], c) == Column(grid, c) + [row[c]]
  {
  }

  /** The columns of a grid of n-wide rows in the order p ranks them: block b is the column c
      with p[c] == b. */
  function ColumnsInOrder(grid: seq<string>, p: seq<int>): (r: seq<string>)
    requires IsOrder(p) && Uniform(grid, |p|)
    ensures |r| == |p| && Uniform(r, |grid|)
  {
    var inverse := Inverse(p);
    seq(|p|, b requires 0 <= b < |p| => Column(grid, inverse[b]))
  }

  /** With the text laid out in rows of n, a forward round emits the columns in key order. */
  lemma TransposedGrid(grid: seq<string>, p: seq<int>)
    requires IsOrder(p) && Uniform(grid, |p|)
    ensures Transposed(Concat(grid), p) == Concat(ColumnsInOrder(grid, p))
  {
    var inverse := Inverse(p);
    var buckets := Buckets(Concat(grid), p);
    var blocks := ColumnsInOrder(grid, p);
    forall b | 0 <= b < |p| ensures buckets[b] == blocks[b] {
      BucketsGrid(grid, p, inverse[b]);
    }
    assert buckets == blocks;
  }

  // ---------------------------------------------------------------------------
  // _single_round_inverse_transpose

  /** text[lo:hi] for lo <= hi: both ends stop at the end of the text. */
  function Slice(text: string, lo: nat, hi: nat): (r: string)
    requires lo <= hi
    ensures hi <= |text| ==> r == text[lo..hi]
    ensures |text| <= lo ==> r == []
  {
    if hi <= |text| then text[lo..hi] else if lo <= |text| then text[lo..] else ""
  }

  function Sum(s: seq<nat>): nat {
    if s == [] then 0 else Sum(s[..|s| - 1]) + s[|s| - 1]
  }

  /** The column lengths of an inverse round over len characters: ceil(len / n) each, one less
      for each column named by the first len mod n entries of p. When n divides len they are
      all len / n. */
  function ColumnLengths(len: nat, p: seq<int>): (r: seq<nat>)
    requires |p| > 0
    ensures |r| == |p|
    ensures len % |p| == 0 ==> forall j :: 0 <= j < |r| ==> r[j] == len / |p|
  {
    var rows := CeilDiv(len, |p|);
    seq(|p|, j => if j in p[..len % |p|] && rows > 0 then rows - 1 else rows)
  }

  /** The columns after the first `count` pieces have been cut: piece i has length lengths[i],
      starts where piece i - 1 ended, and becomes column p[i]. */
  function CutColumns(text: string, p: seq<int>, lengths: seq<nat>, count: nat): (r: seq<string>)
    requires InRange(p) && |lengths| == |p| && count <= |p|
    ensures |r| == |p|
  {
    if count == 0 then seq(|p|, _ => "")
    else
      var i := count - 1;
      var start := Sum(lengths[..i]);
      CutColumns(text, p, lengths, i)[p[i] := Slice(text, start, start + lengths[i])]
  }

  /** Character `row` of each of the first `count` columns, skipping the columns too short. */
  function RowOf(columns: seq<string>, row: nat, count: nat): string
    requires count <= |columns|
  {
    if count == 0 then ""
    else
      RowOf(columns, row, count - 1)
        + (if row < |columns[count - 1]| then [columns[count - 1][row]] else "")
  }

  /** The first `rows` rows of the read-back, one after another. */
  function ReadRows(columns: seq<string>, rows: nat): string {
    if rows == 0 then "" else ReadRows(columns, rows - 1) + RowOf(columns, rows - 1, |columns|)
  }

  /** max() of a non-empty list. */
  function Max(s: seq<nat>): (r: nat)
    requires s != []
    ensures r in s && forall i :: 0 <= i < |s| ==> s[i] <= r
  {
    if |s| == 1 then s[0]
    else
      var m := Max(s[..|s| - 1]);
      assert s == s[..|s| - 1] + [s[|s| - 1]];
      if s[|s| - 1] > m then s[|s| - 1] else m
  }

  /** One inverse round: cut the columns, then read max(column lengths) rows across them. */
  function InverseTransposed(text: string, p: seq<int>): string
    requires |p| > 0 && InRange(p)
  {
    var lengths := ColumnLengths(|text|, p);
    ReadRows(CutColumns(text, p, lengths, |p|), Max(lengths))
  }

  method SingleRoundInverseTranspose(text: string, key: seq<int>) returns (result: string)
    requires IsKey(key)
    ensures result == InverseTransposed(text, Slots(key))
  {
    var columnLengths := CountColumnLengths(|text|, key);
    var columns := CutText(text, key, columnLengths);
    result := ReadAcross(columns, Max(columnLengths));
  }

  /** The first loop: every column starts at ceil(len / n), and the columns named by the first
      len mod n key entries lose one. */
  method CountColumnLengths(len: nat, key: seq<int>) returns (columnLengths: seq<nat>)
    requires IsKey(key)
    ensures columnLengths == ColumnLengths(len, Slots(key))
  {
    ghost var p := Slots(key);
    var numColumns := |key|;
    var numRows := CeilDiv(len, numColumns);
    columnLengths := seq(numColumns, _ => numRows);
    var i := 0;
    while i < len % numColumns
      invariant 0 <= i <= len % numColumns
      invariant |columnLengths| == numColumns
      invariant forall j :: 0 <= j < numColumns ==>
        columnLengths[j] == if j in p[..i] && numRows > 0 then numRows - 1 else numRows
    {
      LengthStep(p, i);
      assert key[i] - 1 == p[i];
      columnLengths := columnLengths[key[i] - 1 := columnLengths[key[i] - 1] - 1];
      i := i + 1;
    }
  }

  /** The second loop: consecutive pieces of the given lengths, piece i into column key[i] - 1. */
  method CutText(text: string, key: seq<int>, columnLengths: seq<nat>) returns (columns: seq<string>)
    requires KeyInRange(key) && |columnLengths| == |key|
    ensures columns == CutColumns(text, Slots(key), columnLengths, |key|)
  {
    ghost var p := Slots(key);
    var numColumns := |key|;
    columns := seq(numColumns, _ => "");
    var index := 0;
    var i := 0;
    while i < numColumns
      invariant 0 <= i <= numColumns
      invariant index == Sum(columnLengths[..i])
      invariant columns == CutColumns(text, p, columnLengths, i)
    {
      assert columnLengths[..i + 1][..i] == columnLengths[..i];
      assert key[i] - 1 == p[i];
      columns := columns[key[i] - 1 := Slice(text, index, index + columnLengths[i])];
      index := index + columnLengths[i];
      i := i + 1;
    }
  }

  /** The nested loops: for each row below maxLength, character `row` of every column long enough. */
  method ReadAcross(columns: seq<string>, maxLength: nat) returns (result: string)
    ensures result == ReadRows(columns, maxLength)
  {
    result := "";
    var row := 0;
    while row < maxLength
      invariant 0 <= row <= maxLength
      invariant result == ReadRows(columns, row)
    {
      var c := 0;
      while c < |columns|
        invariant 0 <= c <= |columns|
        invariant result == ReadRows(columns, row) + RowOf(columns, row, c)
      {
        if row < |columns[c]| {
          result := result + [columns[c][row]];
        }
        c := c + 1;
      }
      row := row + 1;
    }
  }

  /** One more entry of a permutation: it was not among the earlier ones. */
  lemma LengthStep(p: seq<int>, i: nat)
    requires IsPermutation(p) && i < |p|
    ensures p[..i + 1] == p[..i] + [p[i]] && p[i] !in p[..i]
  {
    forall k | 0 <= k < i ensures p[..i][k] != p[i] {
      assert p[..i][k] == p[k];
    }
  }

  /** Pieces of one common length w add up to |s| * w. */
  lemma {:induction false} SumUniform(s: seq<nat>, w: nat)
    requires forall j :: 0 <= j < |s| ==> s[j] == w
    ensures Sum(s) == |s| * w
  {
    if s != [] {
      SumUniform(s[..|s| - 1], w);
      assert |s| * w == (|s| - 1) * w + w;
    }
  }

  /** In a join of pieces of one length w, piece k starts at k * w. */
  lemma PieceAt(pieces: seq<string>, w: nat, k: nat)
    requires Uniform(pieces, w) && k < |pieces|
    ensures k * w + w <= |Concat(pieces)|
    ensures Slice(Concat(pieces), k * w, k * w + w) == pieces[k]
  {
    assert pieces == pieces[..k] + [pieces[k]] + pieces[k + 1..];
    ConcatJoin(pieces[..k] + [pieces[k]], pieces[k + 1..]);
    ConcatAppend(pieces[..k], pieces[k]);
    ConcatUniformLength(pieces[..k], w);
  }

  /** Cutting n pieces of one length: piece k lands in column p[k]. */
  lemma {:induction false} CutPieces(pieces: seq<string>, p: seq<int>, lengths: seq<nat>, rows: nat, count: nat)
    requires IsPermutation(p) && |pieces| == |p| && Uniform(pieces, rows) && count <= |p|
    requires |lengths| == |p| && forall j :: 0 <= j < |lengths| ==> lengths[j] == rows
    ensures forall k :: 0 <= k < count ==> CutColumns(Concat(pieces), p, lengths, count)[p[k]] == pieces[k]
  {
    if count > 0 {
      var i := count - 1;
      CutPieces(pieces, p, lengths, rows, i);
      SumUniform(lengths[..i], rows);
      PieceAt(pieces, rows, i);
    }
  }

  /** A row of full columns is read across all of them. */
  lemma {:induction false} RowOfFull(columns: seq<string>, row: nat, count: nat)
    requires count <= |columns|
    requires forall c :: 0 <= c < |columns| ==> row < |columns[c]|
    ensures RowOf(columns, row, count) == Across(columns[..count], row)
  {
    if count > 0 {
      RowOfFull(columns, row, count - 1);
      assert Across(columns[..count], row) == Across(columns[..count - 1], row) + [columns[count - 1][row]];
    }
  }

  /** The rows 0..k - 1 read across columns at least k long. */
  function Lines(columns: seq<string>, k: nat): (r: seq<string>)
    requires forall c :: 0 <= c < |columns| ==> k <= |columns[c]|
    ensures |r| == k && Uniform(r, |columns|)
  {
    seq(k, r requires 0 <= r < k => Across(columns, r))
  }

  /** Reading k rows across columns at least k long gives the rows one after another. */
  lemma {:induction false} ReadRowsFull(columns: seq<string>, k: nat)
    requires forall c :: 0 <= c < |columns| ==> k <= |columns[c]|
    ensures ReadRows(columns, k) == Concat(Lines(columns, k))
  {
    if k > 0 {
      ReadRowsFull(columns, k - 1);
      RowOfFull(columns, k - 1, |columns|);
      assert columns[..|columns|] == columns;
      var lines := Lines(columns, k);
      assert lines == Lines(columns, k - 1) + [Across(columns, k - 1)];
      ConcatAppend(Lines(columns, k - 1), Across(columns, k - 1));
    }
  }

  /** The columns an inverse round cuts from n pieces: column c is the piece k with p[k] == c. */
  function Placed(pieces: seq<string>, p: seq<int>): (r: seq<string>)
    requires IsPermutation(p) && |pieces| == |p|
    ensures |r| == |p|
  {
    var inverse := Inverse(p);
    seq(|p|, c requires 0 <= c < |p| => pieces[inverse[c]])
  }

  /** When the text is n pieces of one length, an inverse round places piece k in column p[k]
      and reads the rows across the columns. */
  lemma InverseGrid(pieces: seq<string>, p: seq<int>, rows: nat)
    requires IsOrder(p) && |pieces| == |p| && Uniform(pieces, rows)
    ensures Uniform(Placed(pieces, p), rows)
    ensures InverseTransposed(Concat(pieces), p) == Concat(Lines(Placed(pieces, p), rows))
  {
    var n := |p|;
    var text := Concat(pieces);
    var inverse := Inverse(p);
    ConcatUniformLength(pieces, rows);
    RowCol(rows, n, 0);
    var lengths := ColumnLengths(|text|, p);
    assert lengths[0] == rows;
    var columns := CutColumns(text, p, lengths, n);
    CutPieces(pieces, p, lengths, rows, n);
    var placed := Placed(pieces, p);
    forall c | 0 <= c < n ensures columns[c] == placed[c] {
      assert columns[p[inverse[c]]] == pieces[inverse[c]];
    }
    assert columns == placed;
    ReadRowsFull(columns, rows);
  }

  // ---------------------------------------------------------------------------
  // Round trips

  /** With the text laid out in rows of n, one inverse round with the inverse order undoes one
      forward round. */
  lemma RoundTripGrid(grid: seq<string>, p: seq<int>)
    requires IsOrder(p) && Uniform(grid, |p|)
    ensures InverseTransposed(Transposed(Concat(grid), p), Inverse(p)) == Concat(grid)
  {
    var n, rows := |p|, |grid|;
    var inverse := Inverse(p);
    TransposedGrid(grid, p);
    var blocks := ColumnsInOrder(grid, p);
    InverseGrid(blocks, inverse, rows);
    InverseInvolution(p);
    var columns := Placed(blocks, inverse);
    forall c | 0 <= c < n ensures columns[c] == Column(grid, c) {
      assert columns[c] == blocks[p[c]];
    }
    LinesOfColumns(grid, columns);
  }

  /** Reading the rows across the columns of a grid gives the grid back. */
  lemma LinesOfColumns(grid: seq<string>, columns: seq<string>)
    requires Uniform(grid, |columns|)
    requires forall c :: 0 <= c < |columns| ==> columns[c] == Column(grid, c)
    ensures Uniform(columns, |grid|) && Lines(columns, |grid|) == grid
  {
    var lines := Lines(columns, |grid|);
    forall r | 0 <= r < |grid| ensures lines[r] == grid[r] {
    }
  }

  /** Taking the columns of the rows read across some columns gives those columns back. */
  lemma ColumnOfLines(columns: seq<string>, rows: nat, c: nat)
    requires Uniform(columns, rows) && c < |columns|
    ensures Column(Lines(columns, rows), c) == columns[c]
  {
  }

  /** With the text cut into n pieces of one length, a forward round undoes one inverse round
      with the inverse order. */
  lemma RoundTripPieces(pieces: seq<string>, p: seq<int>, rows: nat)
    requires IsOrder(p) && |pieces| == |p| && Uniform(pieces, rows)
    ensures Transposed(InverseTransposed(Concat(pieces), Inverse(p)), p) == Concat(pieces)
  {
    var n := |p|;
    var inverse := Inverse(p);
    InverseGrid(pieces, inverse, rows);
    InverseInvolution(p);
    var columns := Placed(pieces, inverse);
    var grid := Lines(columns, rows);
    TransposedGrid(grid, p);
    var blocks := ColumnsInOrder(grid, p);
    forall b | 0 <= b < n ensures blocks[b] == pieces[b] {
      ColumnOfLines(columns, rows, inverse[b]);
    }
    assert blocks == pieces;
  }

  /** When n divides the length, one inverse round with the inverse order undoes one forward
      round. */
  lemma RoundTrip(text: string, p: seq<int>)
    requires IsOrder(p) && |text| % |p| == 0
    ensures InverseTransposed(Transposed(text, p), Inverse(p)) == text
  {
    var grid := SplitEven(text, |text| / |p|, |p|);
    RoundTripGrid(grid, p);
  }

  /** And in the other order: a forward round undoes an inverse round with the inverse order. */
  lemma RoundTripBack(text: string, p: seq<int>)
    requires IsOrder(p) && |text| % |p| == 0
    ensures Transposed(InverseTransposed(text, Inverse(p)), p) == text
  {
    var pieces := SplitEven(text, |p|, |text| / |p|);
    RoundTripPieces(pieces, p, |text| / |p|);
  }

  /** In the source's 1-based terms: [3, 1, 2] is a key, and its inverse key is [2, 3, 1]. */
  lemma ThreeKey(key: seq<int>)
    requires key == [3, 1, 2]
    ensures IsKey(key) && InverseKey(key) == [2, 3, 1]
  {
    var p := Slots(key);
    assert p == [2, 0, 1];
    ThreeSlots(p);
    assert IsKey(key);
    var inverse := InverseKey(key);
    assert Slots(inverse) == [1, 2, 0];
    assert inverse[0] - 1 == 1 && inverse[1] - 1 == 2 && inverse[2] - 1 == 0;
  }

  /** The slots [2, 0, 1] of the key [3, 1, 2] are a column order; its inverse is [1, 2, 0]. */
  lemma ThreeSlots(p: seq<int>)
    requires p == [2, 0, 1]
    ensures IsOrder(p) && Inverse(p) == [1, 2, 0]
  {
    forall v | 0 <= v < 3 ensures v in p {
      assert v == p[1] || v == p[2] || v == p[0];
    }
    var inverse := Inverse(p);
    assert inverse[p[0]] == 0 && inverse[p[1]] == 1 && inverse[p[2]] == 2;
  }

  /** On three columns with slots [2, 0, 1] a forward round emits column 1, column 2, then
      column 0 of the rows. */
  lemma ThreeColumns(grid: seq<string>, p: seq<int>)
    requires p == [2, 0, 1] && Uniform(grid, 3)
    ensures IsOrder(p)
    ensures Transposed(Concat(grid), p) == Column(grid, 1) + Column(grid, 2) + Column(grid, 0)
  {
    ThreeSlots(p);
    TransposedGrid(grid, p);
    var blocks := ColumnsInOrder(grid, p);
    assert blocks == [Column(grid, 1), Column(grid, 2), Column(grid, 0)];
    ConcatThree(blocks[0], blocks[1], blocks[2]);
  }

  /** Nine characters in three rows of three: a round with slots [2, 0, 1] reads the middle
      column, then the right one, then the left one. */
  lemma NineCharacters(s: string, p: seq<int>)
    requires |s| == 9 && p == [2, 0, 1]
    ensures Transposed(s, p) == [s[1], s[4], s[7], s[2], s[5], s[8], s[0], s[3], s[6]]
  {
    var grid := [s[..3], s[3..6], s[6..]];
    ConcatThree(grid[0], grid[1], grid[2]);
    assert s == grid[0] + grid[1] + grid[2];
    ThreeColumns(grid, p);
    assert Column(grid, 1) == [s[1], s[4], s[7]];
    assert Column(grid, 2) == [s[2], s[5], s[8]];
    assert Column(grid, 0) == [s[0], s[3], s[6]];
  }

  /** "DID YOU SEE" under the key [3, 1, 2]: one round gives IOEDUEDYS, a second OUYEESIDD, and
      the inverse rounds lead back. */
  lemma DidYouSee(key: seq<int>, text: string, once: string, twice: string)
    requires key == [3, 1, 2] && text == "DIDYOUSEE" && once == "IOEDUEDYS" && twice == "OUYEESIDD"
    ensures Transposed(text, Slots(key)) == once
    ensures Transposed(once, Slots(key)) == twice
  {
    var p := Slots(key);
    assert p == [2, 0, 1];
    NineCharacters(text, p);
    NineCharacters(once, p);
  }

  /** And back: one inverse round takes IOEDUEDYS to DIDYOUSEE, two take OUYEESIDD there. */
  lemma DidYouSeeBack(key: seq<int>, text: string, once: string, twice: string)
    requires key == [3, 1, 2] && text == "DIDYOUSEE" && once == "IOEDUEDYS" && twice == "OUYEESIDD"
    ensures IsKey(key)
    ensures InverseRounds(once, Inverse(Slots(key)), 1) == text
    ensures InverseRounds(twice, Inverse(Slots(key)), 2) == text
  {
    var p := Slots(key);
    DidYouSee(key, text, once, twice);
    ThreeColumns([], p);
    RoundsRoundTrip(text, p, 1);
    RoundsRoundTrip(text, p, 2);
    assert TransposedRounds(text, p, 2) == twice;
  }

  // ---------------------------------------------------------------------------
  // transpose and inverse_transpose

  /** len(range(rounds)): how many times a loop over range(rounds) runs. */
  function Runs(rounds: int): (r: nat)
    ensures rounds <= 0 ==> r == 0
    ensures rounds >= 0 ==> r == rounds
  {
    if rounds < 0 then 0 else rounds
  }

  /** The text after `rounds` forward rounds: the same characters, in a new order. */
  function TransposedRounds(text: string, p: seq<int>, rounds: nat): (r: string)
    requires |p| > 0 && InRange(p)
    ensures |r| == |text|
  {
    if rounds == 0 then text
    else
      var previous := TransposedRounds(text, p, rounds - 1);
      TransposedPermutes(previous, p);
      Transposed(previous, p)
  }

  /** However many rounds run, the characters are only moved. */
  lemma {:induction false} TransposedRoundsPermutes(text: string, p: seq<int>, rounds: nat)
    requires |p| > 0 && InRange(p)
    ensures multiset(TransposedRounds(text, p, rounds)) == multiset(text)
  {
    if rounds > 0 {
      TransposedRoundsPermutes(text, p, rounds - 1);
      TransposedPermutes(TransposedRounds(text, p, rounds - 1), p);
    }
  }

  /** The text after `rounds` inverse rounds, the first one applied first. */
  function InverseRounds(text: string, p: seq<int>, rounds: nat): string
    requires |p| > 0 && InRange(p)
    decreases rounds
  {
    if rounds == 0 then text else InverseRounds(InverseTransposed(text, p), p, rounds - 1)
  }

  lemma {:induction false} InverseRoundsStep(text: string, p: seq<int>, rounds: nat)
    requires |p| > 0 && InRange(p)
    ensures InverseRounds(text, p, rounds + 1) == InverseTransposed(InverseRounds(text, p, rounds), p)
    decreases rounds
  {
    if rounds > 0 {
      var k, next := rounds - 1, InverseTransposed(text, p);
      InverseRoundsStep(next, p, k);
      assert InverseRounds(text, p, rounds) == InverseRounds(next, p, k);
    }
  }

  /** transpose: prepare the text once, then run the forward round `rounds` times (no round
      when rounds <= 0). */
  method Transpose(text: string, key: seq<int>, rounds: int) returns (result: string)
    requires IsAscii(text) && KeyInRange(key)
    ensures result == TransposedRounds(PrepareText(text, |key|), Slots(key), Runs(rounds))
  {
    result := PrepareText(text, |key|);
    result := RunForwardRounds(result, key, rounds);
  }

  /** The loop of transpose: `for _ in range(rounds)` over the forward round. */
  method RunForwardRounds(text: string, key: seq<int>, rounds: int) returns (result: string)
    requires KeyInRange(key)
    ensures result == TransposedRounds(text, Slots(key), Runs(rounds))
  {
    ghost var p := Slots(key);
    SlotsInRange(key);
    result := text;
    var i := 0;
    while i < rounds
      invariant 0 <= i <= Runs(rounds)
      invariant result == TransposedRounds(text, p, i)
    {
      result := SingleRoundTranspose(result, key);
      i := i + 1;
    }
  }

  /** inverse_transpose: invert the key, then run the inverse round `rounds` times. */
  method InverseTranspose(text: string, key: seq<int>, rounds: int) returns (result: string)
    requires IsKey(key)
    ensures result == InverseRounds(text, Inverse(Slots(key)), Runs(rounds))
  {
    var inverseKey := GetInverseKey(key);
    result := RunInverseRounds(text, inverseKey, rounds);
  }

  /** The loop of inverse_transpose: `for _ in range(rounds)` over the inverse round. */
  method RunInverseRounds(text: string, key: seq<int>, rounds: int) returns (result: string)
    requires IsKey(key)
    ensures result == InverseRounds(text, Slots(key), Runs(rounds))
  {
    result := text;
    var i := 0;
    while i < rounds
      invariant 0 <= i <= Runs(rounds)
      invariant result == InverseRounds(text, Slots(key), i)
    {
      result := SingleRoundInverseTranspose(result, key);
      InverseRoundsStep(text, Slots(key), i);
      i := i + 1;
    }
  }

  /** Any number of inverse rounds undoes as many forward rounds, when n divides the length. */
  lemma {:induction false} RoundsRoundTrip(text: string, p: seq<int>, rounds: nat)
    requires IsOrder(p) && |text| % |p| == 0
    ensures InverseRounds(TransposedRounds(text, p, rounds), Inverse(p), rounds) == text
    decreases rounds
  {
    if rounds > 0 {
      var k := rounds - 1;
      RoundsStep(text, p, k);
      RoundsRoundTrip(text, p, k);
    }
  }

  /** One more forward round is undone by one more inverse round. */
  lemma RoundsStep(text: string, p: seq<int>, k: nat)
    requires IsOrder(p) && |text| % |p| == 0
    ensures InverseRounds(TransposedRounds(text, p, k + 1), Inverse(p), k + 1)
      == InverseRounds(TransposedRounds(text, p, k), Inverse(p), k)
  {
    var previous := TransposedRounds(text, p, k);
    RoundTrip(previous, p);
  }

  /** inverse_transpose(transpose(t, key, r), key, r) is the prepared text, for every number of
      rounds and every key of at most 26 columns (the key validator's bound). */
  lemma TransposeRoundTrip(text: string, key: seq<int>, rounds: nat)
    requires IsAscii(text) && IsKey(key) && |key| <= 26
    ensures InverseRounds(TransposedRounds(PrepareText(text, |key|), Slots(key), rounds), Inverse(Slots(key)), rounds)
      == PrepareText(text, |key|)
  {
    PreparedLength(text, |key|);
    RoundsRoundTrip(PrepareText(text, |key|), Slots(key), rounds);
  }

  /** Hence upper-case, whitespace-free text whose length is a multiple of n comes back unchanged. */
  lemma CleanRoundTrip(text: string, key: seq<int>, rounds: nat)
    requires IsAscii(text) && NoWhitespace(text) && UpperCase(text)
    requires IsKey(key) && |text| % |key| == 0
    ensures InverseRounds(TransposedRounds(PrepareText(text, |key|), Slots(key), rounds), Inverse(Slots(key)), rounds)
      == text
  {
    PrepareClean(text, |key|);
    RoundsRoundTrip(text, Slots(key), rounds);
  }
}
