/** Simplified DES (Schaefer's teaching cipher) on strings of '0'/'1' characters: the fixed
    tables, the two-subkey schedule, the Feistel round function fK and the two-round cipher.
    The source never checks the length or alphabet of a block or key, so those are
    preconditions here. */
module Sdes {
  import opened Text
  import opened Digits

  const IP: seq<nat> := [2, 6, 3, 1, 4, 8, 5, 7]
  const IP_INV: seq<nat> := [4, 1, 3, 5, 7, 2, 8, 6]
  const EP: seq<nat> := [4, 1, 2, 3, 2, 3, 4, 1]
  const P4: seq<nat> := [2, 4, 3, 1]
  const P10: seq<nat> := [3, 5, 2, 7, 4, 10, 1, 9, 8, 6]
  const P8: seq<nat> := [6, 3, 7, 4, 8, 5, 10, 9]
  const S0: seq<seq<nat>> := [[1, 0, 3, 2], [3, 2, 1, 0], [0, 2, 1, 3], [3, 1, 3, 2]]
  const S1: seq<seq<nat>> := [[0, 1, 2, 3], [2, 0, 1, 3], [3, 0, 1, 0], [2, 1, 0, 3]]

  /** Which key bits (1-based) end up in K1 and in K2: the key schedule composed by hand
      from P10, the two half rotations and P8. */
  const K1_TAPS: seq<nat> := [1, 7, 9, 4, 8, 3, 10, 6]
  const K2_TAPS: seq<nat> := [8, 3, 6, 5, 10, 2, 9, 1]

  /** An 8-bit block. */
  predicate IsBlock(s: string) {
    |s| == 8 && IsBits(s)
  }

  /** A 10-bit key, exactly what the key validator of the user interface accepts. */
  predicate IsKey(s: string) {
    |s| == 10 && IsBits(s)
  }

  /** A permutation table for an n-bit input: 1-based positions between 1 and n. */
  predicate IsTableFor(table: seq<nat>, n: nat) {
    forall j :: 0 <= j < |table| ==> 1 <= table[j] <= n
  }

  /** A 4 x 4 S-box of 2-bit values. */
  predicate IsBox(box: seq<seq<nat>>) {
    |box| == 4 && forall i :: 0 <= i < 4 ==> |box[i]| == 4 && forall j :: 0 <= j < 4 ==> box[i][j] < 4
  }

  /** Every fixed table fits the input it is applied to. */
  lemma TablesWellFormed()
    ensures IsTableFor(IP, 8) && IsTableFor(IP_INV, 8) && IsTableFor(EP, 4) && IsTableFor(P4, 4)
    ensures IsTableFor(P10, 10) && IsTableFor(P8, 10)
    ensures IsTableFor(K1_TAPS, 10) && IsTableFor(K2_TAPS, 10)
  {
    forall j | 0 <= j < 10
      ensures j < 8 ==> 1 <= IP[j] <= 8 && 1 <= IP_INV[j] <= 8 && 1 <= EP[j] <= 4
      ensures j < 8 ==> 1 <= P8[j] <= 10 && 1 <= K1_TAPS[j] <= 10 && 1 <= K2_TAPS[j] <= 10
      ensures j < 4 ==> 1 <= P4[j] <= 4
      ensures 1 <= P10[j] <= 10
    {
      assert j == 0 || j == 1 || j == 2 || j == 3 || j == 4 || j == 5 || j == 6 || j == 7 || j == 8 || j == 9;
    }
  }

  lemma BoxesWellFormed()
    ensures IsBox(S0) && IsBox(S1)
  {
    forall i, j | 0 <= i < 4 && 0 <= j < 4
      ensures |S0[i]| == 4 && |S1[i]| == 4 && S0[i][j] < 4 && S1[i][j] < 4
    {
      assert i == 0 || i == 1 || i == 2 || i == 3;
      assert j == 0 || j == 1 || j == 2 || j == 3;
    }
  }

  /** Output bit j is input bit table[j], counting from 1. */
  function Permute(bits: string, table: seq<nat>): (r: string)
    requires IsTableFor(table, |bits|)
    ensures |r| == |table|
    ensures forall j :: 0 <= j < |table| ==> r[j] == bits[table[j] - 1]
    ensures IsBits(bits) ==> IsBits(r)
  {
    if table == [] then [] else [bits[table[0] - 1]] + Permute(bits, table[1..])
  }

  /** str(int(x) ^ int(y)) for two bit characters. */
  function XorBit(x: char, y: char): (r: char)
    requires IsBit(x) && IsBit(y)
    ensures IsBit(r) && (r == '1' <==> x != y)
  {
    if BitValue(x) + BitValue(y) == 1 then '1' else '0'
  }

  /** Bitwise exclusive or over the common prefix of the two strings (zip stops at the shorter). */
  function Xor(a: string, b: string): (r: string)
    requires IsBits(a) && IsBits(b)
    ensures |r| == if |a| < |b| then |a| else |b|
    ensures forall i :: 0 <= i < |r| ==> (r[i] == '1' <==> a[i] != b[i])
    ensures IsBits(r)
  {
    seq(if |a| < |b| then |a| else |b|, i requires 0 <= i < |a| && i < |b| => XorBit(a[i], b[i]))
  }

  /** Circular left shift by n (Python's bits[n:] + bits[:n]; a shift past the end is no shift). */
  function LeftShift(bits: string, n: nat): (r: string)
    ensures |r| == |bits|
    ensures n <= |bits| ==> forall i :: 0 <= i < |bits| ==>
      r[i] == bits[if i + n < |bits| then i + n else i + n - |bits|]
  {
    RotateLeft(bits, n)
  }

  /** Swap the two 4-bit halves of a block. */
  function Switch(bits: string): (r: string)
    requires |bits| == 8
    ensures |r| == 8 && r[..4] == bits[4..] && r[4..] == bits[..4]
    ensures IsBits(bits) ==> IsBits(r)
  {
    RotateLeft(bits, 4)
  }

  /** S-box lookup: the row is read from bits 0 and 3, the column from bits 1 and 2, and the
      entry is written as two bits, format(v, '02b') (the same string as zfill(bin(v)[2:], 2),
      by Digits.ZFillMinDigits). */
  function Sbox(bits: string, box: seq<seq<nat>>): (r: string)
    requires |bits| == 4 && IsBits(bits) && IsBox(box)
    ensures |r| == 2 && IsBits(r)
  {
    var v := box[Value([bits[0], bits[3]], 2)][Value(bits[1..3], 2)];
    TwoBitValue(Fixed(v, 2, 2));
    Fixed(v, 2, 2)
  }

  /** The two output bits of an S-box spell, high bit first, the entry at the row named by
      input bits 0 and 3 and the column named by input bits 1 and 2. */
  lemma SboxLookup(bits: string, box: seq<seq<nat>>)
    requires |bits| == 4 && IsBits(bits) && IsBox(box)
    ensures var r := Sbox(bits, box);
      2 * BitValue(r[0]) + BitValue(r[1])
      == box[2 * BitValue(bits[0]) + BitValue(bits[3])][2 * BitValue(bits[1]) + BitValue(bits[2])]
  {
    var rowDigits := [bits[0], bits[3]];
    var colDigits := bits[1..3];
    TwoBitValue(rowDigits);
    TwoBitValue(colDigits);
    var v := box[Value(rowDigits, 2)][Value(colDigits, 2)];
    ValueOfFixed(v, 2, 2);
    TwoBitValue(Fixed(v, 2, 2));
  }

  /** int(s, 2) of a two-character bit string. */
  lemma TwoBitValue(s: string)
    requires |s| == 2 && (IsBits(s) || Canonical(s, 2))
    ensures AllDigits(s, 2) && IsBits(s)
    ensures Value(s, 2) == 2 * BitValue(s[0]) + BitValue(s[1])
  {
    assert DigitChar(0) == '0' && DigitChar(1) == '1';
    assert s[..1][..0] == [];
  }

  /** Two S-boxes side by side: the first on the first four bits, the second on the last four. */
  function SboxPair(first: string, last: string, box0: seq<seq<nat>>, box1: seq<seq<nat>>): (r: string)
    requires |first| == 4 && IsBits(first) && |last| == 4 && IsBits(last)
    requires IsBox(box0) && IsBox(box1)
    ensures |r| == 4 && IsBits(r)
  {
    Sbox(first, box0) + Sbox(last, box1)
  }

  /** The mixing function of a round: expand the right half, add the subkey, substitute
      through both S-boxes and permute with P4. */
  function Mix(right: string, subkey: string): (r: string)
    requires |right| == 4 && IsBits(right) && IsBlock(subkey)
    ensures |r| == 4 && IsBits(r)
  {
    TablesWellFormed();
    var expanded := Permute(right, EP);
    var mixed := Xor(expanded, subkey);
    BoxesWellFormed();
    Permute(SboxPair(mixed[..4], mixed[4..], S0, S1), P4)
  }

  /** fK: the right half passes through, the left half is XORed with the mixed right half. */
  function RoundFunction(bits: string, subkey: string): (r: string)
    requires IsBlock(bits) && IsBlock(subkey)
    ensures IsBlock(r)
    ensures r[4..] == bits[4..]
    ensures r[..4] == Xor(bits[..4], Mix(bits[4..], subkey))
  {
    Xor(bits[..4], Mix(bits[4..], subkey)) + bits[4..]
  }

  /** The key schedule: P10, rotate each 5-bit half left by 1 for K1 and by 3 for K2, then P8. */
  function GenerateSubkeys(key: string): (r: (string, string))
    requires IsKey(key)
    ensures IsBlock(r.0) && IsBlock(r.1)
    ensures r.0 == Permute(key, K1_TAPS) && r.1 == Permute(key, K2_TAPS)
  {
    TablesWellFormed();
    var permuted := Permute(key, P10);
    var left, right := permuted[..5], permuted[5..];
    var k1 := Permute(LeftShift(left, 1) + LeftShift(right, 1), P8);
    var k2 := Permute(LeftShift(left, 3) + LeftShift(right, 3), P8);
    SubkeyTaps(key, permuted, k1, k2);
    (k1, k2)
  }

  lemma SubkeyTaps(key: string, permuted: string, k1: string, k2: string)
    requires IsKey(key) && permuted == Permute(key, P10)
    requires k1 == Permute(LeftShift(permuted[..5], 1) + LeftShift(permuted[5..], 1), P8)
    requires k2 == Permute(LeftShift(permuted[..5], 3) + LeftShift(permuted[5..], 3), P8)
    ensures k1 == Permute(key, K1_TAPS) && k2 == Permute(key, K2_TAPS)
  {
    TablesWellFormed();
    P10Taps(key, permuted);
    var s1 := LeftShift(permuted[..5], 1) + LeftShift(permuted[5..], 1);
    var s3 := LeftShift(permuted[..5], 3) + LeftShift(permuted[5..], 3);
    HalvesShifted(permuted, s1, s3);
    K1Taps(key, s1, k1);
    K2Taps(key, s3, k2);
  }

  lemma P10Taps(key: string, p: string)
    requires |key| == 10 && p == Permute(key, P10)
    ensures |p| == 10
    ensures p[0] == key[2] && p[1] == key[4] && p[2] == key[1] && p[3] == key[6] && p[4] == key[3]
    ensures p[5] == key[9] && p[6] == key[0] && p[7] == key[8] && p[8] == key[7] && p[9] == key[5]
  {
    TablesWellFormed();
  }

  /** Rotating each 5-bit half left by one and by three. */
  lemma HalvesShifted(p: string, s1: string, s3: string)
    requires |p| == 10
    requires s1 == LeftShift(p[..5], 1) + LeftShift(p[5..], 1)
    requires s3 == LeftShift(p[..5], 3) + LeftShift(p[5..], 3)
    ensures |s1| == 10 && |s3| == 10
    ensures s1[0] == p[1] && s1[1] == p[2] && s1[2] == p[3] && s1[3] == p[4] && s1[4] == p[0]
    ensures s1[5] == p[6] && s1[6] == p[7] && s1[7] == p[8] && s1[8] == p[9] && s1[9] == p[5]
    ensures s3[0] == p[3] && s3[1] == p[4] && s3[2] == p[0] && s3[3] == p[1] && s3[4] == p[2]
    ensures s3[5] == p[8] && s3[6] == p[9] && s3[7] == p[5] && s3[8] == p[6] && s3[9] == p[7]
  {
    var l, r := LeftShift(p[..5], 1), LeftShift(p[5..], 1);
    assert l[0] == p[1] && l[1] == p[2] && l[2] == p[3] && l[3] == p[4] && l[4] == p[0];
    assert r[0] == p[6] && r[1] == p[7] && r[2] == p[8] && r[3] == p[9] && r[4] == p[5];
    var l3, r3 := LeftShift(p[..5], 3), LeftShift(p[5..], 3);
    assert l3[0] == p[3] && l3[1] == p[4] && l3[2] == p[0] && l3[3] == p[1] && l3[4] == p[2];
    assert r3[0] == p[8] && r3[1] == p[9] && r3[2] == p[5] && r3[3] == p[6] && r3[4] == p[7];
  }

  lemma K1Taps(key: string, s1: string, k1: string)
    requires |key| == 10 && |s1| == 10 && k1 == Permute(s1, P8)
    requires s1[0] == key[4] && s1[1] == key[1] && s1[2] == key[6] && s1[3] == key[3] && s1[4] == key[2]
    requires s1[5] == key[0] && s1[6] == key[8] && s1[7] == key[7] && s1[8] == key[5] && s1[9] == key[9]
    ensures k1 == Permute(key, K1_TAPS)
  {
    TablesWellFormed();
    var a := Permute(key, K1_TAPS);
    forall i | 0 <= i < 8
      ensures k1[i] == a[i]
    {
      assert k1[i] == s1[P8[i] - 1] && a[i] == key[K1_TAPS[i] - 1];
      assert i == 0 || i == 1 || i == 2 || i == 3 || i == 4 || i == 5 || i == 6 || i == 7;
    }
  }

  lemma K2Taps(key: string, s3: string, k2: string)
    requires |key| == 10 && |s3| == 10 && k2 == Permute(s3, P8)
    requires s3[0] == key[6] && s3[1] == key[3] && s3[2] == key[2] && s3[3] == key[4] && s3[4] == key[1]
    requires s3[5] == key[7] && s3[6] == key[5] && s3[7] == key[9] && s3[8] == key[0] && s3[9] == key[8]
    ensures k2 == Permute(key, K2_TAPS)
  {
    TablesWellFormed();
    var b := Permute(key, K2_TAPS);
    forall i | 0 <= i < 8
      ensures k2[i] == b[i]
    {
      assert k2[i] == s3[P8[i] - 1] && b[i] == key[K2_TAPS[i] - 1];
      assert i == 0 || i == 1 || i == 2 || i == 3 || i == 4 || i == 5 || i == 6 || i == 7;
    }
  }

  /** The two-round network with explicit round keys: IP, fK(first), switch, fK(second), IP^-1.
      There is no switch after the second round. */
  function Rounds(text: string, first: string, second: string): (r: string)
    requires IsBlock(text) && IsBlock(first) && IsBlock(second)
    ensures IsBlock(r)
  {
    TablesWellFormed();
    var permuted := Permute(text, IP);
    var firstOut := RoundFunction(permuted, first);
    var switched := Switch(firstOut);
    var secondOut := RoundFunction(switched, second);
    Permute(secondOut, IP_INV)
  }

  /** _crypt: encryption uses K1 then K2, decryption K2 then K1. */
  function Crypt(text: string, key: string, encrypt: bool): (r: string)
    requires IsBlock(text) && IsKey(key)
    ensures IsBlock(r)
    ensures encrypt ==> r == Rounds(text, Permute(key, K1_TAPS), Permute(key, K2_TAPS))
    ensures !encrypt ==> r == Rounds(text, Permute(key, K2_TAPS), Permute(key, K1_TAPS))
  {
    TablesWellFormed();
    var subkeys := GenerateSubkeys(key);
    if encrypt then Rounds(text, subkeys.0, subkeys.1) else Rounds(text, subkeys.1, subkeys.0)
  }

  function Encrypt(plaintext: string, key: string): (r: string)
    requires IsBlock(plaintext) && IsKey(key)
    ensures IsBlock(r)
  {
    Crypt(plaintext, key, true)
  }

  function Decrypt(ciphertext: string, key: string): (r: string)
    requires IsBlock(ciphertext) && IsKey(key)
    ensures IsBlock(r)
  {
    Crypt(ciphertext, key, false)
  }

  // ---------------------------------------------------------------------------
  // Properties

  /** u undoes t: output position j of u reads the position t sent there. */
  predicate UndoesTable(t: seq<nat>, u: seq<nat>) {
    |t| == |u| && IsTableFor(t, |u|) && IsTableFor(u, |t|)
    && forall j :: 0 <= j < |u| ==> t[u[j] - 1] == j + 1
  }

  lemma {:induction false} PermuteUndo(bits: string, t: seq<nat>, u: seq<nat>)
    requires UndoesTable(t, u) && |bits| == |t|
    ensures Permute(Permute(bits, t), u) == bits
  {
    var p := Permute(bits, t);
    var q := Permute(p, u);
    forall j | 0 <= j < |bits|
      ensures q[j] == bits[j]
    {
      assert q[j] == p[u[j] - 1];
    }
  }

  lemma IpTablesUndo()
    ensures UndoesTable(IP, IP_INV) && UndoesTable(IP_INV, IP)
  {
    TablesWellFormed();
    forall j | 0 <= j < 8
      ensures IP[IP_INV[j] - 1] == j + 1 && IP_INV[IP[j] - 1] == j + 1
    {
      assert j == 0 || j == 1 || j == 2 || j == 3 || j == 4 || j == 5 || j == 6 || j == 7;
    }
  }

  /** IP^-1 undoes IP and IP undoes IP^-1 on every 8-character string. */
  lemma IpRoundTrip(bits: string)
    requires |bits| == 8
    ensures Permute(Permute(bits, IP), IP_INV) == bits
    ensures Permute(Permute(bits, IP_INV), IP) == bits
  {
    IpTablesUndo();
    PermuteUndo(bits, IP, IP_INV);
    PermuteUndo(bits, IP_INV, IP);
  }

  /** Exclusive or with the same mask twice gives the bits back. */
  lemma XorTwice(a: string, m: string)
    requires IsBits(a) && IsBits(m) && |a| == |m|
    ensures Xor(Xor(a, m), m) == a
  {
    var x := Xor(Xor(a, m), m);
    assert forall i :: 0 <= i < |a| ==> x[i] == a[i];
  }

  /** fK is an involution for a fixed subkey. */
  lemma RoundFunctionInvolution(bits: string, subkey: string)
    requires IsBlock(bits) && IsBlock(subkey)
    ensures RoundFunction(RoundFunction(bits, subkey), subkey) == bits
  {
    var once := RoundFunction(bits, subkey);
    var twice := RoundFunction(once, subkey);
    assert once[4..] == bits[4..];
    XorTwice(bits[..4], Mix(bits[4..], subkey));
    assert twice[..4] == bits[..4];
    assert twice == twice[..4] + twice[4..];
    assert bits == bits[..4] + bits[4..];
  }

  /** Swapping the halves twice gives the block back. */
  lemma SwitchInvolution(bits: string)
    requires |bits| == 8
    ensures Switch(Switch(bits)) == bits
  {
    var twice := Switch(Switch(bits));
    assert twice == twice[..4] + twice[4..];
    assert bits == bits[..4] + bits[4..];
  }

  /** Running the network with the round keys in the opposite order undoes it. */
  lemma RoundsInverse(text: string, first: string, second: string)
    requires IsBlock(text) && IsBlock(first) && IsBlock(second)
    ensures Rounds(Rounds(text, first, second), second, first) == text
  {
    TablesWellFormed();
    var permuted := Permute(text, IP);
    var firstOut := RoundFunction(permuted, first);
    var switched := Switch(firstOut);
    var secondOut := RoundFunction(switched, second);
    var c := Permute(secondOut, IP_INV);
    IpRoundTrip(secondOut);
    assert Permute(c, IP) == secondOut;
    RoundFunctionInvolution(switched, second);
    SwitchInvolution(firstOut);
    RoundFunctionInvolution(permuted, first);
    IpRoundTrip(text);
  }

  /** Decryption undoes encryption under the same key, and the other way round. */
  lemma DecryptInvertsEncrypt(block: string, key: string)
    requires IsBlock(block) && IsKey(key)
    ensures Decrypt(Encrypt(block, key), key) == block
    ensures Encrypt(Decrypt(block, key), key) == block
  {
    var subkeys := GenerateSubkeys(key);
    RoundsInverse(block, subkeys.0, subkeys.1);
    RoundsInverse(block, subkeys.1, subkeys.0);
  }

  // ---------------------------------------------------------------------------
  // Worked values

  lemma PermuteExample(bits: string, table: seq<nat>)
    requires bits == "10101010" && table == [2, 4, 6, 8, 1, 3, 5, 7]
    ensures Permute(bits, table) == "00001111"
  {
    var r := Permute(bits, table);
    forall j | 0 <= j < 8
      ensures r[j] == "00001111"[j]
    {
      assert r[j] == bits[table[j] - 1];
      assert j == 0 || j == 1 || j == 2 || j == 3 || j == 4 || j == 5 || j == 6 || j == 7;
    }
  }

  lemma XorAndShiftExamples()
    ensures Xor("1010", "1100") == "0110"
    ensures LeftShift("11001", 2) == "00111"
    ensures Switch("11110000") == "00001111"
  {
    var x := Xor("1010", "1100");
    assert x[0] == '0' && x[1] == '1' && x[2] == '1' && x[3] == '0';
    var s := LeftShift("11001", 2);
    assert s[0] == '0' && s[1] == '0' && s[2] == '1' && s[3] == '1' && s[4] == '1';
  }

  /** The textbook key 1010000010 gives K1 = 10100100 and K2 = 01000011. */
  lemma TextbookSubkeys(key: string)
    requires key == "1010000010"
    ensures GenerateSubkeys(key) == ("10100100", "01000011")
  {
    TextbookTaps(key);
  }

  lemma TextbookTaps(key: string)
    requires key == "1010000010"
    ensures Permute(key, K1_TAPS) == "10100100" && Permute(key, K2_TAPS) == "01000011"
  {
    TablesWellFormed();
    var k1, k2 := Permute(key, K1_TAPS), Permute(key, K2_TAPS);
    forall j | 0 <= j < 8
      ensures k1[j] == "10100100"[j] && k2[j] == "01000011"[j]
    {
      assert k1[j] == key[K1_TAPS[j] - 1] && k2[j] == key[K2_TAPS[j] - 1];
      assert j == 0 || j == 1 || j == 2 || j == 3 || j == 4 || j == 5 || j == 6 || j == 7;
    }
  }

  /** The two subkeys of 1010101010 differ (K1 = 11100100, K2 = 01010011). */
  lemma DistinctSubkeys()
    ensures GenerateSubkeys("1010101010").0 != GenerateSubkeys("1010101010").1
  {
  }
}
