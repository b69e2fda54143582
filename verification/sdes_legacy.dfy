/** The older copy of S-DES. Its tables and its one-line helpers (permute, S-box, xor, switch,
    left shift) are the same as the current ones, so they are shared with module Sdes; what
    differs is the key schedule, which derives K2 by rotating the already once-rotated halves by
    two more places, and the round function and driver, which are written out again. */
module SdesLegacy {
  import opened Sdes

  /** The older key schedule: P10, rotate each half by one for K1, then rotate those halves by
      two more for K2. It agrees with the current schedule on every key. */
  function GenerateSubkeys(key: string): (r: (string, string))
    requires IsKey(key)
    ensures r == Sdes.GenerateSubkeys(key)
  {
    TablesWellFormed();
    var p10 := Permute(key, P10);
    var ls1 := LeftShift(p10[..5], 1) + LeftShift(p10[5..], 1);
    var k1 := Permute(ls1, P8);
    var ls2 := LeftShift(ls1[..5], 2) + LeftShift(ls1[5..], 2);
    var k2 := Permute(ls2, P8);
    RotationsAdd(p10[..5]);
    RotationsAdd(p10[5..]);
    assert ls1[..5] == LeftShift(p10[..5], 1) && ls1[5..] == LeftShift(p10[5..], 1);
    (k1, k2)
  }

  /** Rotating five bits left by one and then by two is rotating them by three. */
  lemma RotationsAdd(half: string)
    requires |half| == 5
    ensures LeftShift(LeftShift(half, 1), 2) == LeftShift(half, 3)
  {
    var a := LeftShift(LeftShift(half, 1), 2);
    var b := LeftShift(half, 3);
    forall i | 0 <= i < 5
      ensures a[i] == b[i]
    {
      assert i == 0 || i == 1 || i == 2 || i == 3 || i == 4;
    }
  }

  /** The older fK: the right half passes through and the left half is XORed with
      P4 of the S-box output on EP(right) XOR subkey. It is the current round function. */
  function Fk(inputBits: string, subkey: string): (r: string)
    requires IsBlock(inputBits) && IsBlock(subkey)
    ensures r == RoundFunction(inputBits, subkey)
  {
    TablesWellFormed();
    BoxesWellFormed();
    var l, right := inputBits[..4], inputBits[4..];
    var epOut := Permute(right, EP);
    var xorOut := Xor(epOut, subkey);
    var p4Out := Permute(SboxPair(xorOut[..4], xorOut[4..], S0, S1), P4);
    Xor(l, p4Out) + right
  }

  /** The older _crypt: IP, fK with K1 (K2 when decrypting), switch, fK with the other subkey,
      IP^-1. It computes the same block as the current cipher. */
  function Crypt(text: string, key: string, encrypt: bool): (r: string)
    requires IsBlock(text) && IsKey(key)
    ensures r == Sdes.Crypt(text, key, encrypt)
  {
    TablesWellFormed();
    var subkeys := GenerateSubkeys(key);
    var k1, k2 := subkeys.0, subkeys.1;
    var ipOut := Permute(text, IP);
    var fk1Out := Fk(ipOut, if encrypt then k1 else k2);
    var swOut := Switch(fk1Out);
    var fk2Out := Fk(swOut, if encrypt then k2 else k1);
    Permute(fk2Out, IP_INV)
  }

  /** Older decryption undoes older encryption under the same key. */
  lemma DecryptInvertsEncrypt(block: string, key: string)
    requires IsBlock(block) && IsKey(key)
    ensures Crypt(Crypt(block, key, true), key, false) == block
  {
    Sdes.DecryptInvertsEncrypt(block, key);
  }
}
