/** The Enhanced S-DES pipeline. Encryption runs the keyed column transposition, the row shift
    over as many columns as the key has entries, the text-to-bits conversion, S-DES on every
    8-bit block in turn (electronic codebook), and the bits-to-hexadecimal conversion.
    Decryption runs the mirror image. Where the source raises an exception (hexadecimal
    conversion of an empty string, a trailing block shorter than eight bits) the result is None. */
module EnhancedSdes {
  import opened Wrappers
  import opened Text
  import opened Digits
  import opened ColumnTransposition
  import ShiftRows
  import Sdes
  import Utilities
  import Arith

  // ---------------------------------------------------------------------------
  // _apply_sdes

  /** `prefix` in front of a result that may have failed. */
  function Prepend(prefix: string, rest: Option<string>): (r: Option<string>)
    ensures r.Some? <==> rest.Some?
  {
    if rest.None? then None else Some(prefix + rest.value)
  }

  /** A block cipher: defined on every 8-bit block, giving an 8-bit block back. */
  ghost predicate IsBlockCipher(cipher: string --> string) {
    forall b {:trigger cipher.requires(b)} {:trigger cipher(b)} ::
      Sdes.IsBlock(b) ==> cipher.requires(b) && Sdes.IsBlock(cipher(b))
  }

  /** The block operation in the loop of _apply_sdes: self.sdes.encrypt(block, key) when
      `encrypt` is set, self.sdes.decrypt(block, key) otherwise. */
  function Cipher(key: string, encrypt: bool): (c: string --> string)
    requires Sdes.IsKey(key)
    ensures IsBlockCipher(c)
  {
    b requires Sdes.IsBlock(b) => if encrypt then Sdes.Encrypt(b, key) else Sdes.Decrypt(b, key)
  }

  /** What _apply_sdes returns: the block cipher on every run of eight bits, front to back,
      the outputs joined in order. A trailing run shorter than eight bits makes the cipher
      index past the block, so the whole call fails. */
  function SdesBlocks(binary: string, cipher: string --> string): (r: Option<string>)
    requires IsBits(binary) && IsBlockCipher(cipher)
    ensures r.None? <==> |binary| % 8 != 0
    ensures r.Some? ==> |r.value| == |binary| && IsBits(r.value)
    decreases |binary|
  {
    Arith.ModSkip(|binary|, 8);
    if binary == [] then Some([])
    else if |binary| < 8 then None
    else Prepend(cipher(binary[..8]), SdesBlocks(binary[8..], cipher))
  }

  /** _apply_sdes: the loop below with the S-DES block operation the flag selects. */
  method ApplySdes(binary: string, key: string, encrypt: bool) returns (result: Option<string>)
    requires IsBits(binary) && Sdes.IsKey(key)
    ensures result == SdesBlocks(binary, Cipher(key, encrypt))
  {
    result := ApplyBlocks(binary, Cipher(key, encrypt));
  }

  /** The loop of _apply_sdes: `for i in range(0, len(binary), 8)` over binary[i:i + 8],
      appending each processed block to `result`. */
  method ApplyBlocks(binary: string, cipher: string --> string) returns (result: Option<string>)
    requires IsBits(binary) && IsBlockCipher(cipher)
    ensures result == SdesBlocks(binary, cipher)
  {
    var output := "";
    var i := 0;
    assert binary[i..] == binary;
    PrependNothing(SdesBlocks(binary, cipher));
    while i < |binary|
      invariant 0 <= i <= |binary|
      invariant SdesBlocks(binary, cipher) == Prepend(output, SdesBlocks(binary[i..], cipher))
      decreases |binary| - i
    {
      var end := if i + 8 < |binary| then i + 8 else |binary|;
      var block := binary[i..end];
      if |block| < 8 {
        assert SdesBlocks(binary[i..], cipher).None?;
        return None;
      }
      var processedBlock := cipher(block);
      BlocksStep(binary, cipher, i);
      PrependTwice(output, processedBlock, SdesBlocks(binary[i + 8..], cipher));
      output := output + processedBlock;
      i := i + 8;
    }
    assert binary[i..] == [];
    assert output + [] == output;
    return Some(output);
  }

  /** Peeling the block at i off the run of bits that starts at i. */
  lemma BlocksStep(binary: string, cipher: string --> string, i: nat)
    requires IsBits(binary) && IsBlockCipher(cipher) && i + 8 <= |binary|
    ensures SdesBlocks(binary[i..], cipher)
      == Prepend(cipher(binary[i..i + 8]), SdesBlocks(binary[i + 8..], cipher))
  {
    assert binary[i..][8..] == binary[i + 8..];
    assert binary[i..][..8] == binary[i..i + 8];
  }

  lemma PrependNothing(rest: Option<string>)
    ensures Prepend([], rest) == rest
  {
    if rest.Some? {
      assert [] + rest.value == rest.value;
    }
  }

  lemma PrependTwice(a: string, b: string, rest: Option<string>)
    ensures Prepend(a, Prepend(b, rest)) == Prepend(a + b, rest)
  {
    if rest.Some? {
      assert a + (b + rest.value) == (a + b) + rest.value;
    }
  }

  /** Output block j is the cipher applied to input block j and to nothing else. */
  lemma {:induction false} SdesBlockAt(binary: string, cipher: string --> string, j: nat)
    requires IsBits(binary) && IsBlockCipher(cipher) && |binary| % 8 == 0 && 8 * j + 8 <= |binary|
    ensures SdesBlocks(binary, cipher).value[8 * j..8 * j + 8] == cipher(binary[8 * j..8 * j + 8])
  {
    var rest := binary[8..];
    Arith.ModSkip(|binary|, 8);
    if j > 0 {
      SdesBlockAt(rest, cipher, j - 1);
      assert rest[8 * (j - 1)..8 * (j - 1) + 8] == binary[8 * j..8 * j + 8];
    }
  }

  /** `decipher` undoes `cipher` on every block. */
  ghost predicate Undoes(decipher: string --> string, cipher: string --> string)
    requires IsBlockCipher(cipher) && IsBlockCipher(decipher)
  {
    forall b {:trigger cipher(b)} :: Sdes.IsBlock(b) ==> decipher(cipher(b)) == b
  }

  /** A block cipher undone block by block is undone on whole runs of blocks. */
  lemma {:induction false} BlocksRoundTrip(binary: string, cipher: string --> string, decipher: string --> string)
    requires IsBits(binary) && |binary| % 8 == 0
    requires IsBlockCipher(cipher) && IsBlockCipher(decipher) && Undoes(decipher, cipher)
    ensures SdesBlocks(SdesBlocks(binary, cipher).value, decipher) == Some(binary)
    decreases |binary|
  {
    if binary != [] {
      var block, rest := binary[..8], binary[8..];
      Arith.ModSkip(|binary|, 8);
      BlocksRoundTrip(rest, cipher, decipher);
      var out := SdesBlocks(binary, cipher).value;
      assert out == cipher(block) + SdesBlocks(rest, cipher).value;
      assert out[..8] == cipher(block) && out[8..] == SdesBlocks(rest, cipher).value;
      assert binary == block + rest;
    }
  }

  /** S-DES decryption undoes S-DES encryption under the same key, and the other way round. */
  lemma CipherUndoes(key: string)
    requires Sdes.IsKey(key)
    ensures Undoes(Cipher(key, false), Cipher(key, true))
    ensures Undoes(Cipher(key, true), Cipher(key, false))
  {
    forall b | Sdes.IsBlock(b)
      ensures Cipher(key, false)(Cipher(key, true)(b)) == b
    {
      Sdes.DecryptInvertsEncrypt(b, key);
    }
    CipherUndoesBack(key);
  }

  lemma CipherUndoesBack(key: string)
    requires Sdes.IsKey(key)
    ensures Undoes(Cipher(key, true), Cipher(key, false))
  {
    forall b | Sdes.IsBlock(b)
      ensures Cipher(key, true)(Cipher(key, false)(b)) == b
    {
      Sdes.DecryptInvertsEncrypt(b, key);
    }
  }

  /** _apply_sdes with encrypt=False undoes _apply_sdes with encrypt=True under the same key,
      and the other way round. */
  lemma SdesBlocksRoundTrip(binary: string, key: string)
    requires IsBits(binary) && Sdes.IsKey(key) && |binary| % 8 == 0
    ensures SdesBlocks(SdesBlocks(binary, Cipher(key, true)).value, Cipher(key, false)) == Some(binary)
    ensures SdesBlocks(SdesBlocks(binary, Cipher(key, false)).value, Cipher(key, true)) == Some(binary)
  {
    CipherUndoes(key);
    BlocksRoundTrip(binary, Cipher(key, true), Cipher(key, false));
    BlocksRoundTrip(binary, Cipher(key, false), Cipher(key, true));
  }

  // ---------------------------------------------------------------------------
  // encrypt and decrypt

  /** Steps 1 and 2 of encrypt: the prepared text after `rounds` forward transposition rounds,
      then the row shift over |transKey| columns. */
  function Scrambled(plaintext: string, transKey: seq<int>, rounds: int): string
    requires IsAscii(plaintext) && KeyInRange(transKey)
  {
    SlotsInRange(transKey);
    var transposed := TransposedRounds(PrepareText(plaintext, |transKey|), Slots(transKey), Runs(rounds));
    ShiftRows.Shifted(transposed, |transKey|)
  }

  /** Steps 2 and 3 of decrypt: the inverse row shift, then `rounds` inverse transposition
      rounds. */
  function Unscrambled(text: string, transKey: seq<int>, rounds: int): string
    requires IsKey(transKey)
  {
    SlotsInRange(transKey);
    var unshifted := ShiftRows.Unshifted(text, |transKey|);
    InverseRounds(unshifted, Inverse(Slots(transKey)), Runs(rounds))
  }

  /** Step 3 of encrypt: the text as bits, every block encrypted, written in hexadecimal. */
  function EncryptedHex(text: string, cipher: string --> string): Option<string>
    requires IsBlockCipher(cipher)
  {
    var encrypted := SdesBlocks(Utilities.TextToBinary(text), cipher);
    if encrypted.None? then None else Utilities.BinaryToHex(encrypted.value)
  }

  /** Step 1 of decrypt: the hexadecimal as bits, every block decrypted, read as text. A
      negative number leaves bin()'s 'b' among the bits, and the block holding it fails in the
      int() of S-DES's XOR, which every bit of a block reaches. */
  function DecryptedText(ciphertext: string, decipher: string --> string): Option<string>
    requires IsBlockCipher(decipher)
  {
    var binary := Utilities.HexToBinary(ciphertext);
    if binary.None? || !IsBits(binary.value) then None
    else
      var decrypted := SdesBlocks(binary.value, decipher);
      if decrypted.None? then None else Some(Utilities.BinaryToText(decrypted.value))
  }

  /** What encrypt returns. */
  function Encrypted(plaintext: string, sdesKey: string, transKey: seq<int>, rounds: int): Option<string>
    requires IsAscii(plaintext) && KeyInRange(transKey) && Sdes.IsKey(sdesKey)
  {
    EncryptedHex(Scrambled(plaintext, transKey, rounds), Cipher(sdesKey, true))
  }

  /** What decrypt returns. */
  function Decrypted(ciphertext: string, sdesKey: string, transKey: seq<int>, rounds: int): Option<string>
    requires IsKey(transKey) && Sdes.IsKey(sdesKey)
  {
    var text := DecryptedText(ciphertext, Cipher(sdesKey, false));
    if text.None? then None else Some(Unscrambled(text.value, transKey, rounds))
  }

  /** encrypt: transpose, shift, convert to bits, encrypt block by block, convert to hex. */
  method Encrypt(plaintext: string, sdesKey: string, transKey: seq<int>, rounds: int)
    returns (cipherText: Option<string>)
    requires IsAscii(plaintext) && KeyInRange(transKey) && Sdes.IsKey(sdesKey)
    ensures cipherText == Encrypted(plaintext, sdesKey, transKey, rounds)
  {
    var transposed := Transpose(plaintext, transKey, rounds);
    var shifted := ShiftRows.Shift(transposed, |transKey|);
    var binary := Utilities.TextToBinary(shifted);
    var encryptedBinary := ApplySdes(binary, sdesKey, true);
    if encryptedBinary.None? {
      return None;
    }
    cipherText := Utilities.BinaryToHex(encryptedBinary.value);
  }

  /** decrypt: convert from hex, decrypt block by block, convert to text, shift back,
      transpose back. */
  method Decrypt(ciphertext: string, sdesKey: string, transKey: seq<int>, rounds: int)
    returns (plaintext: Option<string>)
    requires IsKey(transKey) && Sdes.IsKey(sdesKey)
    ensures plaintext == Decrypted(ciphertext, sdesKey, transKey, rounds)
  {
    var binary := Utilities.HexToBinary(ciphertext);
    if binary.None? || !IsBits(binary.value) {
      return None;
    }
    var decryptedBinary := ApplySdes(binary.value, sdesKey, false);
    if decryptedBinary.None? {
      return None;
    }
    var text := Utilities.BinaryToText(decryptedBinary.value);
    var unshifted := ShiftRows.InverseShift(text, |transKey|);
    var result := InverseTranspose(unshifted, transKey, rounds);
    plaintext := Some(result);
  }

  // ---------------------------------------------------------------------------
  // Properties of the pipeline

  /** Transposition and row shift only rearrange the prepared text, which stays ASCII, and
      the inverse steps give the prepared text back. */
  lemma ScrambleRoundTrip(plaintext: string, transKey: seq<int>, rounds: int)
    requires IsAscii(plaintext) && IsKey(transKey) && |transKey| <= 26
    ensures |Scrambled(plaintext, transKey, rounds)| == |PrepareText(plaintext, |transKey|)|
    ensures IsAscii(Scrambled(plaintext, transKey, rounds))
    ensures Unscrambled(Scrambled(plaintext, transKey, rounds), transKey, rounds)
      == PrepareText(plaintext, |transKey|)
  {
    var n := |transKey|;
    var p := Slots(transKey);
    SlotsInRange(transKey);
    var prepared := PrepareText(plaintext, n);
    PreparedLength(plaintext, n);
    var transposed := TransposedRounds(prepared, p, Runs(rounds));
    TransposedRoundsPermutes(prepared, p, Runs(rounds));
    NoWhitespacePermuted(prepared, transposed);
    AsciiPermuted(prepared, transposed);
    var shifted := ShiftRows.Shifted(transposed, n);
    ShiftRows.ShiftPermutes(transposed, n);
    AsciiPermuted(transposed, shifted);
    ShiftRows.ShiftRoundTrip(transposed, n);
    TransposeRoundTrip(plaintext, transKey, Runs(rounds));
  }

  /** The bits of text below code point 256 go through a block cipher to as many bits, which
      a cipher undoing it block by block turns back. */
  lemma TextBlocksRoundTrip(text: string, cipher: string --> string, decipher: string --> string)
    requires IsLatin1(text)
    requires IsBlockCipher(cipher) && IsBlockCipher(decipher) && Undoes(decipher, cipher)
    ensures SdesBlocks(Utilities.TextToBinary(text), cipher).Some?
    ensures var e := SdesBlocks(Utilities.TextToBinary(text), cipher).value;
      |e| == 8 * |text| && IsBits(e)
      && SdesBlocks(e, decipher) == Some(Utilities.TextToBinary(text))
  {
    var binary := Utilities.TextToBinary(text);
    Arith.DivModUnique(|binary|, 8, |text|, 0);
    BlocksRoundTrip(binary, cipher, decipher);
  }

  /** Whole bytes of bits written in hexadecimal take two digits per byte and read back. */
  lemma BytesHexRoundTrip(bits: string, count: nat)
    requires IsBits(bits) && |bits| == 8 * count && count > 0
    ensures Utilities.BinaryToHex(bits).Some?
    ensures |Utilities.BinaryToHex(bits).value| == 2 * count
    ensures Utilities.HexToBinary(Utilities.BinaryToHex(bits).value) == Some(bits)
  {
    Arith.RowCol(2 * count, 4, 0);
    Utilities.HexRoundTrip(bits);
  }

  /** Block cipher over hexadecimal: text below code point 256 gives two hexadecimal digits
      per character (nothing for empty text, where the conversion fails), and a cipher undoing
      the block cipher turns them back into the text. */
  lemma HexRoundTrip(text: string, cipher: string --> string, decipher: string --> string)
    requires IsLatin1(text)
    requires IsBlockCipher(cipher) && IsBlockCipher(decipher) && Undoes(decipher, cipher)
    ensures EncryptedHex(text, cipher).Some? <==> text != []
    ensures EncryptedHex(text, cipher).Some? ==>
      |EncryptedHex(text, cipher).value| == 2 * |text|
      && DecryptedText(EncryptedHex(text, cipher).value, decipher) == Some(text)
  {
    TextBlocksRoundTrip(text, cipher, decipher);
    var encrypted := SdesBlocks(Utilities.TextToBinary(text), cipher).value;
    if text != [] {
      BytesHexRoundTrip(encrypted, |text|);
      Utilities.TextRoundTrip(text);
    }
  }

  /** decrypt(encrypt(p)) is the prepared plaintext (whitespace removed, upper-cased, padded to
      a multiple of the key length), for ASCII plaintext, a valid S-DES key and a transposition
      key of at most 26 columns. Encryption fails exactly when nothing is left after
      preparation, and otherwise gives two hexadecimal digits per prepared character. */
  lemma PipelineRoundTrip(plaintext: string, sdesKey: string, transKey: seq<int>, rounds: int)
    requires IsAscii(plaintext) && IsKey(transKey) && |transKey| <= 26 && Sdes.IsKey(sdesKey)
    ensures Encrypted(plaintext, sdesKey, transKey, rounds).Some?
      <==> PrepareText(plaintext, |transKey|) != []
    ensures Encrypted(plaintext, sdesKey, transKey, rounds).Some? ==>
      |Encrypted(plaintext, sdesKey, transKey, rounds).value| == 2 * |PrepareText(plaintext, |transKey|)|
      && Decrypted(Encrypted(plaintext, sdesKey, transKey, rounds).value, sdesKey, transKey, rounds)
        == Some(PrepareText(plaintext, |transKey|))
  {
    var scrambled := Scrambled(plaintext, transKey, rounds);
    ScrambleRoundTrip(plaintext, transKey, rounds);
    CipherUndoes(sdesKey);
    HexRoundTrip(scrambled, Cipher(sdesKey, true), Cipher(sdesKey, false));
  }

  /** Hence upper-case, whitespace-free, non-empty ASCII plaintext whose length the key length
      divides comes back unchanged. */
  lemma CleanPipelineRoundTrip(plaintext: string, sdesKey: string, transKey: seq<int>, rounds: int)
    requires IsAscii(plaintext) && NoWhitespace(plaintext) && UpperCase(plaintext) && plaintext != []
    requires IsKey(transKey) && |transKey| <= 26 && |plaintext| % |transKey| == 0 && Sdes.IsKey(sdesKey)
    ensures Encrypted(plaintext, sdesKey, transKey, rounds).Some?
    ensures Decrypted(Encrypted(plaintext, sdesKey, transKey, rounds).value, sdesKey, transKey, rounds)
      == Some(plaintext)
  {
    PrepareClean(plaintext, |transKey|);
    PipelineRoundTrip(plaintext, sdesKey, transKey, rounds);
  }

  /** A ciphertext int() reads as a number that is not negative is four bits per character,
      so it splits into whole blocks exactly when it has an even number of characters
      (whitespace and a prefix count, since zfill counts them). */
  lemma HexBlocks(ciphertext: string, decipher: string --> string)
    requires Utilities.ParseBase(ciphertext, 16).Some? && Utilities.ParseBase(ciphertext, 16).value >= 0
    requires IsBlockCipher(decipher)
    ensures Utilities.HexToBinary(ciphertext).Some? && IsBits(Utilities.HexToBinary(ciphertext).value)
    ensures SdesBlocks(Utilities.HexToBinary(ciphertext).value, decipher).None?
      <==> |ciphertext| % 2 != 0
  {
    Utilities.NibblesFit(ciphertext);
    Arith.NibbleBytes(|ciphertext|);
  }

  /** decrypt fails exactly when int(ciphertext, 16) raises, when it reads a negative number
      (bin()'s 'b' reaches S-DES), or when the ciphertext has an odd number of characters
      (its last block would be four bits). */
  lemma DecryptFailures(ciphertext: string, sdesKey: string, transKey: seq<int>, rounds: int)
    requires IsKey(transKey) && Sdes.IsKey(sdesKey)
    ensures Decrypted(ciphertext, sdesKey, transKey, rounds).None?
      <==> (Utilities.ParseBase(ciphertext, 16).None? || Utilities.ParseBase(ciphertext, 16).value < 0
            || |ciphertext| % 2 != 0)
  {
    var number := Utilities.ParseBase(ciphertext, 16);
    if number.Some? && number.value >= 0 {
      HexBlocks(ciphertext, Cipher(sdesKey, false));
    }
  }

  /** Hence a prefixed or space-padded ciphertext decrypts, and a negative one does not. */
  lemma DecryptSyntax(prefixed: string, padded: string, negative: string, sdesKey: string,
                      transKey: seq<int>, rounds: int)
    requires prefixed == "0x41" && padded == " 4142 " && negative == "-41"
    requires IsKey(transKey) && Sdes.IsKey(sdesKey)
    ensures Decrypted(prefixed, sdesKey, transKey, rounds).Some?
    ensures Decrypted(padded, sdesKey, transKey, rounds).Some?
    ensures Decrypted(negative, sdesKey, transKey, rounds).None?
  {
    assert Decrypted(prefixed, sdesKey, transKey, rounds).Some? by {
      Utilities.PrefixedHex(prefixed, "0000000001000001");
      DecryptFailures(prefixed, sdesKey, transKey, rounds);
    }
    assert Decrypted(padded, sdesKey, transKey, rounds).Some? by {
      Utilities.PaddedHex(padded);
      DecryptFailures(padded, sdesKey, transKey, rounds);
    }
    assert Decrypted(negative, sdesKey, transKey, rounds).None? by {
      Utilities.NegativeHex(negative);
      DecryptFailures(negative, sdesKey, transKey, rounds);
    }
  }
}
