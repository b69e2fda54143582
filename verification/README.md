# Enhanced S-DES in Dafny

This project models the core of *enhanced_SDES*, a teaching cipher. It chains four stages.

1. A multi-round **columnar transposition** of the upper-cased, whitespace-free plaintext, padded
   with the tail of the alphabet (`ColumnTransposition`).
2. A **shift rows** step that cuts the text into rows of the key's width and rotates row *i* by
   *i* places (`ShiftRows`).
3. **Text to bits**, then **S-DES** on every 8-bit block under a 10-bit key (`Sdes`, `EnhancedSdes`).
4. **Bits to upper-case hex** (`Utilities`).

Decryption runs the mirror chain. The user interface's key validators and its
transposition-key parser are modelled in `UserInterface`. The repository also keeps older
copies of the S-DES class, the transposition and the 3×3 row shift. `SdesLegacy`,
`ColumnTranspositionLegacy` and `ShiftRowsLegacy` model those copies and relate them to the
current ones. The older `src/utilities.py` holds the same four converters as
`src/utils/utilities.py`, so `Utilities` models both. The older S-DES tables are the same as
the current ones, so `SdesLegacy` reuses `Sdes`'s tables.

Strings are `seq<char>`; bit strings are sequences of `'0'`/`'1'`. Python's exceptions
(`int()` on bad input, an index out of range) become `Option` results wherever the input
comes from the user. A caller-side obligation stays a `requires` where the source never checks
it. Every call site meets the first four below; the last one is a limit of the model:

- a block of 8 bits, a 10-bit S-DES key, a transposition key that is a permutation;
- all bits for `Utilities.BinaryToText`, whose `int(chunk, 2)` raises otherwise
  (src/utils/utilities.py:41); its callers pass S-DES output;
- a positive row width for `ShiftRows.Shift` and `ShiftRows.InverseShift`, which divide by it
  (src/core/shift_rows.py:58 and :93); the width is the key length, which the key validator
  keeps at 2 or more;
- a key with entries when `ColumnTranspositionLegacy.Transpose` runs at least one round, since
  a round divides by the key length (src/column_transposition.py:67);
- ASCII plaintext for `EnhancedSdes.Encrypt`, because `.upper()` is modelled for ASCII only.
  The user interface passes any typed message (src/ui/user_interface.py:57), so other
  plaintexts are left out of the model (see "## Left out").

`int(s, 16)` and `int(s, 2)` in the hex converters are modelled with the syntax Python accepts
(`Utilities.ParseBase`): whitespace around the number, a sign, a `0x`/`0b` prefix. The
whitespace `int()` skips is \t, \n, \v, \f, \r, space and non-ASCII whitespace. The ASCII
information separators U+001C to U+001F are whitespace for `str.strip()` but make `int()` raise. `hex()` and
`bin()` of a negative number keep their `x`/`b` after the `[2:]` slice. A `b` among the bits of
a ciphertext makes S-DES raise in the `int()` of its XOR (src/core/sdes.py:239), which every bit
of a block reaches, so the model's decrypt returns `None` for it.

Loops of the source (the transposition
rounds, the per-block S-DES loop, the matrix rotation loops, the inverse-key loop) are methods
proved equal to specification functions. The properties are lemmas about those functions.
Helper modules: `Wrappers` (Option), `Arith`, `Text` (Python string helpers: `isspace`,
`split()`, `rstrip`, `ljust`, slicing rotations), `Tokens` (`strip`, `split(',')`) and
`Digits` (`int(s, base)`, `bin`/`hex`, `format`/`zfill`).

## Model

| member | source | states |
|---|---|---|
| Sdes.TablesWellFormed | src/core/sdes.py:32-39 | every permutation table names only positions of the input it is applied to |
| Sdes.BoxesWellFormed | src/core/sdes.py:37-39 | S0 and S1 are 4×4 tables of 2-bit values |
| Sdes.Permute | src/core/sdes.py:198-209 | output is as long as the table, and output bit j is input bit table[j] (1-based) |
| Sdes.PermuteExample | src/core/sdes.py:198-209 | "10101010" under [2,4,6,8,1,3,5,7] gives "00001111" |
| Sdes.XorBit | src/core/sdes.py:239 | one output bit is '1' exactly when the two input bits differ |
| Sdes.Xor | src/core/sdes.py:228-239 | zip-length result whose bit i is '1' iff the inputs differ at i |
| Sdes.LeftShift | src/core/sdes.py:255-266 | same length; bit i is input bit (i + n) taken cyclically |
| Sdes.Switch | src/core/sdes.py:242-252 | the two 4-bit halves are exchanged |
| Sdes.XorAndShiftExamples | src/core/sdes.py:228-266 | "1010"⊕"1100"="0110", "11001" rotated by 2 is "00111", switch of "11110000" is "00001111" |
| Sdes.Sbox | src/core/sdes.py:212-225 | returns exactly two bits |
| Sdes.SboxLookup | src/core/sdes.py:223-225 | the two bits read as a number equal table[row][col], with row from bits 0 and 3 and column from bits 1-2 |
| Sdes.SboxPair | src/core/sdes.py:180-182 | the S0 and S1 outputs together make four bits |
| Sdes.Mix | src/core/sdes.py:172-186 | P4 of the S-box outputs of EP(R) ⊕ subkey is four bits |
| Sdes.RoundFunction | src/core/sdes.py:157-195 | the right half is unchanged; the new left half is L ⊕ Mix(R, subkey) |
| Sdes.RoundFunctionInvolution | src/core/sdes.py:157-195 | applying the round function twice with one subkey is the identity |
| Sdes.GenerateSubkeys | src/core/sdes.py:119-155 | both subkeys are 8 bits, each a fixed selection of key bits (P8 of the P10 halves rotated by 1, and by 3) |
| Sdes.SubkeyTaps | src/core/sdes.py:133-151 | the P10 / rotate / P8 chain equals one direct selection of key bits per subkey |
| Sdes.TextbookSubkeys | src/core/sdes.py:119-155 | key 1010000010 gives K1 = 10100100 and K2 = 01000011 |
| Sdes.TextbookTaps | src/core/sdes.py:119-155 | the direct key-bit selections give the same two textbook subkeys |
| Sdes.DistinctSubkeys | src/core/sdes.py:119-155 | key 1010101010 gives two different subkeys |
| Sdes.Rounds | src/core/sdes.py:93-113 | IP, round, switch, round, IP⁻¹ yields an 8-bit block |
| Sdes.Crypt | src/core/sdes.py:76-117 | encryption uses K1 then K2 and decryption K2 then K1, with one switch between the rounds |
| Sdes.Encrypt | src/core/sdes.py:50-61 | an 8-bit block for every 8-bit block and 10-bit key |
| Sdes.Decrypt | src/core/sdes.py:63-74 | an 8-bit block for every 8-bit block and 10-bit key |
| Sdes.PermuteUndo | src/core/sdes.py:198-209 | permuting by a table and then by its undoing table restores the input |
| Sdes.IpTablesUndo | src/core/sdes.py:32-33 | IP and IP_INV undo each other in both orders |
| Sdes.IpRoundTrip | src/core/sdes.py:93-113 | IP then IP_INV, and IP_INV then IP, are the identity on 8-bit strings |
| Sdes.XorTwice | src/core/sdes.py:228-239 | XOR with the same mask twice restores the input |
| Sdes.SwitchInvolution | src/core/sdes.py:242-252 | switching twice is the identity |
| Sdes.RoundsInverse | src/core/sdes.py:93-113 | the two-round cascade with the subkeys swapped undoes the cascade |
| Sdes.DecryptInvertsEncrypt | src/core/sdes.py:76-117 | decrypt(encrypt(b, k), k) == b and encrypt(decrypt(b, k), k) == b |
| SdesLegacy.GenerateSubkeys | src/sdes.py:95-110 | K2 from rotating the LS-1 halves by 2 more gives exactly the current subkeys |
| SdesLegacy.RotationsAdd | src/sdes.py:106-109 | rotating a 5-bit half by 1 and then by 2 equals rotating it by 3 |
| SdesLegacy.Fk | src/sdes.py:112-129 | the older round function equals the current one: right half kept, P4 output XORed into the left |
| SdesLegacy.Crypt | src/sdes.py:76-93 | the older block transform equals the current one bit for bit |
| SdesLegacy.DecryptInvertsEncrypt | src/sdes.py:76-93 | older decrypt(encrypt(b, k), k) == b |
| ColumnTransposition.Alphabet | src/core/column_transposition.py:19 | 26 upper-case letters |
| ColumnTransposition.Padded | src/core/column_transposition.py:68-71 | the text followed by a suffix of the alphabet of at most 26 letters |
| ColumnTransposition.PaddedMultiple | src/core/column_transposition.py:68-71 | for up to 27 columns the padded length is the next multiple of the column count |
| ColumnTransposition.PaddedExample | src/core/column_transposition.py:68-71 | 25 letters with 7 columns gain "XYZ" |
| ColumnTransposition.PrepareText | src/core/column_transposition.py:56-72 | whitespace removed, upper-cased, then an alphabet suffix; no whitespace in the result |
| ColumnTransposition.PreparedLength | src/core/column_transposition.py:67-71 | the prepared length is a multiple of N and less than the cleaned length plus N |
| ColumnTransposition.PrepareClean | src/core/column_transposition.py:56-72 | already-clean text whose length N divides is returned unchanged |
| ColumnTransposition.PrepareExample | src/core/column_transposition.py:56-72 | 25 clean letters with N = 7 gain "XYZ" |
| ColumnTransposition.Inverse | src/core/column_transposition.py:138-140 | the inverse permutation: r[p[i]] == i and p[r[j]] == j, and r is a permutation |
| ColumnTransposition.InverseInvolution | src/core/column_transposition.py:128-141 | inverting twice gives back the permutation |
| ColumnTransposition.InverseKey | src/core/column_transposition.py:128-141 | the 1-based inverse key is a key whose 0-based slots are the inverse permutation |
| ColumnTransposition.InverseKeyUndoes | src/core/column_transposition.py:138-140 | inverse[key[i] - 1] == i + 1 and key[inverse[j] - 1] == j + 1 |
| ColumnTransposition.InverseKeyInvolution | src/core/column_transposition.py:128-141 | the inverse of the inverse key is the key |
| ColumnTransposition.GetInverseKey | src/core/column_transposition.py:128-141 | the enumerate loop computes the inverse key |
| ColumnTransposition.Buckets | src/core/column_transposition.py:86-90 | one bucket per column |
| ColumnTransposition.SingleRoundTranspose | src/core/column_transposition.py:75-92 | the loop deals character i into bucket key[i mod N] - 1 and joins the buckets in order |
| ColumnTransposition.TransposedPermutes | src/core/column_transposition.py:75-92 | one forward round keeps the length and is a permutation of the characters |
| ColumnTransposition.ThreeColumns | src/core/column_transposition.py:75-92 | with key [3,1,2] on a 3-wide grid the output is columns 1, 2, 0 read top to bottom |
| ColumnTransposition.ColumnLengths | src/core/column_transposition.py:106-111 | one length per column; all equal to len / N when N divides len |
| ColumnTransposition.CountColumnLengths | src/core/column_transposition.py:106-111 | the loop computes the column lengths |
| ColumnTransposition.CutText | src/core/column_transposition.py:113-117 | the loop cuts consecutive slices into the columns the key names |
| ColumnTransposition.ReadAcross | src/core/column_transposition.py:119-123 | the nested loop reads the columns row by row, skipping exhausted columns |
| ColumnTransposition.Max | src/core/column_transposition.py:120 | max() is an element that bounds every entry |
| ColumnTransposition.SingleRoundInverseTranspose | src/core/column_transposition.py:95-125 | the three loops together compute one inverse round |
| ColumnTransposition.RoundTrip | src/core/column_transposition.py:95-125 | when N divides the length, an inverse round with the inverse key undoes a forward round |
| ColumnTransposition.RoundTripBack | src/core/column_transposition.py:95-125 | when N divides the length, a forward round undoes an inverse round with the inverse key |
| ColumnTransposition.Runs | src/core/column_transposition.py:34 | range(rounds) runs max(rounds, 0) times |
| ColumnTransposition.TransposedRounds | src/core/column_transposition.py:34-35 | repeated forward rounds keep the length |
| ColumnTransposition.TransposedRoundsPermutes | src/core/column_transposition.py:34-35 | repeated forward rounds are a permutation of the characters |
| ColumnTransposition.InverseRoundsStep | src/core/column_transposition.py:51-52 | one more inverse round applies one more inverse transposition |
| ColumnTransposition.Transpose | src/core/column_transposition.py:21-36 | pads once, then runs max(rounds, 0) forward rounds on the prepared text |
| ColumnTransposition.RunForwardRounds | src/core/column_transposition.py:34-35 | the loop runs the forward rounds |
| ColumnTransposition.InverseTranspose | src/core/column_transposition.py:38-53 | computes the inverse key, then runs max(rounds, 0) inverse rounds with it |
| ColumnTransposition.RunInverseRounds | src/core/column_transposition.py:51-52 | the loop runs the inverse rounds |
| ColumnTransposition.RoundsRoundTrip | src/core/column_transposition.py:21-53 | r inverse rounds undo r forward rounds on any text whose length N divides |
| ColumnTransposition.TransposeRoundTrip | src/core/column_transposition.py:21-53 | inverse_transpose(transpose(t, key, r), key, r) is the prepared text |
| ColumnTransposition.CleanRoundTrip | src/core/column_transposition.py:21-53 | for clean upper-case t with N dividing len(t), the round trip gives back t |
| ColumnTransposition.ThreeSlots | src/core/column_transposition.py:128-141 | the 0-based slots [2,0,1] of key [3,1,2] are a column order whose inverse is [1,2,0] |
| ColumnTransposition.ThreeKey | src/core/column_transposition.py:128-141 | [3,1,2] is a key, and its inverse key is [2,3,1] |
| ColumnTransposition.NineCharacters | src/core/column_transposition.py:75-92 | the position map of one [3,1,2] round on nine characters |
| ColumnTransposition.DidYouSee | src/core/column_transposition.py:75-92 | "DIDYOUSEE" with [3,1,2] gives "IOEDUEDYS", and a second round gives "OUYEESIDD" |
| ColumnTransposition.DidYouSeeBack | src/core/column_transposition.py:38-53 | one inverse round takes "IOEDUEDYS" back, and two take "OUYEESIDD" back, to "DIDYOUSEE" |
| ColumnTranspositionLegacy.PaddedText | src/column_transposition.py:66-72 | space-padded to the next multiple of N, keeping the text as a prefix |
| ColumnTranspositionLegacy.Grid | src/column_transposition.py:74 | rows of width N whose cells are the padded text in row-major order |
| ColumnTranspositionLegacy.PaddedGrid | src/column_transposition.py:66-74 | the padded grid is the row cut of the text, left-justified |
| ColumnTranspositionLegacy.SingleRoundTranspose | src/column_transposition.py:55-81 | the method (pad, grid, read columns in key order, rstrip) computes Round |
| ColumnTranspositionLegacy.ReadOffCells | src/column_transposition.py:77-79 | output cell (j, r) is grid cell (r, key[j]) |
| ColumnTranspositionLegacy.RoundClosedForm | src/column_transposition.py:55-81 | on whitespace-free text with N dividing the length, one round is that cell map, with no stripping |
| ColumnTranspositionLegacy.RoundAsCore | src/column_transposition.py:55-81 | the older round with 0-based key p is the current forward round with the inverse of p |
| ColumnTranspositionLegacy.RoundPermutes | src/column_transposition.py:55-81 | one round keeps the length and is a permutation |
| ColumnTranspositionLegacy.GetInverseKey | src/column_transposition.py:84-97 | the loop computes inverse[key[i]] = i, and that is the inverse permutation for a permutation key |
| ColumnTranspositionLegacy.InvertedIsInverse | src/column_transposition.py:94-96 | the recorded list is the inverse permutation |
| ColumnTranspositionLegacy.Transpose | src/column_transposition.py:21-35 | runs max(rounds, 0) rounds with no preparation |
| ColumnTranspositionLegacy.InverseTranspose | src/column_transposition.py:37-52 | runs forward rounds with the inverse key |
| ColumnTranspositionLegacy.RoundsPermute | src/column_transposition.py:21-35 | repeated rounds are a permutation of the text |
| ColumnTranspositionLegacy.TwoByTwo | src/column_transposition.py:55-81 | key [1,0] on four characters gives characters 1, 3, 0, 2 |
| ColumnTranspositionLegacy.InverseTransposeNotInverse | src/column_transposition.py:37-52 | "ABCD" with [1,0] encrypts to "BDAC", which the older inverse_transpose turns into "DCBA" |
| ColumnTranspositionLegacy.CorrectedInverseTranspose | src/column_transposition.py:37-52 | corrected decryption: inverse (read-back) rounds |
| ColumnTranspositionLegacy.CorrectedRound | src/column_transposition.py:55-81 | the read-back round undoes one older round |
| ColumnTranspositionLegacy.CorrectedRoundTrip | src/column_transposition.py:21-52 | r corrected inverse rounds undo r older forward rounds |
| ShiftRows.Rows | src/core/shift_rows.py:58-59 | rows of exactly num_columns characters |
| ShiftRows.RowsLayout | src/core/shift_rows.py:58-59 | ceil(len / n) rows whose concatenation is the text space-padded to full width |
| ShiftRows.ShiftMatrix | src/core/shift_rows.py:65-66 | row widths kept; row 0 and rows i ≥ width are unchanged |
| ShiftRows.UnshiftMatrix | src/core/shift_rows.py:100-101 | row widths kept; row 0 and rows i ≥ width are unchanged |
| ShiftRows.Shift | src/core/shift_rows.py:41-74 | the loop rotates row i left by i, then the rows are right-stripped and joined |
| ShiftRows.InverseShift | src/core/shift_rows.py:76-109 | the loop rotates row i right by i, then the rows are right-stripped and joined |
| ShiftRows.ShiftRoundTrip | src/core/shift_rows.py:41-109 | inverse_shift(shift(t, n), n) == t for whitespace-free t, any width and any length |
| ShiftRows.UnshiftRoundTrip | src/core/shift_rows.py:41-109 | shift(inverse_shift(t, n), n) == t for whitespace-free t |
| ShiftRows.ShiftPermutes | src/core/shift_rows.py:68-103 | with n dividing the length, both directions keep the length and permute the characters |
| ShiftRows.ThreeRows | src/core/shift_rows.py:65-68 | three full rows become a, b rotated by 1 and c rotated by 2 (right rotations for the inverse) |
| ShiftRows.TwoRows | src/core/shift_rows.py:58-68 | a short last row is padded, rotated by 1 and right-stripped |
| ShiftRows.SquareExample | src/core/shift_rows.py:41-74 | "ABCDEFGHI" with 3 columns gives "ABCEFDIGH" |
| ShiftRows.SquareInverseExample | src/core/shift_rows.py:76-109 | "ABCEFDIGH" with 3 columns gives back "ABCDEFGHI" |
| ShiftRows.WideExample | src/core/shift_rows.py:41-74 | "ABCDEFGHIJKL" with 4 columns gives "ABCDFGHEKLIJ" |
| ShiftRows.WideInverseExample | src/core/shift_rows.py:76-109 | "ABCDFGHEKLIJ" with 4 columns gives back "ABCDEFGHIJKL" |
| ShiftRows.PaddedExample | src/core/shift_rows.py:58-68 | "ABCDE" with 3 columns gives "ABCE D" (the padding space is moved inside) |
| ShiftRows.PaddedInverseExample | src/core/shift_rows.py:93-103 | "ABCE D" with 3 columns gives back "ABCDE" |
| ShiftRows.EmptyExample | src/core/shift_rows.py:58-93 | the empty text maps to the empty text in both directions |
| ShiftRowsLegacy.Turned | src/shift_rows.py:40-48 | nine characters out, a permutation of the input |
| ShiftRowsLegacy.TurnedBack | src/shift_rows.py:72-80 | nine characters out, a permutation of the input |
| ShiftRowsLegacy.Shift | src/shift_rows.py:19-49 | fails exactly when the text is not nine characters long; otherwise the 3×3 shift |
| ShiftRowsLegacy.InverseShift | src/shift_rows.py:51-81 | fails exactly when the text is not nine characters long; otherwise the 3×3 unshift |
| ShiftRowsLegacy.TurnedRoundTrip | src/shift_rows.py:19-81 | the two 3×3 operations undo each other in both orders |
| ShiftRowsLegacy.AgreesWithGeneral | src/shift_rows.py:40-80 | on whitespace-free nine-character text they equal the general shift with 3 columns |
| Utilities.CharBits | src/utils/utilities.py:28 | at least 8 bits per character, and exactly 8 below code point 256 |
| Utilities.CharBitsFormat | src/utils/utilities.py:28 | the bits are bin(ord(c)) zero-filled to 8 digits |
| Utilities.TextToBinary | src/utils/utilities.py:18-28 | a bit string, 8 bits per character for Latin-1 text |
| Utilities.BinaryToText | src/utils/utilities.py:31-41 | one character below 256 per started 8-bit chunk |
| Utilities.TextRoundTrip | src/utils/utilities.py:28-41 | binary_to_text(text_to_binary(t)) == t for Latin-1 t |
| Utilities.BinaryRoundTrip | src/utils/utilities.py:28-41 | text_to_binary(binary_to_text(b)) == b when 8 divides len(b) |
| Utilities.ParseBase | src/utils/utilities.py:54-67 | int(s, base) fails when only whitespace int() skips is left; plain digits read as their value; only a leading '-' gives a negative number |
| Utilities.TrimmedIsStrip | src/utils/utilities.py:54-67 | on text without U+001C to U+001F, the whitespace int() ignores around the number is exactly what str.strip() removes |
| Utilities.IntSpaceIsWhitespace | src/utils/utilities.py:54-67 | a character int() skips is str.isspace() whitespace, and the rest of that whitespace is U+001C to U+001F |
| Utilities.SeparatorNotSkipped | src/utils/utilities.py:67 | strip() removes the U+001C in "\x1c41", but int(s, 16) raises on it |
| Utilities.ParseBaseBound | src/utils/utilities.py:54-67 | the number int() reads has no more digits than the string has characters |
| Utilities.HexText | src/utils/utilities.py:54 | hex()[2:].upper() is upper-case hex digits exactly when the number is not negative |
| Utilities.BinText | src/utils/utilities.py:67 | bin()[2:] is all bits exactly when the number is not negative |
| Utilities.BinaryToHex | src/utils/utilities.py:44-54 | fails exactly where int(binary, 2) raises; otherwise at least len/4 characters, upper-case hex exactly when the number read is not negative; plain bits always give hex |
| Utilities.HexToBinary | src/utils/utilities.py:57-67 | fails exactly where int(hex, 16) raises; otherwise at least 4 per input character; all bits exactly when the number read is not negative, and then exactly 4 per input character |
| Utilities.NibblesFit | src/utils/utilities.py:67 | a non-negative number read from hex is zero-filled to exactly its fixed-width binary form |
| Utilities.BinaryToHexFixed | src/utils/utilities.py:54 | with 4 dividing len, the value in exactly len/4 upper-case hex digits |
| Utilities.HexToBinaryFixed | src/utils/utilities.py:67 | the value in exactly 4 bits per hex digit |
| Utilities.HexRoundTrip | src/utils/utilities.py:54-67 | hex_to_binary(binary_to_hex(b)) == b for non-empty b with 4 dividing len |
| Utilities.BinaryRoundTripHex | src/utils/utilities.py:54-67 | binary_to_hex(hex_to_binary(h)) == h for non-empty upper-case hex h |
| Utilities.FixedBitsBack | src/utils/utilities.py:44-54 | the 4·len(h) bits of h's value are read back by binary_to_hex as h |
| Utilities.TextExample | src/utils/utilities.py:28-41 | "A" ↔ "01000001" |
| Utilities.HexExample | src/utils/utilities.py:67 | "41" → "01000001" |
| Utilities.BinaryExample | src/utils/utilities.py:54 | "01000001" → "41" |
| Utilities.ConverterFailures | src/utils/utilities.py:54-67 | empty input, a '2' in binary, or a 'G' in hex fails |
| Utilities.PrefixedHex | src/utils/utilities.py:67 | "0x41" reads as 65 and gives sixteen bits "0000000001000001", the prefix counting for zfill |
| Utilities.PaddedHex | src/utils/utilities.py:67 | " 4142 " reads as 16706 |
| Utilities.NegativeHex | src/utils/utilities.py:67 | "-41" reads as -65 and gives a string that is not all bits |
| Utilities.SignedBinary | src/utils/utilities.py:54 | "-101" reads as -5 and gives "X5" |
| Utilities.PrefixedBinary | src/utils/utilities.py:54 | "+0b101" reads as 5 |
| Utilities.RejectedSyntax | src/utils/utilities.py:54-67 | "0x" and "- 1" make int() raise |
| EnhancedSdes.Cipher | src/core/enhanced_sdes.py:165-168 | the per-block operation maps 8-bit blocks to 8-bit blocks |
| EnhancedSdes.SdesBlocks | src/core/enhanced_sdes.py:157-170 | fails exactly when a block would be short; otherwise a bit string of the same length |
| EnhancedSdes.ApplySdes | src/core/enhanced_sdes.py:136-179 | the loop computes the blockwise S-DES of the bits |
| EnhancedSdes.ApplyBlocks | src/core/enhanced_sdes.py:157-170 | the loop over 8-bit slices computes the blockwise result |
| EnhancedSdes.BlocksStep | src/core/enhanced_sdes.py:157-170 | the blockwise result is the first block's result followed by the rest's |
| EnhancedSdes.SdesBlockAt | src/core/enhanced_sdes.py:157-170 | output block j is the cipher of input block j alone |
| EnhancedSdes.BlocksRoundTrip | src/core/enhanced_sdes.py:157-170 | a blockwise pass with an undoing cipher restores the bits |
| EnhancedSdes.CipherUndoes | src/core/enhanced_sdes.py:165-168 | S-DES decryption undoes encryption block by block, and the reverse |
| EnhancedSdes.CipherUndoesBack | src/core/enhanced_sdes.py:165-168 | S-DES encryption undoes decryption block by block |
| EnhancedSdes.SdesBlocksRoundTrip | src/core/enhanced_sdes.py:157-170 | _apply_sdes(encrypt=False) undoes _apply_sdes(encrypt=True) under one key, and the reverse |
| EnhancedSdes.Encrypt | src/core/enhanced_sdes.py:57-95 | transpose, shift, bits, blockwise encryption, hex, in that order |
| EnhancedSdes.Decrypt | src/core/enhanced_sdes.py:97-134 | hex, blockwise decryption, text, inverse shift, inverse transpose, in that order |
| EnhancedSdes.ScrambleRoundTrip | src/core/enhanced_sdes.py:74-132 | inverse shift then inverse transpose undo transpose then shift, giving the prepared text |
| EnhancedSdes.TextBlocksRoundTrip | src/core/enhanced_sdes.py:84-122 | text → bits → blocks → undo → bits gives the bits back, 8 per character |
| EnhancedSdes.BytesHexRoundTrip | src/core/enhanced_sdes.py:90-114 | a whole-byte bit string goes through hex with two digits per byte and comes back |
| EnhancedSdes.HexRoundTrip | src/core/enhanced_sdes.py:84-122 | the hex layer succeeds iff the text is non-empty, with two hex digits per character, and decrypts back |
| EnhancedSdes.PipelineRoundTrip | src/core/enhanced_sdes.py:57-134 | encryption succeeds iff the prepared text is non-empty, gives two hex digits per prepared character, and decryption returns the prepared text |
| EnhancedSdes.CleanPipelineRoundTrip | src/core/enhanced_sdes.py:57-134 | for clean upper-case non-empty p with N dividing len(p), decrypt(encrypt(p)) == p |
| EnhancedSdes.HexBlocks | src/core/enhanced_sdes.py:114-118 | a ciphertext read as a non-negative number gives only bits, and their blocks fail exactly when it has an odd number of characters |
| EnhancedSdes.DecryptFailures | src/core/enhanced_sdes.py:97-134 | decrypt fails exactly when int(c, 16) raises, reads a negative number, or c has an odd number of characters |
| EnhancedSdes.DecryptSyntax | src/core/enhanced_sdes.py:97-134 | "0x41" and " 4142 " decrypt; "-41" fails |
| UserInterface.ValidSdesKey | src/ui/user_interface.py:120-130 | accepts exactly the 10-character strings over '0'/'1' |
| UserInterface.OneTo | src/ui/user_interface.py:233 | set(range(1, n + 1)) holds exactly 1..n |
| UserInterface.ValidTranspositionKey | src/ui/user_interface.py:217-236 | an accepted key has 2 to 26 entries and the value set {1..n} |
| UserInterface.DistinctCount | src/ui/user_interface.py:230-231 | len(set(key)) == len(key) exactly when no entry repeats |
| UserInterface.ValidTranspositionKeyExactly | src/ui/user_interface.py:217-236 | accepted iff 2 ≤ n ≤ 26 and the key is a permutation of 1..n |
| UserInterface.AcceptedIsKey | src/ui/user_interface.py:230-234 | distinct entries with value set {1..n} form a permutation key |
| UserInterface.KeyIsAccepted | src/ui/user_interface.py:230-234 | a permutation key passes the distinctness and value-set checks |
| UserInterface.ParseInt | src/ui/user_interface.py:202-204 | int(k.strip()) (ASCII digits only, see "## Left out") succeeds only on a token with something besides whitespace |
| UserInterface.ReadInt | src/ui/user_interface.py:202-204 | reading an optionally signed run of ASCII digits (no underscores, see "## Left out") succeeds only on non-empty input |
| UserInterface.FormatInt | src/ui/user_interface.py:207 | str(v) is non-empty, free of whitespace, commas and brackets |
| UserInterface.IntRoundTrip | src/ui/user_interface.py:202-204 | int() of str(v) after leading whitespace gives v |
| UserInterface.WordRoundTrip | src/ui/user_interface.py:204 | int(str(v)) == v |
| UserInterface.ParseEach | src/ui/user_interface.py:202-204 | succeeds exactly when every token parses, and then entry i is the number token i reads |
| UserInterface.ParseKeyList | src/ui/user_interface.py:198-204 | succeeds exactly when every piece (strip('[]'), then split on ',' if present, else on whitespace) reads with the model's int() (ASCII digits, no underscores) after strip(); entry i is that number for piece i |
| UserInterface.ParseCons | src/ui/user_interface.py:202-204 | the list comprehension reads the first token and then the rest |
| UserInterface.ParseOne | src/ui/user_interface.py:202-204 | a one-token list reads as a one-element key |
| UserInterface.ParseTranspositionKey | src/ui/user_interface.py:185-208 | an accepted result is a permutation key of 2 to 26 entries, reported with its length (keys written with underscores or non-ASCII digits are rejected, see "## Left out") |
| UserInterface.FormatKey | src/ui/user_interface.py:207 | the printed list starts with '[' and ends with ']' |
| UserInterface.CommaInItems | src/ui/user_interface.py:201 | a printed list contains a comma exactly when it has two or more entries |
| UserInterface.CommaItemsRoundTrip | src/ui/user_interface.py:201-202 | splitting printed entries on ',' and reading each piece gives the key back |
| UserInterface.StrippedItems | src/ui/user_interface.py:202 | every piece after the split reads back as its entry once stripped |
| UserInterface.StrippedRoundTrip | src/ui/user_interface.py:202 | int(k.strip()) of a whitespace-prefixed printed number gives the number |
| UserInterface.WordItemsRoundTrip | src/ui/user_interface.py:204 | without a comma, splitting on whitespace reads back a key of at most one entry |
| UserInterface.PrintedInner | src/ui/user_interface.py:198 | strip('[]') of a printed list leaves exactly its entries |
| UserInterface.KeyListRoundTrip | src/ui/user_interface.py:198-204 | the tokenising step reads any printed list back to the list |
| UserInterface.PrintedKeyRoundTrip | src/ui/user_interface.py:185-208 | a printed key is accepted, with its length, exactly when the validator accepts it |

## Left out

- Printing, the `progress_level` / `show_progress` switches and `create_table` output: display only.
- The user interface's prompts, menus, file saving and the retry path of `_parse_transposition_key` (src/ui/user_interface.py:212-214): these are I/O. A rejected key is `None` in the model.
- Random key generation (`_generate_transposition_key`, `KeyManager`) and the column-size prompt (src/ui/user_interface.py:148-183): randomness and I/O.
- The older pipeline `src/enhanced_sdes.py` is not part of this model.
- Python's negative indices: keys are taken as permutations (`requires`). The source never checks this, and an out-of-range entry there wraps around or raises.
- Utilities.ParseBase, Utilities.BinaryToHex, Utilities.HexToBinary, EnhancedSdes.DecryptFailures: `int()`'s underscores between digits ("4_1", "0x_41") and its non-ASCII digits are not modelled; the model fails on such input where Python reads a number.
- UserInterface.ReadInt, UserInterface.ParseInt, UserInterface.ParseKeyList, UserInterface.ParseTranspositionKey: the same gap in the key parser. `int()` reads "0_1" as 1 and reads non-ASCII decimal digits, so the source accepts "0_1, 2" as the key [1, 2]; the model reads only ASCII '0'-'9' after an optional sign and returns `None` for such a key.
- `.upper()` is modelled for ASCII only, and `text_to_binary` is only inverted for code points below 256.
- `ColumnTransposition.RoundTrip` is proved only when the column count divides the text length. `_prepare_text` guarantees this whenever the key has at most 27 entries, and the validator caps keys at 26. For other lengths `ColumnLengths` follows the source as written, but no round trip is claimed.
- `ColumnTransposition.TransposeRoundTrip` and `EnhancedSdes.PipelineRoundTrip` require at most 26 key entries, as the key validator enforces. The padding rule adds at most 26 letters.
- The 28-letter vector "TTNAAPTMTSUOAODWCOIXKNLYPETZ" with key [4,3,1,2,5,6,7] is not proved. Neither are the 16-letter shift vector "ABCDEFGHIJKLMNOP" with 4 columns, the 7-column shift vector "ATTACKPOSTPONEDUNTILTWOAMXYZ" → "ATTACKPSTPONEONTILTDUMXYZWOA" and its inverse, nor the two-byte hex vector "0100000101000010" → "4142". Each would cost a long literal evaluation; the general round-trip lemmas and the shorter vectors above cover the same code.
- The pipeline vector "DIDYOUSEE", key 0010010111, [3,1,2], two rounds → "CF4A218C4C8C7C827C" is not proved: it needs nine full S-DES evaluations on literals.
- Determinism of `encrypt` holds by construction: every operation is a function of its inputs.
- EnhancedSdes.ApplyBlocks: takes the per-block cipher as a parameter. The `if encrypt:` choice of src/core/enhanced_sdes.py:165-168 sits in `Cipher`, and `ApplySdes` joins the two.
- A block shorter than 8 bits raises in the source (an index out of range in `_permute`). The model returns `None` for it.
- The shift-rows step follows the code, not a "rotate modulo the width" reading: rows with index ≥ num_columns are not rotated (src/core/shift_rows.py:65-66). `ShiftMatrix` states this.

## Findings

| source | as written | input that shows it | evidently intended | confidence | as-written member | corrected member |
|---|---|---|---|---|---|---|
| src/column_transposition.py:37-52 | `inverse_transpose` runs the forward round again, with the inverse key | key [1,0] and "ABCD": `transpose` gives "BDAC", and `inverse_transpose` of that gives "DCBA", not "ABCD" | each decryption round reads the columns back into rows, so decryption undoes encryption | high (proved in the model; not executed) | ColumnTranspositionLegacy.InverseTransposeNotInverse | ColumnTranspositionLegacy.CorrectedRoundTrip |
