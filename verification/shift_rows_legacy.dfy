/** The older Shift Rows step, fixed to a 3 by 3 matrix: the text must be exactly nine
    characters (anything else raises ValueError, modelled as None); row 1 turns by one and
    row 2 by two, with no padding and no stripping. */
module ShiftRowsLegacy {
  import opened Wrappers
  import opened Text
  import ShiftRows

  /** The nine characters with row 1 turned left by one and row 2 by two. */
  function Turned(text: string): (r: string)
    requires |text| == 9
    ensures |r| == 9 && multiset(r) == multiset(text)
  {
    RotatePermutes(text[3..6], 1);
    RotatePermutes(text[6..], 2);
    assert text == text[..3] + text[3..6] + text[6..];
    text[..3] + RotateLeft(text[3..6], 1) + RotateLeft(text[6..], 2)
  }

  /** The nine characters with row 1 turned right by one and row 2 by two. */
  function TurnedBack(text: string): (r: string)
    requires |text| == 9
    ensures |r| == 9 && multiset(r) == multiset(text)
  {
    RotatePermutes(text[3..6], 1);
    RotatePermutes(text[6..], 2);
    assert text == text[..3] + text[3..6] + text[6..];
    text[..3] + RotateRight(text[3..6], 1) + RotateRight(text[6..], 2)
  }

  /** shift: split into three rows, overwrite rows 1 and 2 with their rotations, join. */
  method Shift(text: string) returns (result: Option<string>)
    ensures result.None? <==> |text| != 9
    ensures result.Some? ==> result.value == Turned(text)
  {
    if |text| != 9 {
      return None;
    }
    var matrix := [text[0..3], text[3..6], text[6..9]];
    matrix := matrix[1 := matrix[1][1..] + [matrix[1][0]]];
    matrix := matrix[2 := matrix[2][2..] + matrix[2][..2]];
    result := Some(matrix[0] + matrix[1] + matrix[2]);
  }

  /** inverse_shift: the same with rows 1 and 2 rotated right. */
  method InverseShift(text: string) returns (result: Option<string>)
    ensures result.None? <==> |text| != 9
    ensures result.Some? ==> result.value == TurnedBack(text)
  {
    if |text| != 9 {
      return None;
    }
    var matrix := [text[0..3], text[3..6], text[6..9]];
    matrix := matrix[1 := [matrix[1][2]] + matrix[1][..2]];
    matrix := matrix[2 := matrix[2][1..] + matrix[2][..1]];
    result := Some(matrix[0] + matrix[1] + matrix[2]);
  }

  /** The two operations undo each other, in both orders. */
  lemma TurnedRoundTrip(text: string)
    requires |text| == 9
    ensures TurnedBack(Turned(text)) == text && Turned(TurnedBack(text)) == text
  {
    var t := Turned(text);
    assert t[..3] == text[..3] && t[3..6] == RotateLeft(text[3..6], 1);
    assert t[6..] == RotateLeft(text[6..], 2);
    RotateRoundTrip(text[3..6], 1);
    RotateRoundTrip(text[6..], 2);
    assert text == text[..3] + text[3..6] + text[6..];
    var u := TurnedBack(text);
    assert u[..3] == text[..3] && u[3..6] == RotateRight(text[3..6], 1);
    assert u[6..] == RotateRight(text[6..], 2);
  }

  /** On nine whitespace-free characters the older operations agree with the general ones
      on three columns. */
  lemma AgreesWithGeneral(text: string)
    requires |text| == 9 && NoWhitespace(text)
    ensures Turned(text) == ShiftRows.Shifted(text, 3)
    ensures TurnedBack(text) == ShiftRows.Unshifted(text, 3)
  {
    var a, b, c := text[..3], text[3..6], text[6..];
    assert text == a + b + c;
    assert NoWhitespace(a) && NoWhitespace(b) && NoWhitespace(c);
    ShiftRows.ThreeRows(a, b, c, 3);
  }
}
