/** Python's str operations that read a key list typed at the console: strip() and
    strip(chars), split() of a single word, str.split(sep) and sep.join() for a
    one-character separator. */
module Tokens {
  import opened Text

  /** str.lstrip(): the longest suffix that does not start with whitespace, dropping only
      whitespace. */
  function LStrip(s: string): (r: string)
    ensures |r| <= |s| && r == s[|s| - |r|..]
    ensures r == [] || !IsWhitespace(r[0])
    ensures forall i :: 0 <= i < |s| - |r| ==> IsWhitespace(s[i])
  {
    if s != [] && IsWhitespace(s[0]) then LStrip(s[1..]) else s
  }

  /** str.strip(): whitespace dropped at both ends. */
  function Strip(s: string): (r: string)
    ensures |r| <= |s|
    ensures NoWhitespace(s) ==> r == s
  {
    var right := RStrip(s);
    assert NoWhitespace(s) && s != [] ==> !IsWhitespace(right[0]);
    LStrip(right)
  }

  /** Stripping leaves text whose ends are not whitespace as it is, and strips any leading
      whitespace in front of it. */
  lemma {:induction false} StripAfterWhitespace(pad: string, s: string)
    requires s != [] && !IsWhitespace(s[0]) && !IsWhitespace(s[|s| - 1])
    requires forall i :: 0 <= i < |pad| ==> IsWhitespace(pad[i])
    ensures Strip(pad + s) == s
  {
    assert RStrip(pad + s) == pad + s;
    if pad != [] {
      assert (pad + s)[1..] == pad[1..] + s;
      StripAfterWhitespace(pad[1..], s);
      assert RStrip(pad[1..] + s) == pad[1..] + s;
    }
  }

  /** str.lstrip(chars): the longest suffix that does not start with one of chars. */
  function LStripChars(s: string, chars: set<char>): (r: string)
    ensures |r| <= |s| && r == s[|s| - |r|..]
    ensures r == [] || r[0] !in chars
    ensures forall i :: 0 <= i < |s| - |r| ==> s[i] in chars
  {
    if s != [] && s[0] in chars then LStripChars(s[1..], chars) else s
  }

  /** str.rstrip(chars): the longest prefix that does not end in one of chars. */
  function RStripChars(s: string, chars: set<char>): (r: string)
    ensures r <= s
    ensures r == [] || r[|r| - 1] !in chars
    ensures forall i :: |r| <= i < |s| ==> s[i] in chars
  {
    if s != [] && s[|s| - 1] in chars then RStripChars(s[..|s| - 1], chars) else s
  }

  /** str.strip(chars): characters of chars dropped at both ends. */
  function StripChars(s: string, chars: set<char>): (r: string)
  {
    RStripChars(LStripChars(s, chars), chars)
  }

  /** strip(chars) removes chars wrapped around text whose ends are not in chars. */
  lemma {:induction false} StripCharsWrapped(front: string, s: string, back: string, chars: set<char>)
    requires forall i :: 0 <= i < |front| ==> front[i] in chars
    requires forall i :: 0 <= i < |back| ==> back[i] in chars
    requires s == [] || (s[0] !in chars && s[|s| - 1] !in chars)
    requires s != [] || back == []
    ensures StripChars(front + s + back, chars) == s
  {
    var rest := s + back;
    assert rest == [] || rest[0] !in chars;
    var whole := front + s + back;
    assert whole == front + rest;
    LStripCharsFront(front, rest, chars);
    assert LStripChars(whole, chars) == rest;
    RStripCharsBack(s, back, chars);
    assert RStripChars(rest, chars) == s;
  }

  lemma {:induction false} LStripCharsFront(front: string, s: string, chars: set<char>)
    requires forall i :: 0 <= i < |front| ==> front[i] in chars
    requires s == [] || s[0] !in chars
    ensures LStripChars(front + s, chars) == s
  {
    if front != [] {
      assert (front + s)[1..] == front[1..] + s;
      LStripCharsFront(front[1..], s, chars);
    }
  }

  lemma {:induction false} RStripCharsBack(s: string, back: string, chars: set<char>)
    requires forall i :: 0 <= i < |back| ==> back[i] in chars
    requires s == [] || s[|s| - 1] !in chars
    ensures RStripChars(s + back, chars) == s
  {
    if back != [] {
      var shorter := back[..|back| - 1];
      assert (s + back)[..|s + back| - 1] == s + shorter;
      RStripCharsBack(s, shorter, chars);
    }
  }

  /** split() of text without whitespace is the text alone, and of the empty text nothing. */
  lemma SplitWhitespaceWord(s: string)
    requires NoWhitespace(s)
    ensures SplitWhitespace(s) == if s == [] then [] else [s]
  {
    SplitFromWord(s, []);
    assert [] + s == s;
  }

  lemma {:induction false} SplitFromWord(s: string, token: string)
    requires NoWhitespace(s) && NoWhitespace(token)
    ensures SplitFrom(s, token) == if s == [] && token == [] then [] else [token + s]
    decreases |s|
  {
    if s == [] {
      assert token + s == token;
    } else {
      SplitFromWord(s[1..], token + [s[0]]);
      assert token + [s[0]] + s[1..] == token + s;
    }
  }

  /** str.split(sep) with a one-character separator: the pieces between separators, empty
      pieces included, always at least one. */
  function SplitOn(s: string, sep: char): (r: seq<string>)
    ensures |r| >= 1
    ensures forall i :: 0 <= i < |r| ==> sep !in r[i]
    ensures JoinOn(r, sep) == s
  {
    if s == [] then [[]]
    else
      var rest := SplitOn(s[1..], sep);
      assert s == [s[0]] + s[1..];
      if s[0] == sep then [[]] + rest
      else
        assert rest == [rest[0]] + rest[1..];
        [[s[0]] + rest[0]] + rest[1..]
  }

  /** sep.join(pieces) for a one-character separator and at least one piece. */
  function JoinOn(pieces: seq<string>, sep: char): (r: string)
    requires |pieces| >= 1
    ensures |r| >= |pieces| - 1
  {
    if |pieces| == 1 then pieces[0] else pieces[0] + [sep] + JoinOn(pieces[1..], sep)
  }

  /** Splitting a join of pieces free of the separator gives the pieces back. */
  lemma {:induction false} SplitJoin(pieces: seq<string>, sep: char)
    requires |pieces| >= 1 && forall i :: 0 <= i < |pieces| ==> sep !in pieces[i]
    ensures SplitOn(JoinOn(pieces, sep), sep) == pieces
    decreases |pieces|
  {
    if |pieces| == 1 {
      SplitPiece(pieces[0], [], sep);
    } else {
      SplitJoin(pieces[1..], sep);
      SplitPiece(pieces[0], [sep] + JoinOn(pieces[1..], sep), sep);
      assert pieces[0] + [sep] + JoinOn(pieces[1..], sep) == pieces[0] + ([sep] + JoinOn(pieces[1..], sep));
      assert ([sep] + JoinOn(pieces[1..], sep))[1..] == JoinOn(pieces[1..], sep);
    }
  }

  /** A separator-free piece in front of a separator or of the end is the first piece. */
  lemma {:induction false} SplitPiece(piece: string, tail: string, sep: char)
    requires sep !in piece && (tail == [] || tail[0] == sep)
    ensures var r := SplitOn(piece + tail, sep);
      r[0] == piece && r[1..] == (if tail == [] then [] else SplitOn(tail[1..], sep))
    decreases |piece|
  {
    if piece == [] {
      assert piece + tail == tail;
    } else {
      var whole := piece + tail;
      assert whole[0] == piece[0] && whole[0] != sep;
      assert whole[1..] == piece[1..] + tail;
      SplitPiece(piece[1..], tail, sep);
      assert [piece[0]] + piece[1..] == piece;
    }
  }
}
