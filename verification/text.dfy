/** The pieces of Python's str behaviour that the cipher relies on: the whitespace
    class of str.isspace(), rstrip(), ljust(), upper() on ASCII, split() with no
    separator, ''.join(), and the slice rotations s[n:] + s[:n] and s[-n:] + s[:-n]. */
module Text {
  import opened Arith

  /** str.isspace() for one character: \t \n \v \f \r, the separators \x1c-\x1f, space,
      \x85, \xa0 and the Unicode space separators above 255. */
  predicate IsWhitespace(c: char) {
    var k := c as int;
    (9 <= k <= 13) || (28 <= k <= 32) || k == 0x85 || k == 0xA0 || k == 0x1680
    || (0x2000 <= k <= 0x200A) || k == 0x2028 || k == 0x2029 || k == 0x202F
    || k == 0x205F || k == 0x3000
  }

  predicate NoWhitespace(s: string) {
    forall i :: 0 <= i < |s| ==> !IsWhitespace(s[i])
  }

  /** Moving characters around cannot bring whitespace in. */
  lemma NoWhitespacePermuted(a: string, b: string)
    requires multiset(a) == multiset(b) && NoWhitespace(a)
    ensures NoWhitespace(b)
  {
    forall i | 0 <= i < |b| ensures !IsWhitespace(b[i]) {
      assert b[i] in multiset(a);
      var j :| 0 <= j < |a| && a[j] == b[i];
    }
  }

  /** Moving characters around keeps text ASCII. */
  lemma AsciiPermuted(a: string, b: string)
    requires multiset(a) == multiset(b) && IsAscii(a)
    ensures IsAscii(b)
  {
    forall i | 0 <= i < |b| ensures b[i] as int < 128 {
      assert b[i] in multiset(a);
      var j :| 0 <= j < |a| && a[j] == b[i];
    }
  }

  predicate IsAscii(s: string) {
    forall i :: 0 <= i < |s| ==> s[i] as int < 128
  }

  /** Every character is a code point below 256, so it fits one 8-bit byte. */
  predicate IsLatin1(s: string) {
    forall i :: 0 <= i < |s| ==> s[i] as int < 256
  }

  /** ''.join(pieces). */
  function Concat<T>(pieces: seq<seq<T>>): (r: seq<T>)
  {
    if pieces == [] then [] else pieces[0] + Concat(pieces[1..])
  }

  lemma {:induction false} ConcatAppend<T>(pieces: seq<seq<T>>, last: seq<T>)
    ensures Concat(pieces + [last]) == Concat(pieces) + last
  {
    if pieces != [] {
      assert (pieces + [last])[1..] == pieces[1..] + [last];
      ConcatAppend(pieces[1..], last);
    }
  }

  lemma ConcatCons<T>(first: seq<T>, rest: seq<seq<T>>)
    ensures Concat([first] + rest) == first + Concat(rest)
  {
    assert ([first] + rest)[0] == first && ([first] + rest)[1..] == rest;
  }

  /** Three pieces in a row. */
  lemma ConcatThree<T>(x: seq<T>, y: seq<T>, z: seq<T>)
    ensures Concat([x, y, z]) == x + y + z
  {
    ConcatCons(z, []);
    ConcatCons(y, [z]);
    ConcatCons(x, [y, z]);
    assert [x, y, z] == [x] + [y, z] && [y, z] == [y] + [z] && [z] + [] == [z];
  }

  lemma {:induction false} ConcatJoin<T>(a: seq<seq<T>>, b: seq<seq<T>>)
    ensures Concat(a + b) == Concat(a) + Concat(b)
  {
    if a == [] {
      assert a + b == b;
    } else {
      assert (a + b)[0] == a[0];
      assert (a + b)[1..] == a[1..] + b;
      ConcatJoin(a[1..], b);
    }
  }

  /** Every piece's characters are among the joined characters. */
  lemma {:induction false} ConcatContains<T>(pieces: seq<seq<T>>, i: nat)
    requires i < |pieces|
    ensures multiset(pieces[i]) <= multiset(Concat(pieces))
  {
    if i > 0 {
      ConcatContains(pieces[1..], i - 1);
    }
  }

  /** Pieces of one common width w: the join is |pieces| * w long. */
  lemma {:induction false} ConcatUniformLength<T>(pieces: seq<seq<T>>, w: nat)
    requires forall b :: 0 <= b < |pieces| ==> |pieces[b]| == w
    ensures |Concat(pieces)| == |pieces| * w
  {
    if pieces != [] {
      ConcatUniformLength(pieces[1..], w);
      assert |pieces| * w == w + (|pieces| - 1) * w;
    }
  }

  /** Pieces of one common width w: piece b, offset j lands at b * w + j. */
  lemma {:induction false} ConcatUniformAt<T>(pieces: seq<seq<T>>, w: nat, b: nat, j: nat)
    requires forall k :: 0 <= k < |pieces| ==> |pieces[k]| == w
    requires b < |pieces| && j < w
    ensures |Concat(pieces)| == |pieces| * w
    ensures b * w + j < |Concat(pieces)| && Concat(pieces)[b * w + j] == pieces[b][j]
  {
    ConcatUniformLength(pieces, w);
    CellInGrid(b, j, |pieces|, w);
    if b > 0 {
      ConcatUniformAt(pieces[1..], w, b - 1, j);
      assert b * w + j == w + ((b - 1) * w + j);
    }
  }

  /** Appending one element to one piece adds exactly that element to the joined multiset. */
  lemma {:induction false} ConcatGrowPiece<T>(pieces: seq<seq<T>>, b: nat, x: T)
    requires b < |pieces|
    ensures multiset(Concat(pieces[b := pieces[b] + [x]])) == multiset(Concat(pieces)) + multiset{x}
    ensures |Concat(pieces[b := pieces[b] + [x]])| == |Concat(pieces)| + 1
  {
    var grown := pieces[b := pieces[b] + [x]];
    if b == 0 {
      assert grown[1..] == pieces[1..];
    } else {
      assert grown[1..] == pieces[1..][b - 1 := pieces[b] + [x]];
      ConcatGrowPiece(pieces[1..], b - 1, x);
    }
  }

  /** str.rstrip(): the longest prefix that does not end in whitespace, dropping only whitespace. */
  function RStrip(s: string): (r: string)
    ensures r <= s
    ensures NoWhitespace(s) ==> r == s
    ensures r == [] || !IsWhitespace(r[|r| - 1])
    ensures forall i :: |r| <= i < |s| ==> IsWhitespace(s[i])
  {
    if s != [] && IsWhitespace(s[|s| - 1]) then RStrip(s[..|s| - 1]) else s
  }

  /** str.ljust(width): right-pad with spaces up to width. */
  function LJust(s: string, width: nat): (r: string)
    ensures |r| == if |s| < width then width else |s|
    ensures s <= r && forall i :: |s| <= i < |r| ==> r[i] == ' '
  {
    if |s| < width then s + seq(width - |s|, _ => ' ') else s
  }

  /** Padding whitespace-free text with spaces and stripping it again gives the text back. */
  lemma RStripLJust(s: string, width: nat)
    requires NoWhitespace(s)
    ensures RStrip(LJust(s, width)) == s
  {
    var padded := LJust(s, width);
    var r := RStrip(padded);
    if s != [] {
      assert padded[|s| - 1] == s[|s| - 1];
    }
    if |r| > |s| {
      assert false;
    }
    assert r == padded[..|r|] && s == padded[..|s|];
  }

  /** s[n:] + s[:n] with Python's clamped slices: a left rotation by n when n <= |s|,
      and the unchanged s when n is past the end. */
  function RotateLeft<T>(s: seq<T>, n: nat): (r: seq<T>)
    ensures |r| == |s|
    ensures n <= |s| ==> forall i :: 0 <= i < |s| ==>
      r[i] == s[if i + n < |s| then i + n else i + n - |s|]
    ensures n >= |s| ==> r == s
  {
    if n <= |s| then s[n..] + s[..n] else s
  }

  /** s[-n:] + s[:-n] with Python's clamped slices: a right rotation by n when n <= |s|,
      and the unchanged s when n is 0 or past the end. */
  function RotateRight<T>(s: seq<T>, n: nat): (r: seq<T>)
    ensures |r| == |s|
    ensures n <= |s| ==> forall i :: 0 <= i < |s| ==>
      r[i] == s[if i >= n then i - n else i - n + |s|]
    ensures n >= |s| ==> r == s
  {
    if 0 < n <= |s| then s[|s| - n..] + s[..|s| - n] else s
  }

  lemma RotateRoundTrip<T>(s: seq<T>, n: nat)
    ensures RotateRight(RotateLeft(s, n), n) == s
    ensures RotateLeft(RotateRight(s, n), n) == s
  {
    if 0 < n < |s| {
      var l := s[n..] + s[..n];
      assert l[|l| - n..] == s[..n] && l[..|l| - n] == s[n..];
      assert s[..n] + s[n..] == s;
      var r := s[|s| - n..] + s[..|s| - n];
      assert r[n..] == s[..|s| - n] && r[..n] == s[|s| - n..];
      assert s[..|s| - n] + s[|s| - n..] == s;
    }
  }

  lemma RotatePermutes<T>(s: seq<T>, n: nat)
    ensures multiset(RotateLeft(s, n)) == multiset(s)
    ensures multiset(RotateRight(s, n)) == multiset(s)
  {
    if 0 < n <= |s| {
      assert s == s[..n] + s[n..];
      assert s == s[..|s| - n] + s[|s| - n..];
    }
  }

  /** str.upper() on one ASCII character. */
  function UpperChar(c: char): (r: char)
    ensures 'a' <= c <= 'z' ==> r as int == c as int - 32
    ensures !('a' <= c <= 'z') ==> r == c
  {
    if 'a' <= c <= 'z' then (c as int - 32) as char else c
  }

  function Upper(s: string): (r: string)
    ensures |r| == |s| && forall i :: 0 <= i < |s| ==> r[i] == UpperChar(s[i])
  {
    seq(|s|, i requires 0 <= i < |s| => UpperChar(s[i]))
  }

  /** The characters of s that are not whitespace, in order. */
  function RemoveWhitespace(s: string): (r: string)
    ensures NoWhitespace(r) && multiset(r) <= multiset(s)
  {
    assert s != [] ==> s == [s[0]] + s[1..];
    if s == [] then []
    else if IsWhitespace(s[0]) then RemoveWhitespace(s[1..])
    else [s[0]] + RemoveWhitespace(s[1..])
  }

  lemma {:induction false} RemoveWhitespaceNoop(s: string)
    requires NoWhitespace(s)
    ensures RemoveWhitespace(s) == s
  {
    if s != [] {
      RemoveWhitespaceNoop(s[1..]);
    }
  }

  /** str.split() with no separator: the maximal runs of non-whitespace characters. */
  function SplitWhitespace(s: string): (r: seq<string>)
    ensures forall i :: 0 <= i < |r| ==> r[i] != [] && NoWhitespace(r[i])
    ensures Concat(r) == RemoveWhitespace(s)
  {
    SplitFromConcat(s, []);
    assert [] + RemoveWhitespace(s) == RemoveWhitespace(s);
    SplitFrom(s, [])
  }

  /** Splitting s when the non-whitespace run `token` has already been read. */
  function SplitFrom(s: string, token: string): (r: seq<string>)
    requires NoWhitespace(token)
    ensures forall i :: 0 <= i < |r| ==> r[i] != [] && NoWhitespace(r[i])
    decreases |s|
  {
    if s == [] then
      (if token == [] then [] else [token])
    else if IsWhitespace(s[0]) then
      var rest := SplitFrom(s[1..], []);
      if token == [] then rest else [token] + rest
    else
      SplitFrom(s[1..], token + [s[0]])
  }

  lemma {:induction false} SplitFromConcat(s: string, token: string)
    requires NoWhitespace(token)
    ensures Concat(SplitFrom(s, token)) == token + RemoveWhitespace(s)
    decreases |s|
  {
    if s == [] {
      ConcatCons(token, []);
    } else if IsWhitespace(s[0]) {
      SplitFromConcat(s[1..], []);
      assert RemoveWhitespace(s) == RemoveWhitespace(s[1..]);
      if token == [] {
        assert SplitFrom(s, token) == SplitFrom(s[1..], []);
      } else {
        assert SplitFrom(s, token) == [token] + SplitFrom(s[1..], []);
        ConcatCons(token, SplitFrom(s[1..], []));
      }
    } else {
      SplitFromConcat(s[1..], token + [s[0]]);
      assert SplitFrom(s, token) == SplitFrom(s[1..], token + [s[0]]);
      assert RemoveWhitespace(s) == [s[0]] + RemoveWhitespace(s[1..]);
      assert token + [s[0]] + RemoveWhitespace(s[1..]) == token + RemoveWhitespace(s);
    }
  }
}
