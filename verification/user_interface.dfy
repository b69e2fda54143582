/** The checks and the parsing the console front end applies to the keys a user types:
    _validate_sdes_key, _validate_transposition_key and the tokenising part of
    _parse_transposition_key. Prompts, re-prompts and printing are not part of this model;
    where the front end reports an error and asks again, the functions here return None. */
module UserInterface {
  import opened Wrappers
  import opened Text
  import opened Digits
  import opened Tokens
  import Arith
  import Sdes
  import ColumnTransposition

  // ---------------------------------------------------------------------------
  // Key validation

  /** _validate_sdes_key: ten characters, each '0' or '1'; exactly the keys S-DES takes. */
  function ValidSdesKey(key: string): (r: bool)
    ensures r <==> Sdes.IsKey(key)
  {
    |key| == 10 && forall i :: 0 <= i < |key| ==> key[i] in "01"
  }

  /** set(trans_key). */
  function Elements(key: seq<int>): set<int> {
    set x | x in key
  }

  /** set(range(1, n + 1)). */
  function OneTo(n: int): (r: set<int>)
    ensures forall v :: v in r <==> 1 <= v <= n
    decreases n
  {
    if n <= 0 then {} else OneTo(n - 1) + {n}
  }

  /** No entry twice. */
  predicate Distinct(key: seq<int>) {
    forall i, j :: 0 <= i < j < |key| ==> key[i] != key[j]
  }

  /** _validate_transposition_key: between 2 and 26 entries, as many different values as
      entries, and the values are 1 to the number of entries. */
  function ValidTranspositionKey(key: seq<int>): (r: bool)
    ensures r ==> 2 <= |key| <= 26 && Elements(key) == OneTo(|key|)
  {
    if !(2 <= |key| <= 26) then false
    else if |Elements(key)| != |key| then false
    else if Elements(key) != OneTo(|key|) then false
    else true
  }

  /** len(set(key)) == len(key) exactly when no entry repeats; otherwise the set is smaller. */
  lemma {:induction false} DistinctCount(key: seq<int>)
    ensures |Elements(key)| <= |key|
    ensures |Elements(key)| == |key| <==> Distinct(key)
    decreases |key|
  {
    if key == [] {
      assert Elements(key) == {};
    } else {
      var rest := key[1..];
      DistinctCount(rest);
      assert Elements(key) == {key[0]} + Elements(rest) by {
        assert key == [key[0]] + rest;
      }
      if key[0] in rest {
        var j :| 0 <= j < |rest| && rest[j] == key[0];
        assert key[j + 1] == key[0];
      } else {
        assert |Elements(key)| == |Elements(rest)| + 1;
        DistinctCons(key);
      }
    }
  }

  /** A key whose first entry does not come back is distinct exactly when the rest is. */
  lemma DistinctCons(key: seq<int>)
    requires key != [] && key[0] !in key[1..]
    ensures Distinct(key) <==> Distinct(key[1..])
  {
    var rest := key[1..];
    if Distinct(rest) {
      forall i, j | 0 <= i < j < |key| ensures key[i] != key[j] {
        assert key[j] == rest[j - 1];
        if i > 0 {
          assert key[i] == rest[i - 1];
        }
      }
    }
    if Distinct(key) {
      forall i, j | 0 <= i < j < |rest| ensures rest[i] != rest[j] {
        assert rest[i] == key[i + 1] && rest[j] == key[j + 1];
      }
    }
  }

  /** The front end accepts exactly the keys the cipher takes that have 2 to 26 columns. */
  lemma ValidTranspositionKeyExactly(key: seq<int>)
    ensures ValidTranspositionKey(key) <==> 2 <= |key| <= 26 && ColumnTransposition.IsKey(key)
  {
    DistinctCount(key);
    if ValidTranspositionKey(key) {
      AcceptedIsKey(key);
    }
    if 2 <= |key| <= 26 && ColumnTransposition.IsKey(key) {
      KeyIsAccepted(key);
    }
  }

  lemma AcceptedIsKey(key: seq<int>)
    requires Distinct(key) && |key| > 0 && Elements(key) == OneTo(|key|)
    ensures ColumnTransposition.IsKey(key)
  {
    var n := |key|;
    var p := ColumnTransposition.Slots(key);
    forall i | 0 <= i < n ensures 1 <= key[i] <= n && p[i] == key[i] - 1 {
      assert key[i] in Elements(key);
    }
    forall v | 0 <= v < n ensures v in p {
      assert v + 1 in OneTo(n);
      var i :| 0 <= i < n && key[i] == v + 1;
      assert p[i] == v;
    }
  }

  lemma KeyIsAccepted(key: seq<int>)
    requires ColumnTransposition.IsKey(key)
    ensures Distinct(key) && Elements(key) == OneTo(|key|)
  {
    var n := |key|;
    var p := ColumnTransposition.Slots(key);
    forall i, j | 0 <= i < j < n ensures key[i] != key[j] {
      assert p[i] != p[j];
    }
    forall x | x in Elements(key) ensures x in OneTo(n) {
      var i :| 0 <= i < n && key[i] == x;
    }
    forall v | v in OneTo(n) ensures v in Elements(key) {
      assert v - 1 in p;
      var i :| 0 <= i < n && p[i] == v - 1;
      assert key[i] == v;
    }
  }

  // ---------------------------------------------------------------------------
  // Integers as int() reads them and str() writes them

  /** A character int() reads as a decimal digit ('0' to '9'). */
  lemma DecimalDigit(c: char)
    requires DigitValue(c) < 10
    ensures '0' <= c <= '9' && !IsWhitespace(c) && c != ',' && c != '[' && c != ']'
  {
  }

  /** int(token.strip()) for a decimal integer. The key parser only reads tokens in this
      form: pieces of split(',') are stripped first, and words of split() hold no whitespace.
      None where int() raises ValueError, and also on underscores between digits or non-ASCII
      digits, which int() would read. */
  function ParseInt(token: string): (r: Option<int>)
    ensures r.Some? ==> Strip(token) != []
  {
    ReadInt(Strip(token))
  }

  /** An optional sign, then at least one ASCII digit '0' to '9' (no underscores). */
  function ReadInt(t: string): (r: Option<int>)
    ensures r.Some? ==> t != []
  {
    if t != [] && (t[0] == '+' || t[0] == '-') then
      if |t| > 1 && AllDigits(t[1..], 10) then
        var magnitude: int := Value(t[1..], 10);
        Some(if t[0] == '-' then -magnitude else magnitude)
      else None
    else if t != [] && AllDigits(t, 10) then Some(Value(t, 10))
    else None
  }

  /** str(v): the shortest decimal digits, after a '-' when v is negative. */
  function FormatInt(v: int): (r: string)
    ensures r != [] && NoWhitespace(r)
    ensures forall i :: 0 <= i < |r| ==> r[i] != ',' && r[i] != '[' && r[i] != ']'
  {
    var digits := MinDigits(if v < 0 then -v else v, 10);
    forall i | 0 <= i < |digits| ensures '0' <= digits[i] <= '9' {
      DecimalDigit(digits[i]);
    }
    if v < 0 then "-" + digits else digits
  }

  /** int() reads back what str() writes, whatever whitespace comes first. */
  lemma IntRoundTrip(v: int, pad: string)
    requires forall i :: 0 <= i < |pad| ==> IsWhitespace(pad[i])
    ensures ParseInt(pad + FormatInt(v)) == Some(v)
  {
    var s := FormatInt(v);
    FormattedEnds(v);
    StripAfterWhitespace(pad, s);
    ReadFormatted(v);
  }

  /** str(v) starts with '-' or a digit and ends with a digit. */
  lemma FormattedEnds(v: int)
    ensures var s := FormatInt(v);
      !IsWhitespace(s[0]) && '0' <= s[|s| - 1] <= '9'
  {
    var digits := MinDigits(if v < 0 then -v else v, 10);
    DecimalDigit(digits[0]);
    DecimalDigit(digits[|digits| - 1]);
    var s := FormatInt(v);
    assert s[|s| - 1] == digits[|digits| - 1];
  }

  lemma ReadFormatted(v: int)
    ensures ReadInt(FormatInt(v)) == Some(v)
  {
    var a := if v < 0 then -v else v;
    var digits := MinDigits(a, 10);
    ValueOfMinDigits(a, 10);
    DecimalDigit(digits[0]);
    var s := FormatInt(v);
    if v < 0 {
      assert s[0] == '-' && s[1..] == digits;
    } else {
      assert s == digits;
    }
  }

  // ---------------------------------------------------------------------------
  // Key lists

  /** [parse(k) for k in tokens]: None when parsing any of them raises. */
  function ParseEach(tokens: seq<string>, parse: string -> Option<int>): (r: Option<seq<int>>)
    ensures r.Some? <==> forall i :: 0 <= i < |tokens| ==> parse(tokens[i]).Some?
    ensures r.Some? ==> (|r.value| == |tokens|
      && forall i :: 0 <= i < |tokens| ==> parse(tokens[i]) == Some(r.value[i]))
  {
    if tokens == [] then Some([])
    else
      var first := parse(tokens[0]);
      var rest := ParseEach(tokens[1..], parse);
      if first.None? || rest.None? then None else Some([first.value] + rest.value)
  }

  /** int(k.strip()). */
  function StrippedInt(token: string): Option<int> {
    ParseInt(Strip(token))
  }

  const BRACKETS: set<char> := {'[', ']'}

  /** The tokenising part of _parse_transposition_key: strip '[' and ']' from both ends, then
      split on ',' (and strip each piece) when there is a comma, on whitespace otherwise, and
      read every piece with int(). */
  function ParseKeyList(input: string): (r: Option<seq<int>>)
    ensures r.Some? <==> forall i :: 0 <= i < |KeyPieces(input)| ==> StrippedInt(KeyPieces(input)[i]).Some?
    ensures r.Some? ==> (|r.value| == |KeyPieces(input)|
      && forall i :: 0 <= i < |r.value| ==> StrippedInt(KeyPieces(input)[i]) == Some(r.value[i]))
  {
    var inner := StripChars(input, BRACKETS);
    var pieces := KeyPieces(input);
    if ',' in inner then ParseEach(pieces, StrippedInt)
    else
      WordsNeedNoStrip(SplitWhitespace(inner));
      ParseEach(pieces, ParseInt)
  }

  /** Pieces without whitespace read the same with or without strip(). */
  lemma WordsNeedNoStrip(words: seq<string>)
    requires forall i :: 0 <= i < |words| ==> NoWhitespace(words[i])
    ensures forall i :: 0 <= i < |words| ==> StrippedInt(words[i]) == ParseInt(words[i])
  {
  }

  /** The pieces _parse_transposition_key reads: the input without '[' and ']' at its ends,
      split on ',' when it holds one and on runs of whitespace otherwise. */
  function KeyPieces(input: string): seq<string> {
    var inner := StripChars(input, BRACKETS);
    if ',' in inner then SplitOn(inner, ',') else SplitWhitespace(inner)
  }

  /** _parse_transposition_key on the accepting path: the key and its column size, the
      number of entries. None where the front end reports the input as invalid. */
  function ParseTranspositionKey(input: string): (r: Option<(seq<int>, int)>)
    ensures r.Some? ==>
      (r.value.1 == |r.value.0| && 2 <= r.value.1 <= 26 && ColumnTransposition.IsKey(r.value.0))
  {
    var key := ParseKeyList(input);
    if key.None? then None
    else
      ValidTranspositionKeyExactly(key.value);
      if !ValidTranspositionKey(key.value) then None else Some((key.value, |key.value|))
  }

  /** ', '.join(str(k) for k in key): the inside of str(key). */
  function FormatItems(key: seq<int>): string
  {
    if key == [] then []
    else if |key| == 1 then FormatInt(key[0])
    else FormatInt(key[0]) + ", " + FormatItems(key[1..])
  }

  /** The items hold a comma exactly when there are at least two of them. */
  lemma CommaInItems(key: seq<int>)
    ensures ',' in FormatItems(key) <==> |key| >= 2
  {
    var items := FormatItems(key);
    if |key| >= 2 {
      var head := FormatInt(key[0]) + ", ";
      assert items[|head| - 2] == ',';
    } else if |key| == 1 {
      assert items == FormatInt(key[0]);
    }
  }

  /** str(key): how a list of ints prints, as the generated transposition key is shown. */
  function FormatKey(key: seq<int>): (r: string)
    ensures |r| >= 2 && r[0] == '[' && r[|r| - 1] == ']'
  {
    "[" + FormatItems(key) + "]"
  }

  /** Whitespace, then the comma-separated items of a non-empty key, split at the commas and
      read with a parser that reads every entry back, give the key back. */
  lemma {:induction false} CommaItemsRoundTrip(key: seq<int>, pad: string, parse: string -> Option<int>)
    requires |key| >= 1
    requires forall i :: 0 <= i < |pad| ==> IsWhitespace(pad[i])
    requires parse(pad + FormatInt(key[0])) == Some(key[0])
    requires forall i :: 1 <= i < |key| ==> parse(" " + FormatInt(key[i])) == Some(key[i])
    ensures ParseEach(SplitOn(pad + FormatItems(key), ','), parse) == Some(key)
    decreases |key|
  {
    var first := pad + FormatInt(key[0]);
    if |key| == 1 {
      SplitOneItem(key, pad);
      assert key[1..] == [];
      ParseCons(first, [], key, parse);
    } else {
      var tail := key[1..];
      var rest := SplitOn(" " + FormatItems(tail), ',');
      SplitItems(key, pad);
      assert tail[0] == key[1];
      assert forall i :: 1 <= i < |tail| ==> tail[i] == key[i + 1];
      CommaItemsRoundTrip(tail, " ", parse);
      ParseCons(first, rest, key, parse);
    }
  }

  /** int(k.strip()) reads back every entry of the printed items: the first one as printed and
      the later ones after the blank that follows each comma. */
  lemma StrippedItems(key: seq<int>)
    requires |key| >= 1
    ensures StrippedInt([] + FormatInt(key[0])) == Some(key[0])
    ensures forall i :: 1 <= i < |key| ==> StrippedInt(" " + FormatInt(key[i])) == Some(key[i])
  {
    StrippedRoundTrip(key[0], []);
    forall i | 1 <= i < |key|
      ensures StrippedInt(" " + FormatInt(key[i])) == Some(key[i])
    {
      StrippedRoundTrip(key[i], " ");
    }
  }

  /** Reading a token and then the remaining tokens reads the whole list. */
  lemma ParseCons(token: string, tokens: seq<string>, key: seq<int>, parse: string -> Option<int>)
    requires key != [] && parse(token) == Some(key[0]) && ParseEach(tokens, parse) == Some(key[1..])
    ensures ParseEach([token] + tokens, parse) == Some(key)
  {
    var all := [token] + tokens;
    assert all[0] == token && all[1..] == tokens;
    assert key == [key[0]] + key[1..];
  }

  /** int(k.strip()) reads back an entry that str() wrote after some whitespace. */
  lemma StrippedRoundTrip(v: int, pad: string)
    requires forall i :: 0 <= i < |pad| ==> IsWhitespace(pad[i])
    ensures StrippedInt(pad + FormatInt(v)) == Some(v)
  {
    FormattedEnds(v);
    StripAfterWhitespace(pad, FormatInt(v));
    IntRoundTrip(v, []);
    assert [] + FormatInt(v) == FormatInt(v);
  }

  /** A single entry with whitespace in front has no comma to split at. */
  lemma SplitOneItem(key: seq<int>, pad: string)
    requires |key| == 1
    requires forall i :: 0 <= i < |pad| ==> IsWhitespace(pad[i])
    ensures SplitOn(pad + FormatItems(key), ',') == [pad + FormatInt(key[0])]
  {
    var first := pad + FormatInt(key[0]);
    NoCommaInPad(pad, first);
    assert FormatItems(key) == FormatInt(key[0]);
    SplitPiece(first, [], ',');
    assert first + [] == first;
  }

  /** Splitting the items at commas: the first entry with the whitespace in front, then the
      pieces of the rest, each of which starts with the blank after its comma. */
  lemma SplitItems(key: seq<int>, pad: string)
    requires |key| >= 2
    requires forall i :: 0 <= i < |pad| ==> IsWhitespace(pad[i])
    ensures SplitOn(pad + FormatItems(key), ',')
      == [pad + FormatInt(key[0])] + SplitOn(" " + FormatItems(key[1..]), ',')
  {
    var first := pad + FormatInt(key[0]);
    NoCommaInPad(pad, first);
    var rest := " " + FormatItems(key[1..]);
    ItemsConcat(key, pad);
    SplitPiece(first, [','] + rest, ',');
    assert ([','] + rest)[1..] == rest;
  }

  lemma ItemsConcat(key: seq<int>, pad: string)
    requires |key| >= 2
    ensures pad + FormatItems(key)
      == (pad + FormatInt(key[0])) + ([','] + (" " + FormatItems(key[1..])))
  {
    var a, b := FormatInt(key[0]), FormatItems(key[1..]);
    assert FormatItems(key) == a + ", " + b;
    Regroup(pad, a, b);
  }

  lemma Regroup(pad: string, a: string, b: string)
    ensures pad + (a + ", " + b) == (pad + a) + ([','] + (" " + b))
  {
    assert ", " == [','] + " ";
  }

  lemma NoCommaInPad(pad: string, first: string)
    requires forall i :: 0 <= i < |pad| ==> IsWhitespace(pad[i])
    requires exists v :: first == pad + FormatInt(v)
    ensures ',' !in first
  {
    var v :| first == pad + FormatInt(v);
    var s := FormatInt(v);
    forall i | 0 <= i < |first| ensures first[i] != ',' {
      if i < |pad| {
        assert IsWhitespace(first[i]);
      } else {
        assert first[i] == s[i - |pad|];
      }
    }
  }

  /** Parsing what str() prints for a list of ints gives the list back. */
  lemma KeyListRoundTrip(key: seq<int>)
    ensures ParseKeyList(FormatKey(key)) == Some(key)
  {
    var items := FormatItems(key);
    PrintedInner(key);
    CommaInItems(key);
    if |key| >= 2 {
      StrippedItems(key);
      CommaItemsRoundTrip(key, [], StrippedInt);
      assert [] + items == items;
    } else {
      WordItemsRoundTrip(key);
    }
  }

  /** strip('[]') of the printed list leaves the items. */
  lemma PrintedInner(key: seq<int>)
    ensures StripChars(FormatKey(key), BRACKETS) == FormatItems(key)
  {
    var items := FormatItems(key);
    if key == [] {
      StripCharsWrapped("[]", [], [], BRACKETS);
      assert FormatKey(key) == "[]" + [] + [];
    } else {
      ItemsEnds(key);
      StripCharsWrapped("[", items, "]", BRACKETS);
    }
  }

  /** With no comma, split() finds no entry or the single one. */
  lemma WordItemsRoundTrip(key: seq<int>)
    requires |key| <= 1
    ensures ParseEach(SplitWhitespace(FormatItems(key)), ParseInt) == Some(key)
  {
    if key == [] {
      SplitWhitespaceWord([]);
    } else {
      var s := FormatInt(key[0]);
      assert FormatItems(key) == s;
      SplitWhitespaceWord(s);
      WordRoundTrip(key[0]);
      ParseOne(s, key, ParseInt);
    }
  }

  /** int() reads back a printed entry. */
  lemma WordRoundTrip(v: int)
    ensures ParseInt(FormatInt(v)) == Some(v)
  {
    IntRoundTrip(v, []);
    assert [] + FormatInt(v) == FormatInt(v);
  }

  /** A single token read back is a one-entry list. */
  lemma ParseOne(token: string, key: seq<int>, parse: string -> Option<int>)
    requires |key| == 1 && parse(token) == Some(key[0])
    ensures ParseEach([token], parse) == Some(key)
  {
    assert key[1..] == [] && ParseEach([], parse) == Some([]);
    ParseCons(token, [], key, parse);
    assert [token] + [] == [token];
  }

  /** The items start with the first entry's sign or digit and end with a digit, so neither
      end is a bracket. */
  lemma {:induction false} ItemsEnds(key: seq<int>)
    requires key != []
    ensures var items := FormatItems(key);
      (items != [] && items[0] !in BRACKETS && items[|items| - 1] !in BRACKETS)
    decreases |key|
  {
    var items := FormatItems(key);
    var s := FormatInt(key[0]);
    FormattedEnds(key[0]);
    if |key| == 1 {
      assert items == s;
    } else {
      ItemsEnds(key[1..]);
      var tail := FormatItems(key[1..]);
      assert items == (s + ", ") + tail;
      assert items[0] == s[0];
      assert items[|items| - 1] == tail[|tail| - 1];
    }
  }

  /** The front end accepts the printed form of a key exactly when the key is valid, and then
      reads back the key and its length. */
  lemma PrintedKeyRoundTrip(key: seq<int>)
    ensures ParseTranspositionKey(FormatKey(key))
      == if ValidTranspositionKey(key) then Some((key, |key|)) else None
  {
    KeyListRoundTrip(key);
  }
}
