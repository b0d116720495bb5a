/** Coordinate text: the "C7" notation players type, and the zero-based
    (x, y) pair the board uses. Column numbers 1..10 become x = 0..9 and
    row letters A..J become y = 0..9. */
module Codec {

  /** A board position as the engine uses it: x is the column (the typed
      number minus one), y the row (the letter's distance from 'A'). The
      source carries these in Cell objects whose state is ignored here. */
  datatype Coord = Coord(x: int, y: int)

  datatype Option<T> = None | Some(value: T)

  /** What translating malformed text yields: a cell at (-1, -1). */
  const Sentinel := Coord(-1, -1)

  predicate IsUpper(c: char) { 'A' <= c <= 'Z' }

  predicate IsDigit(c: char) { '0' <= c <= '9' }

  /** The whole text matches ([A-Z])([0-9]{1,2}). Such text holds no space,
      so it is one token of an input line. */
  predicate MatchesFormat(s: string): (b: bool)
    ensures b ==> ' ' !in s
  {
    2 <= |s| <= 3 && IsUpper(s[0]) && forall i :: 1 <= i < |s| ==> IsDigit(s[i])
  }

  /** The decimal value of a run of digits, leading zeros allowed. */
  function DigitsValue(ds: string): (v: nat)
    requires forall i :: 0 <= i < |ds| ==> IsDigit(ds[i])
    ensures |ds| <= 1 ==> v < 10
    ensures |ds| <= 2 ==> v < 100
    ensures |ds| == 1 ==> v == ds[0] as int - '0' as int
    ensures |ds| == 2 ==> v == (ds[0] as int - '0' as int) * 10 + (ds[1] as int - '0' as int)
  {
    if ds == [] then 0
    else
      assert IsDigit(ds[|ds| - 1]);
      DigitsValue(ds[..|ds| - 1]) * 10 + (ds[|ds| - 1] as int - '0' as int)
  }

  /** The position the source reads from coordinate text: the sentinel for
      text of the wrong shape, otherwise the letter's index as y and the
      number minus one as x, with no check against the board's size. */
  function Decode(s: string): (c: Coord)
    ensures c == Sentinel <==> !MatchesFormat(s)
    ensures MatchesFormat(s) ==> 0 <= c.y < 26 && -1 <= c.x < 99
  {
    if !MatchesFormat(s) then Sentinel
    else Coord(DigitsValue(s[1..]) - 1, s[0] as int - 'A' as int)
  }

  /** Translates coordinate text, collecting the non-digit characters as the
      row part and the digits as the column part, as the source does. */
  method TranslateCoordinate(s: string) returns (c: Coord)
    ensures c == Decode(s)
  {
    if !MatchesFormat(s) {
      return Sentinel;
    }
    var letters, digits := "", "";
    for i := 0 to |s|
      invariant i == 0 ==> letters == [] && digits == []
      invariant i >= 1 ==> letters == [s[0]] && digits == s[1..i]
    {
      if !IsDigit(s[i]) {
        letters := letters + [s[i]];
      } else {
        digits := digits + [s[i]];
      }
    }
    assert s[1..|s|] == s[1..];
    c := Coord(DigitsValue(digits) - 1, letters[0] as int - 'A' as int);
  }

  function DigitChar(d: nat): (c: char)
    requires d < 10
    ensures IsDigit(c)
  {
    ('0' as int + d) as char
  }

  /** The decimal form of 0..99 without leading zeros. */
  function Decimal(n: nat): (ds: string)
    requires n < 100
    ensures 1 <= |ds| <= 2
    ensures forall i :: 0 <= i < |ds| ==> IsDigit(ds[i])
  {
    if n < 10 then [DigitChar(n)] else [DigitChar(n / 10), DigitChar(n % 10)]
  }

  /** The text a player types for a position: its row letter, then its
      column number. */
  function Encode(c: Coord): (s: string)
    requires 0 <= c.y < 26 && -1 <= c.x < 99
  {
    [('A' as int + c.y) as char] + Decimal(c.x + 1)
  }

  /** Every encodable position encodes to well-formed text and decodes back
      to itself; this covers every board position, and also shows that
      decoding applies no bounds: "A0" is (-1, 0) and "Z99" is (98, 25). */
  lemma {:induction false} DecodeEncode(c: Coord)
    requires 0 <= c.y < 26 && -1 <= c.x < 99
    ensures MatchesFormat(Encode(c))
    ensures Decode(Encode(c)) == c
  {
    var ds := Decimal(c.x + 1);
    assert Encode(c)[1..] == ds;
    var n := c.x + 1;
    if n >= 10 {
      assert ds[..1] == [DigitChar(n / 10)];
      assert DigitsValue(ds[..1]) == n / 10;
      assert DigitsValue(ds) == n / 10 * 10 + n % 10;
    } else {
      assert DigitsValue(ds) == DigitsValue([]) * 10 + n;
    }
  }

  /** Well-formed text without a leading zero is the encoding of the
      position it decodes to. */
  lemma {:induction false} EncodeDecode(s: string)
    requires MatchesFormat(s) && !(|s| == 3 && s[1] == '0')
    ensures Encode(Decode(s)) == s
  {
    var ds := s[1..];
    var n: int := DigitsValue(ds);
    assert Decode(s) == Coord(n - 1, s[0] as int - 'A' as int);
    if |ds| == 1 {
      assert n == DigitsValue([]) * 10 + (ds[0] as int - '0' as int);
      assert Decimal(n) == ds;
    } else {
      assert ds[..1] == [ds[0]];
      assert DigitsValue(ds[..1]) == DigitsValue([]) * 10 + (ds[0] as int - '0' as int);
      assert n == (ds[0] as int - '0' as int) * 10 + (ds[1] as int - '0' as int);
      assert n / 10 == ds[0] as int - '0' as int && n % 10 == ds[1] as int - '0' as int;
      assert Decimal(n) == ds;
    }
    assert s == [s[0]] + ds;
  }

  /** The accepted texts are exactly the encodings of the positions from
      row A to Z and number 0 to 99, plus the three-character texts whose
      number has a leading zero. */
  lemma FormatIsEncoding(s: string)
    ensures MatchesFormat(s) <==>
              (exists c: Coord :: 0 <= c.y < 26 && -1 <= c.x < 99 && s == Encode(c)) ||
              (|s| == 3 && IsUpper(s[0]) && s[1] == '0' && IsDigit(s[2]))
  {
    if MatchesFormat(s) && !(|s| == 3 && s[1] == '0') {
      EncodeDecode(s);
    }
    if c: Coord :| 0 <= c.y < 26 && -1 <= c.x < 99 && s == Encode(c) {
      DecodeEncode(c);
    }
  }

  /** A leading zero changes nothing: the number is read as Integer.parseInt
      reads it, so "A05" is the same position as "A5". */
  lemma LeadingZero(s: string)
    requires MatchesFormat(s) && |s| == 3 && s[1] == '0'
    ensures Decode(s) == Decode([s[0], s[2]])
    ensures Decode(s) == Coord(s[2] as int - '0' as int - 1, s[0] as int - 'A' as int)
  {
    assert [s[0], s[2]][1..] == [s[2]];
  }

  lemma DecodeOutOfBoard()
    ensures Decode("A7") == Coord(6, 0)
    ensures Decode("A0") == Coord(-1, 0)
    ensures Decode("Z99") == Coord(98, 25)
    ensures Decode("A11") == Coord(10, 0)
  {
    DecodeEncode(Coord(6, 0));
    DecodeEncode(Coord(-1, 0));
    DecodeEncode(Coord(98, 25));
    DecodeEncode(Coord(10, 0));
  }

  /** One upper-case letter and one or two digits are accepted; a lower-case
      letter, a digit first, a second letter or a third digit are not. */
  lemma FormatExamples()
    ensures MatchesFormat("C7") && MatchesFormat("J10") && MatchesFormat("A00")
    ensures !MatchesFormat("c7") && !MatchesFormat("7C") && !MatchesFormat("CC7")
    ensures !MatchesFormat("C100") && !MatchesFormat("C") && !MatchesFormat("")
  {
    assert "CC7"[1] == 'C';
  }

  /** Text whose first character is not an upper-case letter, or that has
      anything beyond a letter and two digits, is malformed. */
  lemma RejectedShapes(s: string)
    ensures |s| > 0 && !IsUpper(s[0]) ==> Decode(s) == Sentinel
    ensures |s| > 3 || |s| < 2 ==> Decode(s) == Sentinel
  {
  }

  // Splitting an input line on single spaces, with the rules of Java's
  // String.split(" "): every space separates two fields, trailing empty
  // fields are dropped, and text without a space is the one field.

  /** The fields between single spaces, empty ones included. */
  function Fields(s: string): (fs: seq<string>)
    ensures |fs| >= 1
    ensures forall i :: 0 <= i < |fs| ==> ' ' !in fs[i]
  {
    if s == [] then [[]]
    else
      var rest := Fields(s[1..]);
      if s[0] == ' ' then [[]] + rest else [[s[0]] + rest[0]] + rest[1..]
  }

  /** The fields joined back with one space between each two. */
  function Join(fs: seq<string>): (s: string)
    requires |fs| >= 1
  {
    if |fs| == 1 then fs[0] else fs[0] + [' '] + Join(fs[1..])
  }

  lemma {:induction false} JoinFields(s: string)
    ensures Join(Fields(s)) == s
  {
    if s != [] {
      var rest := Fields(s[1..]);
      JoinFields(s[1..]);
      if s[0] != ' ' {
        if |rest| == 1 {
          assert Join(Fields(s)) == [s[0]] + rest[0];
        } else {
          assert Join(Fields(s)) == [s[0]] + rest[0] + [' '] + Join(rest[1..]);
          assert s == [s[0]] + s[1..];
        }
      }
    }
  }

  function DropTrailingEmpty(fs: seq<string>): (r: seq<string>)
    ensures |r| <= |fs| && r == fs[..|r|]
    ensures r != [] ==> r[|r| - 1] != []
    ensures forall i :: |r| <= i < |fs| ==> fs[i] == []
  {
    if fs == [] || fs[|fs| - 1] != [] then fs else DropTrailingEmpty(fs[..|fs| - 1])
  }

  /** Every field of s is empty exactly when s is nothing but spaces. */
  lemma {:induction false} FieldsBlank(s: string)
    ensures (forall i :: 0 <= i < |Fields(s)| ==> Fields(s)[i] == []) <==>
              forall i :: 0 <= i < |s| ==> s[i] == ' '
  {
    if s != [] {
      FieldsBlank(s[1..]);
      var rest := Fields(s[1..]);
      if s[0] == ' ' {
        var fs := Fields(s);
        assert fs == [[]] + rest;
        assert (forall i :: 0 <= i < |fs| ==> fs[i] == []) <==>
               (forall i :: 0 <= i < |rest| ==> rest[i] == []) by {
          assert forall i :: 0 <= i < |rest| ==> fs[i + 1] == rest[i];
        }
        assert (forall i :: 0 <= i < |s| ==> s[i] == ' ') <==>
               (forall i :: 0 <= i < |s[1..]| ==> s[1..][i] == ' ') by {
          assert forall i :: 0 <= i < |s[1..]| ==> s[i + 1] == s[1..][i];
        }
      } else {
        assert Fields(s)[0] != [];
      }
    }
  }

  /** The tokens String.split(" ") gives for a line. No token holds a space,
      and there is no token at all exactly when the line is one or more
      spaces and nothing else. */
  function Split(s: string): (r: seq<string>)
    ensures ' ' !in s ==> r == [s]
    ensures forall i :: 0 <= i < |r| ==> ' ' !in r[i]
    ensures r == [] <==> |s| > 0 && forall i :: 0 <= i < |s| ==> s[i] == ' '
  {
    if ' ' !in s then
      assert |s| > 0 ==> s[0] != ' ';
      [s]
    else
      var fs := Fields(s);
      FieldsBlank(s);
      var r := DropTrailingEmpty(fs);
      assert forall i :: 0 <= i < |r| ==> r[i] == fs[i];
      r
  }

  lemma {:induction false} FieldsWithoutSpace(s: string)
    requires ' ' !in s
    ensures Fields(s) == [s]
  {
    if s != [] {
      FieldsWithoutSpace(s[1..]);
      assert s == [s[0]] + s[1..];
    }
  }

  lemma {:induction false} FieldsAfterFirstSpace(a: string, t: string)
    requires ' ' !in a
    ensures Fields(a + [' '] + t) == [a] + Fields(t)
  {
    if a == [] {
      assert a + [' '] + t == [' '] + t;
    } else {
      assert (a + [' '] + t)[1..] == a[1..] + [' '] + t;
      FieldsAfterFirstSpace(a[1..], t);
      assert [a[0]] + a[1..] == a;
    }
  }

  /** A line of two space-free tokens, the second non-empty, splits into
      exactly those two tokens. */
  lemma SplitTwoTokens(a: string, b: string)
    requires ' ' !in a && ' ' !in b && b != []
    ensures Split(a + [' '] + b) == [a, b]
  {
    var s := a + [' '] + b;
    assert s[|a|] == ' ';
    FieldsAfterFirstSpace(a, b);
    FieldsWithoutSpace(b);
    assert Fields(s) == [a, b];
  }

  /** A line without a space, or whose only space is at its end, yields
      fewer than two tokens. */
  lemma SplitSingleToken(a: string)
    requires ' ' !in a
    ensures |Split(a)| == 1
    ensures |Split(a + [' '])| <= 1
  {
    FieldsWithoutSpace(a);
    var s := a + [' '];
    assert s[|a|] == ' ';
    FieldsAfterFirstSpace(a, []);
    assert s == a + [' '] + [];
    assert Fields(s) == [a, []];
  }

  /** Translates a "start end" line into two positions. The source reads
      tokens [0] and [1] without checking how many there are, which fails on
      a line of fewer than two tokens (none at all for a line of spaces):
      that failure is None here. */
  method TranslateInputCoordinates(line: string) returns (r: Option<(Coord, Coord)>)
    ensures r.None? <==> |Split(line)| < 2
    ensures r.Some? ==> r.value == (Decode(Split(line)[0]), Decode(Split(line)[1]))
  {
    var tokens := Split(line);
    if |tokens| < 2 {
      return None;
    }
    var first := TranslateCoordinate(tokens[0]);
    var second := TranslateCoordinate(tokens[1]);
    r := Some((first, second));
  }
}
