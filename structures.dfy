/**
 * Cell positions and sheet sizes, and the conversion between a position and
 * its A1-style name: bijective base-26 column letters followed by the
 * decimal 1-based row number.
 */
module Structures {
  const MAX_ROWS: int := 16384
  const MAX_COLS: int := 16384
  const LETTERS: int := 26
  const MAX_POS_LETTER_COUNT: int := 3
  /** The longest row number FromString accepts, in digits. */
  const MAX_POS_DIGIT_COUNT: int := 5

  datatype Position = Position(row: int, col: int) {
    function Equals(rhs: Position): (r: bool)
      ensures r <==> this == rhs
    {
      row == rhs.row && col == rhs.col
    }

    /** Lexicographic order on (row, col). */
    predicate Less(rhs: Position) {
      row < rhs.row || (row == rhs.row && col < rhs.col)
    }

    predicate IsValid() {
      0 <= row < MAX_ROWS && 0 <= col < MAX_COLS
    }

    /** The A1-style name, or "" outside the 16384 x 16384 grid. */
    method ToString() returns (s: string)
      ensures s == PositionText(this)
    {
      if col < 0 || row < 0 || col > 16383 || row > 16383 {
        return "";
      }
      var resultCol := col;
      var result := [Letter(resultCol % LETTERS)];
      resultCol := resultCol / LETTERS;
      while resultCol > 0
        invariant resultCol >= 0
        invariant BijectiveLetters(resultCol) + result == BijectiveLetters(col + 1)
        decreases resultCol
      {
        assert BijectiveLetters(resultCol)
            == BijectiveLetters((resultCol - 1) / LETTERS) + [Letter((resultCol - 1) % LETTERS)];
        result := [Letter((resultCol - 1) % LETTERS)] + result;
        resultCol := (resultCol - 1) / LETTERS;
      }
      // std::to_string of the 1-based row
      var digits := Decimal(row + 1);
      s := result + digits;
    }

    /** Parses an A1-style name; NONE when the text is not one. */
    static method FromString(str: string) returns (p: Position)
      ensures p == ParsePosition(str)
    {
      if |str| == 0 {
        return NONE;
      }
      var first, second := SplitString(str);
      if |first| == 0 || |first| > MAX_POS_LETTER_COUNT || |second| == 0 || |second| > MAX_POS_DIGIT_COUNT {
        return NONE;
      }
      var i := 0;
      while i < |second|
        invariant 0 <= i <= |second|
        invariant forall k :: 0 <= k < i ==> IsDigit(second[k])
      {
        if !IsDigit(second[i]) {
          return NONE;
        }
        i := i + 1;
      }
      // std::stoi cannot throw on one to five decimal digits
      var y := DecimalValue(second);
      var row := y - 1;
      var col := 0;
      var pow := 1;
      col := col + (first[|first| - 1] as int - 'A' as int) * pow;
      assert first[|first| - 1..][1..] == [];
      var j := |first| - 2;
      while j >= 0
        invariant -1 <= j <= |first| - 2
        invariant pow == Pow26(|first| - 2 - j)
        invariant col == BijectiveValue(first[j + 1..]) - 1
        decreases j
      {
        pow := pow * LETTERS;
        assert first[j..][1..] == first[j + 1..];
        col := col + (first[j] as int - 'A' as int + 1) * pow;
        j := j - 1;
      }
      assert first[0..] == first;
      if col > 16383 {
        return NONE;
      }
      p := Position(row, col);
    }
  }

  const NONE: Position := Position(-1, -1)

  datatype Size = Size(rows: int, cols: int) {
    function Equals(rhs: Size): (r: bool)
      ensures r <==> this == rhs
    {
      rows == rhs.rows && cols == rhs.cols
    }
  }

  // ---- characters -------------------------------------------------------

  /** isalpha && isupper in the C locale. */
  predicate IsUpper(ch: char) {
    'A' <= ch <= 'Z'
  }

  predicate IsDigit(ch: char) {
    '0' <= ch <= '9'
  }

  predicate AllDigits(s: string) {
    forall k :: 0 <= k < |s| ==> IsDigit(s[k])
  }

  function Letter(k: int): char
    requires 0 <= k < 26
  {
    ('A' as int + k) as char
  }

  /** The digit a letter stands for in bijective base 26: 'A' is 1, 'Z' is 26. */
  function LetterValue(ch: char): int {
    ch as int - 'A' as int + 1
  }

  function DigitChar(d: int): char
    requires 0 <= d < 10
  {
    ('0' as int + d) as char
  }

  function DigitValue(ch: char): int {
    ch as int - '0' as int
  }

  // ---- numerals ---------------------------------------------------------

  function Pow26(k: nat): nat {
    if k == 0 then 1 else 26 * Pow26(k - 1)
  }

  /** The bijective base-26 numeral of n: "" for 0, "A" for 1, "Z" for 26, "AA" for 27. */
  function BijectiveLetters(n: nat): string
    decreases n
  {
    if n == 0 then "" else BijectiveLetters((n - 1) / 26) + [Letter((n - 1) % 26)]
  }

  /** The number a bijective base-26 numeral denotes, read from its most significant letter. */
  function BijectiveValue(s: string): int {
    if s == [] then 0 else LetterValue(s[0]) * Pow26(|s| - 1) + BijectiveValue(s[1..])
  }

  /** std::to_string of a natural number. */
  function Decimal(n: nat): string
    decreases n
  {
    if n < 10 then [DigitChar(n)] else Decimal(n / 10) + [DigitChar(n % 10)]
  }

  /** std::stoi of a string of decimal digits. */
  function DecimalValue(s: string): int {
    if s == [] then 0 else 10 * DecimalValue(s[..|s| - 1]) + DigitValue(s[|s| - 1])
  }

  // ---- names ------------------------------------------------------------

  /** The name Position::ToString produces. */
  function PositionText(p: Position): string {
    if p.col < 0 || p.row < 0 || p.col > 16383 || p.row > 16383 then ""
    else BijectiveLetters(p.col + 1) + Decimal(p.row + 1)
  }

  /** The length of the longest prefix of s made of capital letters. */
  function UpperPrefixLength(s: string): (n: nat)
    ensures n <= |s|
    ensures forall i :: 0 <= i < n ==> IsUpper(s[i])
    ensures n == |s| || !IsUpper(s[n])
  {
    if s == [] || !IsUpper(s[0]) then 0 else 1 + UpperPrefixLength(s[1..])
  }

  /** The leading capital letters of s and the rest of s. */
  function Split(s: string): (string, string) {
    (s[..UpperPrefixLength(s)], s[UpperPrefixLength(s)..])
  }

  /** The position Position::FromString returns. */
  function ParsePosition(s: string): Position {
    if |s| == 0 then NONE
    else
      var (letters, digits) := Split(s);
      if |letters| == 0 || |letters| > MAX_POS_LETTER_COUNT || |digits| == 0 || |digits| > MAX_POS_DIGIT_COUNT then NONE
      else if !AllDigits(digits) then NONE
      else if BijectiveValue(letters) - 1 > 16383 then NONE
      else Position(DecimalValue(digits) - 1, BijectiveValue(letters) - 1)
  }

  method SplitString(str: string) returns (first: string, second: string)
    ensures (first, second) == Split(str)
  {
    first := "";
    second := "";
    var i := 0;
    while i < |str|
      invariant 0 <= i <= |str|
      invariant first == str[..i]
      invariant forall k :: 0 <= k < i ==> IsUpper(str[k])
    {
      var ch := str[i];
      if IsUpper(ch) {
        first := first + [ch];
      } else {
        UpperPrefixUnique(str, i);
        second := str[i..];
        assert (first, second) == (str[..i], str[i..]);
        return;
      }
      i := i + 1;
    }
    UpperPrefixUnique(str, i);
    assert str[..i] == str && str[i..] == [];
  }

  // ---- lemmas -----------------------------------------------------------

  /** Any prefix of capitals followed by a non-capital (or the end) is the longest one. */
  lemma {:induction false} UpperPrefixUnique(s: string, n: nat)
    requires n <= |s|
    requires forall i :: 0 <= i < n ==> IsUpper(s[i])
    requires n == |s| || !IsUpper(s[n])
    ensures UpperPrefixLength(s) == n
    decreases n
  {
    if n > 0 {
      assert IsUpper(s[0]);
      assert forall i :: 0 <= i < n - 1 ==> s[1..][i] == s[i + 1];
      UpperPrefixUnique(s[1..], n - 1);
    }
  }

  /** Splitting a run of capitals followed by text that starts with a non-capital. */
  lemma SplitConcat(letters: string, rest: string)
    requires forall i :: 0 <= i < |letters| ==> IsUpper(letters[i])
    requires rest != [] && !IsUpper(rest[0])
    ensures Split(letters + rest) == (letters, rest)
  {
    var s := letters + rest;
    assert forall i :: 0 <= i < |letters| ==> s[i] == letters[i];
    assert s[|letters|] == rest[0];
    UpperPrefixUnique(s, |letters|);
    assert s[..|letters|] == letters;
    assert s[|letters|..] == rest;
  }

  lemma LessIsStrictTotalOrder(a: Position, b: Position, c: Position)
    ensures !a.Less(a)
    ensures a.Less(b) ==> !b.Less(a)
    ensures a.Less(b) && b.Less(c) ==> a.Less(c)
    ensures a != b ==> a.Less(b) || b.Less(a)
  {
  }

  lemma {:induction false} BijectiveValueAppend(s: string, ch: char)
    ensures BijectiveValue(s + [ch]) == 26 * BijectiveValue(s) + LetterValue(ch)
    decreases |s|
  {
    if s == [] {
      assert [ch][1..] == [];
    } else {
      var t := s + [ch];
      assert t[1..] == s[1..] + [ch];
      BijectiveValueAppend(s[1..], ch);
      var a := LetterValue(s[0]);
      var p := Pow26(|s| - 1);
      assert Pow26(|t| - 1) == 26 * p;
      calc {
        BijectiveValue(t);
        a * (26 * p) + BijectiveValue(s[1..] + [ch]);
        a * (26 * p) + 26 * BijectiveValue(s[1..]) + LetterValue(ch);
        { assert a * (26 * p) == 26 * (a * p); }
        26 * (a * p + BijectiveValue(s[1..])) + LetterValue(ch);
      }
    }
  }

  /** Reading back the letters of a column number gives the number. */
  lemma {:induction false} BijectiveRoundTrip(n: nat)
    ensures BijectiveValue(BijectiveLetters(n)) == n
    decreases n
  {
    if n > 0 {
      var q := (n - 1) / 26;
      var k := (n - 1) % 26;
      BijectiveRoundTrip(q);
      BijectiveValueAppend(BijectiveLetters(q), Letter(k));
      assert LetterValue(Letter(k)) == k + 1;
    }
  }

  lemma {:induction false} BijectiveLettersShape(n: nat)
    ensures |BijectiveLetters(n)| == 0 <==> n == 0
    ensures forall i :: 0 <= i < |BijectiveLetters(n)| ==> IsUpper(BijectiveLetters(n)[i])
    ensures n <= 26 ==> |BijectiveLetters(n)| <= 1
    ensures n <= 702 ==> |BijectiveLetters(n)| <= 2
    ensures n <= 18278 ==> |BijectiveLetters(n)| <= 3
    decreases n
  {
    if n > 0 {
      var q := (n - 1) / 26;
      BijectiveLettersShape(q);
      var s := BijectiveLetters(n);
      assert s == BijectiveLetters(q) + [Letter((n - 1) % 26)];
      assert forall i :: 0 <= i < |BijectiveLetters(q)| ==> s[i] == BijectiveLetters(q)[i];
    }
  }

  lemma {:induction false} DecimalRoundTrip(n: nat)
    ensures DecimalValue(Decimal(n)) == n
    ensures 1 <= |Decimal(n)|
    ensures AllDigits(Decimal(n))
    ensures n < 100000 ==> |Decimal(n)| <= 5
    decreases n
  {
    if n >= 10 {
      DecimalRoundTrip(n / 10);
      DecimalLength(n);
      var s := Decimal(n);
      assert s == Decimal(n / 10) + [DigitChar(n % 10)];
      assert s[..|s| - 1] == Decimal(n / 10);
      assert forall k :: 0 <= k < |s| - 1 ==> s[k] == Decimal(n / 10)[k];
    }
  }

  lemma {:induction false} DecimalLength(n: nat)
    ensures n < 10 ==> |Decimal(n)| == 1
    ensures n < 100 ==> |Decimal(n)| <= 2
    ensures n < 1000 ==> |Decimal(n)| <= 3
    ensures n < 10000 ==> |Decimal(n)| <= 4
    ensures n < 100000 ==> |Decimal(n)| <= 5
    decreases n
  {
    if n >= 10 {
      DecimalLength(n / 10);
    }
  }

  /** A non-empty run of capitals denotes at least 1. */
  lemma {:induction false} BijectiveValuePositive(s: string)
    requires s != []
    requires forall i :: 0 <= i < |s| ==> IsUpper(s[i])
    ensures BijectiveValue(s) >= 1
    decreases |s|
  {
    if |s| > 1 {
      BijectiveValuePositive(s[1..]);
    } else {
      assert s[1..] == [];
    }
    assert LetterValue(s[0]) >= 1;
    assert Pow26(|s| - 1) >= 1 by { Pow26Positive(|s| - 1); }
    assert LetterValue(s[0]) * Pow26(|s| - 1) >= 1;
  }

  lemma {:induction false} Pow26Positive(k: nat)
    ensures Pow26(k) >= 1
  {
    if k > 0 {
      Pow26Positive(k - 1);
    }
  }

  /** A run of at most five decimal digits denotes 0 to 99999. */
  lemma {:induction false} DecimalValueBounds(s: string)
    requires AllDigits(s)
    ensures 0 <= DecimalValue(s)
    ensures |s| <= 1 ==> DecimalValue(s) <= 9
    ensures |s| <= 2 ==> DecimalValue(s) <= 99
    ensures |s| <= 3 ==> DecimalValue(s) <= 999
    ensures |s| <= 4 ==> DecimalValue(s) <= 9999
    ensures |s| <= 5 ==> DecimalValue(s) <= 99999
    decreases |s|
  {
    if s != [] {
      var t := s[..|s| - 1];
      assert forall k :: 0 <= k < |t| ==> t[k] == s[k];
      DecimalValueBounds(t);
    }
  }

  /** Every valid position survives the trip through its name. */
  lemma RoundTrip(p: Position)
    requires p.IsValid()
    ensures ParsePosition(PositionText(p)) == p
  {
    var letters := BijectiveLetters(p.col + 1);
    var digits := Decimal(p.row + 1);
    BijectiveLettersShape(p.col + 1);
    DecimalRoundTrip(p.row + 1);
    BijectiveRoundTrip(p.col + 1);
    assert IsDigit(digits[0]);
    SplitConcat(letters, digits);
    assert PositionText(p) == letters + digits;
  }

  /** ToString yields "" exactly for the positions IsValid rejects. */
  lemma ValidIffNamed(p: Position)
    ensures p.IsValid() <==> PositionText(p) != ""
  {
    if p.IsValid() {
      BijectiveLettersShape(p.col + 1);
    }
  }

  /** The cases in which FromString returns NONE. */
  lemma FromStringRejects(s: string)
    ensures s == "" ==> ParsePosition(s) == NONE
    ensures s != "" && (|Split(s).0| == 0 || |Split(s).0| > 3) ==> ParsePosition(s) == NONE
    ensures s != "" && (|Split(s).1| == 0 || |Split(s).1| > 5) ==> ParsePosition(s) == NONE
    ensures s != "" && !AllDigits(Split(s).1) ==> ParsePosition(s) == NONE
    ensures s != "" && BijectiveValue(Split(s).0) > 16384 ==> ParsePosition(s) == NONE
  {
  }

  /** FromString bounds the column but not the row: row -1 comes back for row number 0. */
  lemma {:induction false} FromStringBounds(s: string)
    ensures ParsePosition(s) == NONE
         || (0 <= ParsePosition(s).col <= 16383 && -1 <= ParsePosition(s).row <= 99998)
  {
    if s != [] {
      var (letters, digits) := Split(s);
      if 0 < |letters| <= 3 && 0 < |digits| <= 5 && AllDigits(digits) {
        BijectiveValuePositive(letters);
        DecimalValueBounds(digits);
      }
    }
  }

  /** "A0" names row -1: not NONE, yet not a valid position. */
  lemma RowZeroIsNotRejected()
    ensures ParsePosition("A0") == Position(-1, 0)
    ensures ParsePosition("A0") != NONE
    ensures !ParsePosition("A0").IsValid()
  {
    UpperPrefixUnique("A0", 1);
    assert "A0"[..1] == "A" && "A0"[1..] == "0";
    assert Split("A0") == ("A", "0");
    assert BijectiveValue("A") == 1;
    assert DecimalValue("0") == 0;
  }

  /** Column letters at the ends of the one- and two-letter ranges. */
  lemma LetterExamples()
    ensures BijectiveLetters(1) == "A" && BijectiveLetters(26) == "Z"
    ensures BijectiveLetters(27) == "AA" && BijectiveLetters(702) == "ZZ"
  {
    assert BijectiveLetters(27) == "AA";
  }

  /** The first three-letter column, and column 16384, the last a position may have. */
  lemma LongLetterExamples()
    ensures BijectiveLetters(703) == "AAA" && BijectiveLetters(16384) == "XFD"
  {
    assert BijectiveLetters(27) == "AA";
    assert BijectiveLetters(24) == "X";
    assert BijectiveLetters(630) == "XF";
  }

  lemma DecimalExample()
    ensures Decimal(16384) == "16384"
  {
    assert Decimal(16) == "16";
    assert Decimal(163) == "163";
    assert Decimal(1638) == "1638";
  }

  /** Names of the first cells of row 1. */
  lemma NameExamples()
    ensures PositionText(Position(0, 0)) == "A1"
    ensures PositionText(Position(0, 25)) == "Z1"
    ensures PositionText(Position(0, 26)) == "AA1"
    ensures PositionText(Position(0, 701)) == "ZZ1"
  {
    LetterExamples();
    assert Decimal(1) == "1";
  }

  /** Names at the far ends of the columns. */
  lemma LongNameExamples()
    ensures PositionText(Position(0, 702)) == "AAA1"
    ensures PositionText(Position(16383, 16383)) == "XFD16384"
  {
    LongLetterExamples();
    DecimalExample();
    assert Decimal(1) == "1";
  }
}
