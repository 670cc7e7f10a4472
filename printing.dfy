// The text layout of Sheet::PrintTexts and Sheet::PrintValues: every row of
// the printable area on its own line, fields separated by tabs.

module Printing {
  import opened Structures

  /** What is printed for position (i, j): its field, or nothing for an empty cell. */
  function Field(fields: map<Position, string>, i: int, j: int): string {
    if Position(i, j) in fields then fields[Position(i, j)] else ""
  }

  /** A tab after every field but the last of a row, which ends the line. */
  function Separator(j: int, cols: int): string {
    if j != cols - 1 then "\t" else "\n"
  }

  /** The first j fields of row i, each followed by its separator. */
  function Line(fields: map<Position, string>, i: int, cols: int, j: nat): string
    decreases j
  {
    if j == 0 then "" else Line(fields, i, cols, j - 1) + Field(fields, i, j - 1) + Separator(j - 1, cols)
  }

  /** The first k rows. */
  function Grid(fields: map<Position, string>, cols: nat, k: nat): string
    decreases k
  {
    if k == 0 then "" else Grid(fields, cols, k - 1) + Line(fields, k - 1, cols, cols)
  }

  /** The tabs of k lines of cols fields each. */
  function TabCount(k: int, cols: int): int {
    k * (cols - 1)
  }

  /** How many times ch occurs in s. */
  function Count(s: string, ch: char): nat {
    CountBelow(s, |s|, ch)
  }

  /** How many times ch occurs in the first n characters of s. */
  function CountBelow(s: string, n: nat, ch: char): nat
    requires n <= |s|
  {
    if n == 0 then 0 else CountBelow(s, n - 1, ch) + (if s[n - 1] == ch then 1 else 0)
  }

  /** Counting in a + b: the first |a| characters are a's, the rest b's. */
  lemma {:induction false} CountBelowConcat(a: string, b: string, n: nat, ch: char)
    requires n <= |b|
    ensures CountBelow(a + b, |a| + n, ch) == Count(a, ch) + CountBelow(b, n, ch)
    decreases n
  {
    if n == 0 {
      CountBelowPrefix(a, b, |a|, ch);
    } else {
      CountBelowConcat(a, b, n - 1, ch);
      assert (a + b)[|a| + n - 1] == b[n - 1];
    }
  }

  lemma {:induction false} CountBelowPrefix(a: string, b: string, n: nat, ch: char)
    requires n <= |a|
    ensures CountBelow(a + b, n, ch) == CountBelow(a, n, ch)
    decreases n
  {
    if n > 0 {
      CountBelowPrefix(a, b, n - 1, ch);
      assert (a + b)[n - 1] == a[n - 1];
    }
  }

  lemma CountConcat(a: string, b: string, ch: char)
    ensures Count(a + b, ch) == Count(a, ch) + Count(b, ch)
  {
    CountBelowConcat(a, b, |b|, ch);
  }

  lemma {:induction false} CountBelowAbsent(s: string, n: nat, ch: char)
    requires n <= |s| && ch !in s
    ensures CountBelow(s, n, ch) == 0
    decreases n
  {
    if n > 0 {
      CountBelowAbsent(s, n - 1, ch);
    }
  }

  lemma CountAbsent(s: string, ch: char)
    requires ch !in s
    ensures Count(s, ch) == 0
  {
    CountBelowAbsent(s, |s|, ch);
  }

  /** No field holds ch. */
  predicate FreeOf(fields: map<Position, string>, ch: char) {
    forall p :: p in fields ==> ch !in fields[p]
  }

  /** A field adds no ch when no field holds one. */
  lemma FieldFree(fields: map<Position, string>, i: int, j: int, ch: char)
    requires FreeOf(fields, ch)
    ensures Count(Field(fields, i, j), ch) == 0
  {
    CountAbsent(Field(fields, i, j), ch);
  }

  /** Count of ch in the first j fields of a row and their separators. */
  lemma {:induction false} LineCount(fields: map<Position, string>, i: int, cols: nat, j: nat, ch: char)
    requires j <= cols && FreeOf(fields, ch)
    ensures ch == '\n' ==> Count(Line(fields, i, cols, j), ch) == (if j == cols && cols > 0 then 1 else 0)
    ensures ch == '\t' ==> Count(Line(fields, i, cols, j), ch) == (if j == cols && cols > 0 then j - 1 else j)
    decreases j
  {
    if j > 0 {
      var before := Line(fields, i, cols, j - 1);
      var f := Field(fields, i, j - 1);
      var sep := Separator(j - 1, cols);
      LineCount(fields, i, cols, j - 1, ch);
      FieldFree(fields, i, j - 1, ch);
      CountConcat(before, f, ch);
      CountConcat(before + f, sep, ch);
      assert Line(fields, i, cols, j) == before + f + sep;
      assert Count(sep, ch) == (if sep[0] == ch then 1 else 0) by {
        assert CountBelow(sep, 0, ch) == 0;
      }
    }
  }

  lemma MulStep(a: int, b: int)
    requires a >= 1
    ensures a * b == (a - 1) * b + b
  {
  }

  /** With no field holding a newline, a printed grid of k rows holds exactly k newlines. */
  lemma {:induction false} GridLines(fields: map<Position, string>, cols: nat, k: nat)
    requires cols > 0 && FreeOf(fields, '\n')
    ensures Count(Grid(fields, cols, k), '\n') == k
    decreases k
  {
    if k > 0 {
      var above := Grid(fields, cols, k - 1);
      var line := Line(fields, k - 1, cols, cols);
      GridLines(fields, cols, k - 1);
      LineCount(fields, k - 1, cols, cols, '\n');
      CountConcat(above, line, '\n');
    }
  }

  /** With no field holding a tab, each of the k printed rows holds cols - 1 tabs. */
  lemma {:induction false} GridTabs(fields: map<Position, string>, cols: nat, k: nat)
    requires cols > 0 && FreeOf(fields, '\t')
    ensures Count(Grid(fields, cols, k), '\t') == TabCount(k, cols)
    decreases k
  {
    if k > 0 {
      var above := Grid(fields, cols, k - 1);
      var line := Line(fields, k - 1, cols, cols);
      GridTabs(fields, cols, k - 1);
      LineCount(fields, k - 1, cols, cols, '\t');
      CountConcat(above, line, '\t');
      MulStep(k, cols - 1);
    }
  }
}
