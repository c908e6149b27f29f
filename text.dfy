/** The .NET text primitives the serialiser relies on: `String.Split`, `StreamReader.ReadLine`,
    `int.ToString()` and `Convert.ToInt32(string)`. */
module Text {
  import opened Base

  // ---------------------------------------------------------------------------------------------
  // String.Split(char)

  /** `fields` joined back together with `sep` between neighbours. */
  function Join(fields: seq<string>, sep: char): string
    requires |fields| >= 1
  {
    if |fields| == 1 then fields[0] else fields[0] + [sep] + Join(fields[1..], sep)
  }

  /** `s.Split(sep)`: the maximal separator-free pieces of `s`, empty ones included. */
  function Split(s: string, sep: char): (fields: seq<string>)
    ensures |fields| >= 1
    ensures forall i :: 0 <= i < |fields| ==> sep !in fields[i]
    ensures Join(fields, sep) == s
  {
    if s == [] then [""]
    else
      var rest := Split(s[1..], sep);
      if s[0] == sep then [""] + rest
      else
        assert Join([[s[0]] + rest[0]] + rest[1..], sep) == [s[0]] + Join(rest, sep);
        [[s[0]] + rest[0]] + rest[1..]
  }

  /** A string without the separator is one field. */
  lemma {:induction false} SplitWhole(s: string, sep: char)
    requires sep !in s
    ensures Split(s, sep) == [s]
  {
    if s != [] {
      assert s[0] in s;
      SplitWhole(s[1..], sep);
      assert [s[0]] + s[1..] == s;
    }
  }

  /** Two separator-free pieces joined by one separator split back into exactly those pieces. */
  lemma {:induction false} SplitPair(a: string, b: string, sep: char)
    requires sep !in a && sep !in b
    ensures Split(a + [sep] + b, sep) == [a, b]
  {
    if a == [] {
      assert a + [sep] + b == [sep] + b;
      SplitWhole(b, sep);
    } else {
      var t := a + [sep] + b;
      assert t[0] == a[0] && a[0] in a;
      assert t[1..] == a[1..] + [sep] + b;
      SplitPair(a[1..], b, sep);
      assert [a[0]] + a[1..] == a;
    }
  }

  // ---------------------------------------------------------------------------------------------
  // StreamReader.ReadLine

  predicate IsLineBreak(c: char) { c == '\n' || c == '\r' }

  /** A string that `ReadLine()` can return: it holds no line terminator. */
  predicate OneLine(s: string) { forall c :: c in s ==> !IsLineBreak(c) }

  /** The successive results of `ReadLine()` on a reader over `text`, up to the first `null`:
      a line ends at "\n", "\r" or "\r\n", and a last line without a terminator is still a line. */
  function ReadLines(text: string): (lines: seq<string>)
    ensures forall i :: 0 <= i < |lines| ==> OneLine(lines[i])
    ensures text == [] <==> lines == []
  {
    if text == [] then []
    else if text[0] == '\n' then [""] + ReadLines(text[1..])
    else if text[0] == '\r' then
      [""] + ReadLines(if |text| > 1 && text[1] == '\n' then text[2..] else text[1..])
    else
      var rest := ReadLines(text[1..]);
      if rest == [] then [[text[0]]] else [[text[0]] + rest[0]] + rest[1..]
  }

  /** Each line followed by "\n", as `File.WriteAllText` stores a document built line by line. */
  function JoinLines(lines: seq<string>): string
  {
    if lines == [] then "" else JoinLines(lines[..|lines| - 1]) + lines[|lines| - 1] + "\n"
  }

  lemma {:induction false} JoinLinesAppend(a: seq<string>, b: seq<string>)
    ensures JoinLines(a + b) == JoinLines(a) + JoinLines(b)
  {
    if b == [] {
      assert a + b == a;
    } else {
      assert (a + b)[..|a + b| - 1] == a + b[..|b| - 1];
      JoinLinesAppend(a, b[..|b| - 1]);
    }
  }

  /** Reading a line that is followed by "\n" yields that line and leaves the rest. */
  lemma {:induction false} ReadLineThenRest(line: string, rest: string)
    requires OneLine(line)
    ensures ReadLines(line + "\n" + rest) == [line] + ReadLines(rest)
  {
    if line == [] {
      assert line + "\n" + rest == "\n" + rest;
      assert ("\n" + rest)[1..] == rest;
    } else {
      var text := line + "\n" + rest;
      assert text[0] == line[0] && line[0] in line;
      assert text[1..] == line[1..] + "\n" + rest;
      ReadLineThenRest(line[1..], rest);
      assert [line[0]] + line[1..] == line;
    }
  }

  /** Reading back a document written line by line gives the lines that were written. */
  lemma {:induction false} ReadJoinedLines(lines: seq<string>)
    requires forall i :: 0 <= i < |lines| ==> OneLine(lines[i])
    ensures ReadLines(JoinLines(lines)) == lines
  {
    if lines != [] {
      JoinLinesAppend([lines[0]], lines[1..]);
      assert [lines[0]] + lines[1..] == lines;
      assert JoinLines([lines[0]]) == lines[0] + "\n" by {
        assert [lines[0]][..0] == [];
      }
      ReadLineThenRest(lines[0], JoinLines(lines[1..]));
      ReadJoinedLines(lines[1..]);
    }
  }

  // ---------------------------------------------------------------------------------------------
  // int.ToString() and Convert.ToInt32(string)

  predicate IsDigit(c: char) { '0' <= c <= '9' }

  predicate AllDigits(s: string) { forall i :: 0 <= i < |s| ==> IsDigit(s[i]) }

  /** The white space `NumberStyles.Integer` lets a number carry before and after it. */
  predicate IsWhite(c: char) { c == ' ' || '\t' <= c <= '\r' }

  function DigitValue(c: char): nat
    requires IsDigit(c)
  {
    c as nat - '0' as nat
  }

  /** The value of a string of decimal digits, most significant first. */
  function DigitsValue(s: string): nat
    requires AllDigits(s)
  {
    if s == [] then 0 else DigitsValue(s[..|s| - 1]) * 10 + DigitValue(s[|s| - 1])
  }

  /** The shortest decimal spelling of `n`. */
  function ShowNat(n: nat): (s: string)
    ensures |s| >= 1 && AllDigits(s)
  {
    if n < 10 then [('0' as nat + n) as char]
    else ShowNat(n / 10) + [('0' as nat + n % 10) as char]
  }

  /** The digits `int.ToString()` writes for `n` have the value `n`. */
  lemma {:induction false} ShowNatValue(n: nat)
    ensures DigitsValue(ShowNat(n)) == n
  {
    if n >= 10 {
      var s := ShowNat(n);
      assert s[..|s| - 1] == ShowNat(n / 10);
      ShowNatValue(n / 10);
    }
  }

  /** `int.ToString()`: a minus sign for negative values, then the digits. */
  function ShowInt(v: int): (s: string)
    ensures |s| >= 1
    ensures forall c :: c in s ==> c == '-' || IsDigit(c)
    ensures forall i :: 0 < i < |s| ==> IsDigit(s[i])
    ensures v >= 0 <==> s[0] != '-'
  {
    if v < 0 then "-" + ShowNat(-v) else ShowNat(v)
  }

  /** The end of the white space that starts at `i`. */
  function WhiteFrom(s: string, i: nat): (n: nat)
    requires i <= |s|
    ensures i <= n <= |s|
    ensures forall k :: i <= k < n ==> IsWhite(s[k])
    ensures n < |s| ==> !IsWhite(s[n])
    decreases |s| - i
  {
    if i < |s| && IsWhite(s[i]) then WhiteFrom(s, i + 1) else i
  }

  /** The start of the NUL characters ('\0') that end `s[lo..j]`. */
  function NulsBefore(s: string, lo: nat, j: nat): (n: nat)
    requires lo <= j <= |s|
    ensures lo <= n <= j
    ensures forall k :: n <= k < j ==> s[k] == '\0'
    ensures n > lo ==> s[n - 1] != '\0'
  {
    if j > lo && s[j - 1] == '\0' then NulsBefore(s, lo, j - 1) else j
  }

  /** The start of the white space that ends `s[lo..j]`. */
  function WhiteBefore(s: string, lo: nat, j: nat): (n: nat)
    requires lo <= j <= |s|
    ensures lo <= n <= j
    ensures forall k :: n <= k < j ==> IsWhite(s[k])
    ensures n > lo ==> !IsWhite(s[n - 1])
  {
    if j > lo && IsWhite(s[j - 1]) then WhiteBefore(s, lo, j - 1) else j
  }

  /** The number `Convert.ToInt32(s)` reads: `s` without its leading white space, and without
      the trailing white space and NUL characters ('\0') that `Int32.Parse` accepts after a
      number, in that order. */
  function Trimmed(s: string): string
  {
    var i := WhiteFrom(s, 0);
    s[i..WhiteBefore(s, i, NulsBefore(s, i, |s|))]
  }

  /** `Convert.ToInt32(s)`: an optional '+' or '-' and at least one decimal digit, surrounded as
      `Trimmed` allows, and a value that fits an `int`; anything else throws (`None`). A result
      needs a digit of `s`, and a negative result a minus sign in `s`. */
  function ParseInt32(s: string): (r: Option<int32>)
    ensures r.Some? ==> exists k :: 0 <= k < |s| && IsDigit(s[k])
    ensures r.Some? && r.value < 0 ==> '-' in s
  {
    var i := WhiteFrom(s, 0);
    var j := WhiteBefore(s, i, NulsBefore(s, i, |s|));
    var r := ParseTrimmed(Trimmed(s));
    if r.Some? then
      assert Trimmed(s) == s[i..j];
      assert IsDigit(s[j - 1]);
      assert r.value < 0 ==> s[i] == '-';
      r
    else r
  }

  /** `Convert.ToInt32` once the surrounding white space and NUL characters are gone. */
  function ParseTrimmed(t: string): (r: Option<int32>)
    ensures r.Some? ==> t != [] && IsDigit(t[|t| - 1])
    ensures r.Some? && r.value < 0 ==> t[0] == '-'
  {
    var signed := |t| > 0 && (t[0] == '-' || t[0] == '+');
    var digits := if signed then t[1..] else t;
    if digits == [] || !AllDigits(digits) then None
    else
      var v: int := if signed && t[0] == '-' then -(DigitsValue(digits) as int) else DigitsValue(digits);
      if MIN_INT32 <= v <= MAX_INT32 then Some(v) else None
  }

  /** A string that starts and ends with a character that is neither white space nor NUL is
      read whole. */
  lemma TrimNothing(s: string)
    requires s != [] && !IsWhite(s[0]) && !IsWhite(s[|s| - 1]) && s[|s| - 1] != '\0'
    ensures Trimmed(s) == s
  {
    assert s[0..|s|] == s;
  }

  lemma {:induction false} WhiteFromSnoc(s: string, c: char, i: nat)
    requires i <= |s| && !IsWhite(c)
    ensures WhiteFrom(s + [c], i) == WhiteFrom(s, i)
    decreases |s| - i
  {
    if i < |s| && IsWhite(s[i]) {
      WhiteFromSnoc(s, c, i + 1);
    }
  }

  lemma {:induction false} NulsBeforeSnoc(s: string, c: char, lo: nat, j: nat)
    requires lo <= j <= |s|
    ensures NulsBefore(s + [c], lo, j) == NulsBefore(s, lo, j)
  {
    if j > lo && s[j - 1] == '\0' {
      NulsBeforeSnoc(s, c, lo, j - 1);
    }
  }

  lemma {:induction false} WhiteBeforeSnoc(s: string, c: char, lo: nat, j: nat)
    requires lo <= j <= |s|
    ensures WhiteBefore(s + [c], lo, j) == WhiteBefore(s, lo, j)
  {
    if j > lo && IsWhite(s[j - 1]) {
      WhiteBeforeSnoc(s, c, lo, j - 1);
    }
  }

  /** `Convert.ToInt32` ignores a NUL character appended to its input, so `"12\0"` reads 12. */
  lemma ParseTrailingNul(s: string)
    ensures ParseInt32(s + "\0") == ParseInt32(s)
  {
    TrimmedTrailingNul(s);
  }

  /** An appended NUL character is trimmed away. */
  lemma TrimmedTrailingNul(s: string)
    ensures Trimmed(s + "\0") == Trimmed(s)
  {
    var s' := s + "\0";
    var i := WhiteFrom(s, 0);
    var j := NulsBefore(s, i, |s|);
    var e := WhiteBefore(s, i, j);
    assert WhiteFrom(s', 0) == i by { WhiteFromSnoc(s, '\0', 0); }
    assert NulsBefore(s', i, |s'|) == j by {
      assert NulsBefore(s', i, |s'|) == NulsBefore(s', i, |s|);
      NulsBeforeSnoc(s, '\0', i, |s|);
    }
    assert WhiteBefore(s', i, j) == e by { WhiteBeforeSnoc(s, '\0', i, j); }
    PrefixSlice(s, "\0", i, e);
  }

  lemma PrefixSlice(s: string, u: string, i: nat, e: nat)
    requires i <= e <= |s|
    ensures (s + u)[i..e] == s[i..e]
  {
  }

  lemma ParseDigits(n: nat)
    requires n <= MAX_INT32
    ensures ParseTrimmed(ShowNat(n)) == Some(n)
  {
    var s := ShowNat(n);
    assert IsDigit(s[0]);
    ShowNatValue(n);
  }

  lemma ParseNegative(n: nat)
    requires 0 < n <= MAX_INT32 + 1
    ensures ParseTrimmed("-" + ShowNat(n)) == Some(-(n as int))
  {
    var s := "-" + ShowNat(n);
    assert s[1..] == ShowNat(n);
    ShowNatValue(n);
  }

  /** `Convert.ToInt32` reads back what `int.ToString()` wrote. */
  lemma ParseShow(v: int32)
    ensures ParseInt32(ShowInt(v)) == Some(v)
  {
    var s := ShowInt(v);
    assert s[0] in s && s[|s| - 1] in s;
    TrimNothing(s);
    if v < 0 {
      ParseNegative(-(v as int));
    } else {
      ParseDigits(v as int);
    }
  }

  /** The first two tab-separated fields of a line as two `int`s, or `None` where the source's
      `split[1]` or `Convert.ToInt32` would throw. Further fields are ignored. */
  function ParseFields(line: string): (r: Option<(int32, int32)>)
    ensures r.Some? ==> '\t' in line
  {
    var fields := Split(line, '\t');
    if |fields| < 2 then None
    else
      match (ParseInt32(fields[0]), ParseInt32(fields[1]))
      case (Some(a), Some(b)) =>
        assert '\t' in Join(fields, '\t') by {
          assert Join(fields, '\t') == fields[0] + ['\t'] + Join(fields[1..], '\t');
          assert Join(fields, '\t')[|fields[0]|] == '\t';
        }
        Some((a, b))
      case _ => None
  }

  /** The line `a\tb` the serialiser writes for a pair of numbers. */
  function PairLine(a: int, b: int): (line: string)
    ensures line != [] && OneLine(line)
  {
    ShowInt(a) + "\t" + ShowInt(b)
  }

  /** A written pair line parses back to the same pair. */
  lemma ParsePairLine(a: int32, b: int32)
    ensures ParseFields(PairLine(a, b)) == Some((a, b))
  {
    assert '\t' !in ShowInt(a) && '\t' !in ShowInt(b);
    SplitPair(ShowInt(a), ShowInt(b), '\t');
    ParseShow(a);
    ParseShow(b);
  }

  /** The line "1\0\t2" reads as the pair (1, 2): the NUL after the first number is accepted. */
  lemma ParseNulLine()
    ensures ParseFields("1\0\t2") == Some((1, 2))
  {
    assert "1\0\t2" == "1\0" + "\t" + "2";
    SplitPair("1\0", "2", '\t');
    ParseSmall();
  }

  lemma ParseSmall()
    ensures ParseInt32("1\0") == Some(1) && ParseInt32("2") == Some(2)
  {
    assert ShowInt(1) == "1" && ShowInt(2) == "2";
    ParseShow(1);
    ParseShow(2);
    ParseTrailingNul("1");
  }
}
