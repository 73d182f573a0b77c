/** The string operations the book table relies on: ASCII lower-casing,
    joining author names, and reading a decimal year. */
module Text {
  import opened Wrappers

  // ---------------------------------------------------------------------------
  // Case folding
  // ---------------------------------------------------------------------------

  predicate IsUpper(c: char) {
    'A' <= c <= 'Z'
  }

  /** Lower-cases one ASCII letter and leaves every other character alone. */
  function LowerChar(c: char): char {
    if IsUpper(c) then (c as int - 'A' as int + 'a' as int) as char else c
  }

  /** `s.lower()`, restricted to the ASCII letters. */
  function LowerAscii(s: string): (r: string)
    ensures |r| == |s|
    ensures forall i :: 0 <= i < |s| ==> !IsUpper(r[i])
    ensures forall i :: 0 <= i < |s| && !IsUpper(s[i]) ==> r[i] == s[i]
    ensures forall i :: 0 <= i < |s| && IsUpper(s[i]) ==> r[i] as int - s[i] as int == 'a' as int - 'A' as int
  {
    seq(|s|, i requires 0 <= i < |s| => LowerChar(s[i]))
  }

  // ---------------------------------------------------------------------------
  // Author lists
  // ---------------------------------------------------------------------------

  /** `", ".join(names)`. */
  function JoinAuthors(names: seq<string>): string {
    if |names| == 0 then ""
    else if |names| == 1 then names[0]
    else names[0] + ", " + JoinAuthors(names[1..])
  }

  /** Cuts a joined author string at every ", ": the inverse of JoinAuthors
      for names that hold no comma. */
  function SplitAuthors(s: string): (r: seq<string>)
    ensures |r| >= 1
  {
    if |s| == 0 then [""]
    else if |s| >= 2 && s[0] == ',' && s[1] == ' ' then [""] + SplitAuthors(s[2..])
    else
      var rest := SplitAuthors(s[1..]);
      [[s[0]] + rest[0]] + rest[1..]
  }

  lemma {:induction false} SplitAfterName(name: string, rest: string)
    requires ',' !in name
    ensures SplitAuthors(name + ", " + rest) == [name] + SplitAuthors(rest)
  {
    if |name| == 0 {
      assert name + ", " + rest == ", " + rest;
      assert (", " + rest)[2..] == rest;
    } else {
      var s := name + ", " + rest;
      assert s[0] == name[0] && s[0] != ',';
      assert s[1..] == name[1..] + ", " + rest;
      SplitAfterName(name[1..], rest);
      assert [name[0]] + name[1..] == name;
    }
  }

  lemma {:induction false} SplitWholeName(name: string)
    requires ',' !in name
    ensures SplitAuthors(name) == [name]
  {
    if |name| > 0 {
      assert name[0] != ',';
      SplitWholeName(name[1..]);
      assert [name[0]] + name[1..] == name;
    }
  }

  /** Joining a non-empty list of comma-free names with ", " loses nothing:
      SplitAuthors recovers the list. */
  lemma {:induction false} SplitJoinAuthors(names: seq<string>)
    requires |names| >= 1
    requires forall n <- names :: ',' !in n
    ensures SplitAuthors(JoinAuthors(names)) == names
  {
    if |names| == 1 {
      SplitWholeName(names[0]);
    } else {
      assert names[0] in names;
      SplitAfterName(names[0], JoinAuthors(names[1..]));
      assert forall n <- names[1..] :: n in names;
      SplitJoinAuthors(names[1..]);
      assert [names[0]] + names[1..] == names;
    }
  }

  // ---------------------------------------------------------------------------
  // Decimal numerals
  // ---------------------------------------------------------------------------

  predicate IsDigit(c: char) {
    '0' <= c <= '9'
  }

  /** A non-empty run of decimal digits: the year texts that coerce to a number. */
  predicate IsNumeral(s: string) {
    |s| > 0 && forall i :: 0 <= i < |s| ==> IsDigit(s[i])
  }

  function DigitsValue(s: string): nat
    requires forall i :: 0 <= i < |s| ==> IsDigit(s[i])
  {
    if |s| == 0 then 0
    else
      assert IsDigit(s[|s| - 1]);
      DigitsValue(s[..|s| - 1]) * 10 + (s[|s| - 1] as int - '0' as int)
  }

  /** Numeric coercion of a text value: its number when it is a numeral,
      and nothing (a null) otherwise. */
  function ParseNumeral(s: string): (r: Option<int>)
    ensures r.Some? <==> IsNumeral(s)
    ensures r.Some? ==> r.value >= 0
  {
    if IsNumeral(s) then Some(DigitsValue(s)) else None
  }

  /** The decimal numeral of `n`, without leading zeros. */
  function Numeral(n: nat): (s: string)
    ensures IsNumeral(s)
    ensures n < 10 <==> |s| == 1
  {
    if n < 10 then [('0' as int + n) as char]
    else Numeral(n / 10) + [('0' as int + n % 10) as char]
  }

  /** Reading back a written number gives the number. */
  lemma {:induction false} ParseNumeral_Numeral(n: nat)
    ensures ParseNumeral(Numeral(n)) == Some(n)
  {
    NumeralValue(n);
  }

  lemma {:induction false} NumeralValue(n: nat)
    ensures DigitsValue(Numeral(n)) == n
  {
    if n >= 10 {
      NumeralValue(n / 10);
      var s := Numeral(n);
      assert s[..|s| - 1] == Numeral(n / 10);
    }
  }

  /** A four-digit year is written with exactly four characters. */
  lemma {:induction false} NumeralOfYear(n: nat)
    requires 1000 <= n <= 9999
    ensures |Numeral(n)| == 4
  {
    assert |Numeral(n / 1000)| == 1;
    assert |Numeral(n / 100)| == |Numeral(n / 1000)| + 1;
    assert |Numeral(n / 10)| == |Numeral(n / 100)| + 1;
  }
}
