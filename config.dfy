/** The year list of the inventory query, built from a comma-separated
    environment value: the value is split on every comma and each field is
    parsed as a decimal integer, a failed parse still contributing its
    fallback value. */
module Config {

  /** Splits `s` around every occurrence of `sep`: one more field than there
      are separators, and an empty input gives one empty field. */
  function Split(s: string, sep: char): (fields: seq<string>)
    ensures |fields| == Occurrences(s, sep) + 1
    ensures forall i :: 0 <= i < |fields| ==> sep !in fields[i]
  {
    if s == [] then [""]
    else
      var rest := Split(s[1..], sep);
      if s[0] == sep then [""] + rest
      else [[s[0]] + rest[0]] + rest[1..]
  }

  function Occurrences(s: string, c: char): nat
  {
    if s == [] then 0 else (if s[0] == c then 1 else 0) + Occurrences(s[1..], c)
  }

  /** The inverse of Split: the fields glued back together with `sep`. */
  function Join(fields: seq<string>, sep: char): string
    requires |fields| >= 1
  {
    if |fields| == 1 then fields[0] else fields[0] + [sep] + Join(fields[1..], sep)
  }

  /** Joining the fields of a split gives back the original string. */
  lemma {:induction false} JoinSplit(s: string, sep: char)
    ensures Join(Split(s, sep), sep) == s
  {
    if s != [] {
      var rest := Split(s[1..], sep);
      JoinSplit(s[1..], sep);
      if s[0] == sep {
        assert ([""] + rest)[1..] == rest;
      } else if |rest| > 1 {
        var fields := [[s[0]] + rest[0]] + rest[1..];
        assert fields[1..] == rest[1..];
        assert Join(rest, sep) == rest[0] + [sep] + Join(rest[1..], sep);
      }
    }
  }

  lemma {:induction false} SplitWithoutSep(f: string, sep: char)
    requires sep !in f
    ensures Split(f, sep) == [f]
  {
    if f != [] {
      SplitWithoutSep(f[1..], sep);
      assert [f[0]] + f[1..] == f;
    }
  }

  lemma {:induction false} SplitAtSep(f: string, sep: char, t: string)
    requires sep !in f
    ensures Split(f + [sep] + t, sep) == [f] + Split(t, sep)
  {
    var s := f + [sep] + t;
    if f == [] {
      assert s[1..] == t;
    } else {
      assert s[1..] == f[1..] + [sep] + t;
      SplitAtSep(f[1..], sep, t);
      assert [f[0]] + f[1..] == f;
    }
  }

  /** Splitting a join of separator-free fields gives back the fields. */
  lemma {:induction false} SplitJoin(fields: seq<string>, sep: char)
    requires |fields| >= 1
    requires forall i :: 0 <= i < |fields| ==> sep !in fields[i]
    ensures Split(Join(fields, sep), sep) == fields
  {
    if |fields| == 1 {
      SplitWithoutSep(fields[0], sep);
    } else {
      SplitJoin(fields[1..], sep);
      SplitAtSep(fields[0], sep, Join(fields[1..], sep));
      assert [fields[0]] + fields[1..] == fields;
    }
  }

  /** The range of Go's 64-bit `int`. */
  const MaxInt: int := 0x7FFF_FFFF_FFFF_FFFF
  const MinInt: int := -0x8000_0000_0000_0000

  /** The two results of `strconv.Atoi`: the value, and whether no error was
      returned. */
  datatype Parsed = Parsed(value: int, ok: bool)

  predicate IsDigit(c: char) { '0' <= c <= '9' }

  predicate AllDigits(s: string) { forall i :: 0 <= i < |s| ==> IsDigit(s[i]) }

  function DigitValue(c: char): nat
    requires IsDigit(c)
  {
    (c as int) - ('0' as int)
  }

  /** The value of a string of decimal digits, most significant first. */
  function DecimalValue(s: string): nat
    requires AllDigits(s)
  {
    if s == [] then 0 else DecimalValue(s[..|s| - 1]) * 10 + DigitValue(s[|s| - 1])
  }

  /** `s` without its leading sign, if it has one. */
  function Unsigned(s: string): string
  {
    if |s| > 0 && (s[0] == '-' || s[0] == '+') then s[1..] else s
  }

  /** `strconv.Atoi`: an optional sign followed by at least one decimal digit.
      Anything else is a syntax error with value 0; a number outside Go's
      `int` is a range error whose value is clamped to the nearest bound. */
  function Atoi(s: string): (p: Parsed)
    ensures p.ok ==> MinInt <= p.value <= MaxInt
    ensures !p.ok ==> p.value == 0 || p.value == MaxInt || p.value == MinInt
    ensures Unsigned(s) == [] || !AllDigits(Unsigned(s)) ==> p == Parsed(0, false)
  {
    var digits := Unsigned(s);
    if digits == [] || !AllDigits(digits) then Parsed(0, false)
    else
      var magnitude: int := DecimalValue(digits);
      var v: int := if |s| > 0 && s[0] == '-' then -magnitude else magnitude;
      if v > MaxInt then Parsed(MaxInt, false)
      else if v < MinInt then Parsed(MinInt, false)
      else Parsed(v, true)
  }

  function DigitChar(d: nat): (c: char)
    requires d < 10
    ensures IsDigit(c) && DigitValue(c) == d
  {
    (('0' as int) + d) as char
  }

  /** The decimal digits of `n`, without leading zeros. */
  function DecimalDigits(n: nat): (s: string)
    ensures |s| >= 1 && AllDigits(s)
  {
    if n < 10 then [DigitChar(n)] else DecimalDigits(n / 10) + [DigitChar(n % 10)]
  }

  /** Decimal formatting of a Go `int`, the inverse partner of Atoi. */
  function Itoa(n: int): string
  {
    if n < 0 then "-" + DecimalDigits(-n) else DecimalDigits(n)
  }

  lemma {:induction false} DecimalRoundTrip(n: nat)
    ensures DecimalValue(DecimalDigits(n)) == n
  {
    if n >= 10 {
      DecimalRoundTrip(n / 10);
      var s := DecimalDigits(n);
      assert s[..|s| - 1] == DecimalDigits(n / 10);
    }
  }

  /** Atoi reads back every in-range integer written in decimal. */
  lemma AtoiItoa(n: int)
    requires MinInt <= n <= MaxInt
    ensures Atoi(Itoa(n)) == Parsed(n, true)
  {
    var s := Itoa(n);
    var magnitude: nat := if n < 0 then -n else n;
    var d := DecimalDigits(magnitude);
    DecimalRoundTrip(magnitude);
    assert IsDigit(d[0]);
    if n < 0 {
      assert s[0] == '-' && s[1..] == d;
    } else {
      assert s == d;
    }
    assert Unsigned(s) == d;
  }

  /** The year list of `main`: one entry per comma-separated field of the
      environment value, in order, each the value Atoi gives for that field,
      whether or not it reported an error. */
  method BuildYears(yearsEnv: string) returns (years: seq<int>)
    ensures |years| == Occurrences(yearsEnv, ',') + 1
    ensures forall i :: 0 <= i < |years| ==> years[i] == Atoi(Split(yearsEnv, ',')[i]).value
  {
    years := [];
    var fields := Split(yearsEnv, ',');
    for i := 0 to |fields|
      invariant |years| == i
      invariant forall k :: 0 <= k < i ==> years[k] == Atoi(fields[k]).value
    {
      var parsed := Atoi(fields[i]);
      years := years + [parsed.value];
    }
  }

  /** A space after a comma stays part of the next field ... */
  lemma SplitKeepsSpaces()
    ensures Split("2024, 2025", ',') == ["2024", " 2025"]
  {
    var first, second := "2024", " 2025";
    SplitWithoutSep(second, ',');
    SplitAtSep(first, ',', second);
    assert Split(first + [','] + second, ',') == [first, second];
    assert first + [','] + second == "2024, 2025";
  }

  /** ... which then fails to parse and is kept as year 0 rather than skipped. */
  lemma SpaceAfterCommaGivesZero()
    ensures Atoi("2024") == Parsed(2024, true)
    ensures Atoi(" 2025") == Parsed(0, false)
  {
    assert DecimalValue("2024") == 2024 by {
      assert "2024"[..3] == "202";
      assert "202"[..2] == "20";
      assert "20"[..1] == "2";
      assert "2"[..0] == "";
    }
    assert !IsDigit(" 2025"[0]);
  }
}
