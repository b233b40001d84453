/**
 * The text operations the importer and the address codec rely on: PHP's `explode`,
 * decimal digits, PHP's `trim` and PHP's `empty` on strings.
 */
module Strings {

  /** PHP `explode(sep, s)`: the pieces of `s` between occurrences of `sep`, always at least one. */
  function Split(s: string, sep: char): (parts: seq<string>)
    ensures |parts| >= 1
    ensures forall i :: 0 <= i < |parts| ==> sep !in parts[i]
  {
    if |s| == 0 then [""]
    else
      var rest := Split(s[1..], sep);
      if s[0] == sep then [""] + rest
      else [[s[0]] + rest[0]] + rest[1..]
  }

  /** PHP `implode(sep, parts)`. */
  function Join(parts: seq<string>, sep: char): string
    requires |parts| >= 1
  {
    if |parts| == 1 then parts[0] else parts[0] + [sep] + Join(parts[1..], sep)
  }

  /** Joining the pieces of `s` gives `s` back. */
  lemma {:induction false} JoinSplit(s: string, sep: char)
    ensures Join(Split(s, sep), sep) == s
  {
    if |s| > 0 {
      JoinSplit(s[1..], sep);
      var rest := Split(s[1..], sep);
      if s[0] == sep {
        assert Split(s, sep)[1..] == rest;
      } else {
        var parts := Split(s, sep);
        assert parts[0] == [s[0]] + rest[0];
        if |rest| == 1 {
          assert s == [s[0]] + s[1..];
        } else {
          assert parts[1..] == rest[1..];
          assert Join(rest, sep) == rest[0] + [sep] + Join(rest[1..], sep);
          assert s == [s[0]] + s[1..];
        }
      }
    }
  }

  /** Splitting `p + t` where `p` holds no separator extends the first piece of `t` by `p`. */
  lemma {:induction false} SplitPrefix(p: string, t: string, sep: char)
    requires sep !in p
    ensures Split(p + t, sep) == [p + Split(t, sep)[0]] + Split(t, sep)[1..]
  {
    if |p| > 0 {
      SplitPrefix(p[1..], t, sep);
      assert (p + t)[1..] == p[1..] + t;
      assert (p + t)[0] == p[0];
      assert [p[0]] + (p[1..] + Split(t, sep)[0]) == p + Split(t, sep)[0];
    } else {
      assert p + t == t;
      var parts := Split(t, sep);
      assert p == [];
      assert p + parts[0] == parts[0];
      assert parts == [parts[0]] + parts[1..];
    }
  }

  /** Splitting the joined pieces gives the pieces back when none of them holds the separator. */
  lemma {:induction false} SplitJoin(parts: seq<string>, sep: char)
    requires |parts| >= 1
    requires forall i :: 0 <= i < |parts| ==> sep !in parts[i]
    ensures Split(Join(parts, sep), sep) == parts
  {
    if |parts| == 1 {
      SplitPrefix(parts[0], "", sep);
      assert parts[0] + "" == parts[0];
    } else {
      var tail := Join(parts[1..], sep);
      SplitJoin(parts[1..], sep);
      var dotted := [sep] + tail;
      assert dotted[0] == sep && dotted[1..] == tail;
      assert Split(dotted, sep) == [""] + Split(tail, sep);
      SplitPrefix(parts[0], dotted, sep);
      assert Join(parts, sep) == parts[0] + dotted;
      assert parts[0] + "" == parts[0];
      assert parts == [parts[0]] + parts[1..];
    }
  }

  predicate IsDigit(c: char) {
    '0' <= c <= '9'
  }

  predicate AllDigits(s: string) {
    forall i :: 0 <= i < |s| ==> IsDigit(s[i])
  }

  function DigitValue(c: char): (d: nat)
    requires IsDigit(c)
    ensures d < 10
  {
    c as int - '0' as int
  }

  function DigitChar(d: nat): (c: char)
    requires d < 10
    ensures IsDigit(c) && DigitValue(c) == d
  {
    ('0' as int + d) as char
  }

  /** The value of a string of decimal digits, most significant first (the empty string is 0). */
  function ParseDecimal(s: string): nat
    requires AllDigits(s)
  {
    if |s| == 0 then 0 else 10 * ParseDecimal(s[..|s| - 1]) + DigitValue(s[|s| - 1])
  }

  /** Digits with no superfluous leading zero: "0", "7", "42", but not "", "07" or "4a". */
  predicate IsCanonicalDecimal(s: string) {
    |s| >= 1 && AllDigits(s) && (s[0] == '0' ==> |s| == 1)
  }

  /** The decimal text of `n`, as PHP prints an integer. */
  function Decimal(n: nat): (s: string)
    ensures IsCanonicalDecimal(s)
    ensures |s| > 1 <==> n >= 10
  {
    if n < 10 then [DigitChar(n)] else Decimal(n / 10) + [DigitChar(n % 10)]
  }

  /** Parsing the decimal text of `n` gives `n`. */
  lemma {:induction false} ParseDecimalOfDecimal(n: nat)
    ensures ParseDecimal(Decimal(n)) == n
  {
    if n >= 10 {
      ParseDecimalOfDecimal(n / 10);
      var s := Decimal(n);
      assert s[..|s| - 1] == Decimal(n / 10);
    }
  }

  /** A canonical numeral other than "0" denotes a positive value. */
  lemma {:induction false} CanonicalPositive(s: string)
    requires IsCanonicalDecimal(s) && s[0] != '0'
    ensures ParseDecimal(s) >= 1
    ensures |s| > 1 ==> ParseDecimal(s) >= 10
  {
    if |s| > 1 {
      var p := s[..|s| - 1];
      assert p[0] == s[0];
      CanonicalPositive(p);
    } else {
      assert s[..0] == "";
    }
  }

  /** A canonical numeral is the decimal text of its own value. */
  lemma {:induction false} DecimalOfParse(s: string)
    requires IsCanonicalDecimal(s)
    ensures Decimal(ParseDecimal(s)) == s
  {
    if |s| == 1 {
      assert s[..0] == "";
      assert s == [DigitChar(DigitValue(s[0]))];
    } else {
      var p := s[..|s| - 1];
      assert p[0] == s[0];
      CanonicalPositive(s);
      CanonicalPositive(p);
      DecimalOfParse(p);
      var n := ParseDecimal(s);
      assert n / 10 == ParseDecimal(p) && n % 10 == DigitValue(s[|s| - 1]);
      assert s == p + [DigitChar(DigitValue(s[|s| - 1]))];
    }
  }

  /** The characters PHP's `trim` strips by default: space, tab, newline, carriage return, NUL, vertical tab. */
  predicate IsTrimmable(c: char) {
    c == ' ' || c == '\t' || c == '\n' || c == '\r' || c == 0 as char || c == 11 as char
  }

  /** `s` without its leading whitespace. */
  function TrimLeft(s: string): (t: string)
    ensures |t| <= |s|
  {
    if |s| > 0 && IsTrimmable(s[0]) then TrimLeft(s[1..]) else s
  }

  /** `s` without its trailing whitespace. */
  function TrimRight(s: string): (t: string)
    ensures |t| <= |s|
  {
    if |s| > 0 && IsTrimmable(s[|s| - 1]) then TrimRight(s[..|s| - 1]) else s
  }

  /** `TrimLeft` keeps a suffix, drops only whitespace, and stops at the first other character. */
  lemma {:induction false} TrimLeftCuts(s: string)
    ensures var t := TrimLeft(s);
      t == s[|s| - |t|..] &&
      (forall k :: 0 <= k < |s| - |t| ==> IsTrimmable(s[k])) &&
      (|t| > 0 ==> !IsTrimmable(t[0]))
  {
    if |s| > 0 && IsTrimmable(s[0]) {
      TrimLeftCuts(s[1..]);
    }
  }

  /** `TrimRight` keeps a prefix, drops only whitespace, and stops at the last other character. */
  lemma {:induction false} TrimRightCuts(s: string)
    ensures var t := TrimRight(s);
      t == s[..|t|] &&
      (forall k :: |t| <= k < |s| ==> IsTrimmable(s[k])) &&
      (|t| > 0 ==> !IsTrimmable(t[|t| - 1]))
  {
    if |s| > 0 && IsTrimmable(s[|s| - 1]) {
      TrimRightCuts(s[..|s| - 1]);
    }
  }

  /** PHP `trim(s)`: `s` with its leading and trailing whitespace removed. */
  function Trim(s: string): (t: string)
    ensures |t| <= |s|
  {
    TrimRight(TrimLeft(s))
  }

  /**
   * What `trim` removes is whitespace only: its result is a contiguous slice of `s` with nothing
   * but whitespace before and after it, and it neither starts nor ends with whitespace.
   */
  lemma TrimCutsOnlyWhitespace(s: string)
    ensures exists i :: (0 <= i <= |s| && Trim(s) <= s[i..] &&
                         (forall k :: 0 <= k < i ==> IsTrimmable(s[k])) &&
                         (forall k :: i + |Trim(s)| <= k < |s| ==> IsTrimmable(s[k])))
    ensures |Trim(s)| > 0 ==> !IsTrimmable(Trim(s)[0]) && !IsTrimmable(Trim(s)[|Trim(s)| - 1])
  {
    var l := TrimLeft(s);
    var t := TrimRight(l);
    TrimLeftCuts(s);
    TrimRightCuts(l);
    var i := |s| - |l|;
    assert t <= s[i..];
    if |t| > 0 {
      assert t[0] == l[0];
    }
  }

  /** Trimming twice is trimming once. */
  lemma TrimIdempotent(s: string)
    ensures Trim(Trim(s)) == Trim(s)
  {
    var t := Trim(s);
    TrimCutsOnlyWhitespace(s);
    assert TrimLeft(t) == t;
    assert TrimRight(t) == t;
  }

  /** PHP `empty()` on a string: true of "" and of "0" only. */
  predicate IsEmptyValue(s: string) {
    s == "" || s == "0"
  }
}
