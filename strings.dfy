/**
 * The string operations of Rust's standard library that the program relies
 * on: `join` and `split` with a one-character separator, `repeat` of a
 * space, suffix tests, and `str::parse::<i32>`.
 * Strings are sequences of characters.
 */
module Strings {
  import opened Wrappers

  /** `lines.join(sep)`: the lines with one separator between neighbours. */
  function Join(lines: seq<string>, sep: char): (joined: string)
    ensures |lines| >= 1 ==> lines[0] <= joined
    ensures |lines| >= 2 ==> |lines[0]| < |joined| && joined[|lines[0]|] == sep
  {
    if |lines| == 0 then ""
    else if |lines| == 1 then lines[0]
    else lines[0] + [sep] + Join(lines[1..], sep)
  }

  /** Position of the first `c` in `s`. */
  function FirstIndex(s: string, c: char): (i: nat)
    requires c in s
    ensures i < |s| && s[i] == c
    ensures c !in s[..i]
  {
    if s[0] == c then 0
    else
      var j := FirstIndex(s[1..], c);
      assert s[..j + 1] == [s[0]] + s[1..][..j];
      j + 1
  }

  /** The first `c` is at `j` when `s[j]` is `c` and no earlier character is. */
  lemma {:induction false} FirstIndexAt(s: string, c: char, j: nat)
    requires j < |s| && s[j] == c && c !in s[..j]
    ensures FirstIndex(s, c) == j
  {
    if j > 0 {
      assert s[..j][0] == s[0];
      assert s[1..][..j - 1] == s[..j][1..];
      FirstIndexAt(s[1..], c, j - 1);
    }
  }

  /**
   * `s.split(sep)`: the pieces between separators, in order. There is always
   * at least one piece; the empty string splits into one empty piece and a
   * trailing separator yields a trailing empty piece.
   */
  function Split(s: string, sep: char): (pieces: seq<string>)
    ensures |pieces| >= 1
    ensures forall k :: 0 <= k < |pieces| ==> sep !in pieces[k]
    decreases |s|
  {
    if sep !in s then [s]
    else
      var i := FirstIndex(s, sep);
      [s[..i]] + Split(s[i + 1..], sep)
  }

  /** No line contains the separator. */
  predicate Unbroken(lines: seq<string>, sep: char)
  {
    forall k :: 0 <= k < |lines| ==> sep !in lines[k]
  }

  lemma JoinCons(line: string, rest: seq<string>, sep: char)
    requires |rest| >= 1
    ensures Join([line] + rest, sep) == line + [sep] + Join(rest, sep)
  {
    assert ([line] + rest)[1..] == rest;
  }

  /** Splitting undoes joining exactly when there is a line and no line holds the separator. */
  lemma {:induction false} SplitJoin(lines: seq<string>, sep: char)
    ensures Split(Join(lines, sep), sep) == lines <==> |lines| >= 1 && Unbroken(lines, sep)
  {
    if |lines| >= 1 && Unbroken(lines, sep) {
      SplitJoinUnbroken(lines, sep);
    }
  }

  lemma {:induction false} SplitJoinUnbroken(lines: seq<string>, sep: char)
    requires |lines| >= 1 && Unbroken(lines, sep)
    ensures Split(Join(lines, sep), sep) == lines
    decreases |lines|
  {
    if |lines| > 1 {
      var head, tail := lines[0], Join(lines[1..], sep);
      assert Join(lines, sep) == head + [sep] + tail;
      SplitAfter(head, tail, sep);
      SplitJoinUnbroken(lines[1..], sep);
      assert lines == [head] + lines[1..];
    }
  }

  /** A line without the separator, then the separator, splits off as the first piece. */
  lemma SplitAfter(head: string, tail: string, sep: char)
    requires sep !in head
    ensures Split(head + [sep] + tail, sep) == [head] + Split(tail, sep)
  {
    var s := head + [sep] + tail;
    assert s[..|head|] == head;
    SplitAt(s, sep, |head|);
    assert s[|head| + 1..] == tail;
  }

  /** When the first separator is at `i`, the first piece is everything before it. */
  lemma SplitAt(s: string, sep: char, i: nat)
    requires i < |s| && s[i] == sep && sep !in s[..i]
    ensures Split(s, sep) == [s[..i]] + Split(s[i + 1..], sep)
  {
    assert sep in s;
    FirstIndexAt(s, sep, i);
  }

  /** Joining the pieces of a split gives back the text, for every text. */
  lemma {:induction false} JoinSplit(s: string, sep: char)
    ensures Join(Split(s, sep), sep) == s
    decreases |s|
  {
    if sep in s {
      var i := FirstIndex(s, sep);
      JoinSplit(s[i + 1..], sep);
      JoinCons(s[..i], Split(s[i + 1..], sep), sep);
      assert s == s[..i] + [sep] + s[i + 1..];
    }
  }

  /** A separator at the end of the text adds one empty piece at the end. */
  lemma {:induction false} SplitTrailingSeparator(s: string, sep: char)
    ensures Split(s + [sep], sep) == Split(s, sep) + [""]
    decreases |s|
  {
    if sep !in s {
      SplitTrailingOnly(s, sep);
    } else {
      var i := FirstIndex(s, sep);
      SplitTrailingSeparator(s[i + 1..], sep);
      SplitTrailingAt(s, sep, i);
    }
  }

  lemma SplitTrailingOnly(s: string, sep: char)
    requires sep !in s
    ensures Split(s + [sep], sep) == Split(s, sep) + [""]
  {
    var t := s + [sep];
    assert t[..|s|] == s;
    SplitAt(t, sep, |s|);
    assert t[|s| + 1..] == "";
  }

  lemma SplitTrailingAt(s: string, sep: char, i: nat)
    requires i < |s| && s[i] == sep && sep !in s[..i]
    requires Split(s[i + 1..] + [sep], sep) == Split(s[i + 1..], sep) + [""]
    ensures Split(s + [sep], sep) == Split(s, sep) + [""]
  {
    var t := s + [sep];
    var head, rest := s[..i], s[i + 1..];
    assert t[..i] == head;
    assert t[i + 1..] == rest + [sep];
    SplitAt(t, sep, i);
    SplitAt(s, sep, i);
    var pieces := Split(rest, sep);
    assert [head] + (pieces + [""]) == [head] + pieces + [""];
  }

  /** `" ".repeat(n)` */
  function Spaces(n: nat): (r: string)
    ensures |r| == n && forall k :: 0 <= k < n ==> r[k] == ' '
  {
    if n == 0 then "" else Spaces(n - 1) + " "
  }

  /** Bytes taken by a character in UTF-8. */
  function Utf8Width(c: char): nat
  {
    if c as int < 0x80 then 1 else if c as int < 0x800 then 2 else if c as int < 0x1_0000 then 3 else 4
  }

  /** `s.len()`: the length of a string in bytes of UTF-8. */
  function Utf8Length(s: string): (n: nat)
    ensures |s| <= n <= 4 * |s|
  {
    if s == [] then 0 else Utf8Length(s[..|s| - 1]) + Utf8Width(s[|s| - 1])
  }

  /** For ASCII text the byte length is the number of characters. */
  lemma {:induction false} AsciiLength(s: string)
    requires forall k :: 0 <= k < |s| ==> s[k] as int < 0x80
    ensures Utf8Length(s) == |s|
  {
    if s != [] {
      AsciiLength(s[..|s| - 1]);
    }
  }

  /** `s` ends with `suffix`. */
  predicate EndsWith(s: string, suffix: string)
  {
    |suffix| <= |s| && s[|s| - |suffix|..] == suffix
  }

  const I32_MIN: int := -0x8000_0000
  const I32_MAX: int := 0x7FFF_FFFF

  predicate IsDigit(c: char)
  {
    '0' <= c <= '9'
  }

  predicate AllDigits(s: string)
  {
    forall k :: 0 <= k < |s| ==> IsDigit(s[k])
  }

  /** The decimal value of a string of digits, most significant first. */
  function DigitsValue(ds: string): nat
    requires AllDigits(ds)
  {
    if ds == [] then 0
    else DigitsValue(ds[..|ds| - 1]) * 10 + (ds[|ds| - 1] as int - '0' as int)
  }

  /**
   * `s.parse::<i32>()`: an optional `+` or `-`, then one or more decimal
   * digits and nothing else, whose value fits in 32 bits.
   */
  function ParseI32(s: string): (r: Option<int>)
    ensures r.Some? ==> I32_MIN <= r.value <= I32_MAX
    ensures r.Some? ==> |s| >= 1 && forall k :: 1 <= k < |s| ==> IsDigit(s[k])
    ensures r.Some? ==> (s[0] == '+' || s[0] == '-' || IsDigit(s[0])) && (IsDigit(s[0]) || |s| >= 2)
  {
    if |s| == 0 then None
    else
      var signed := s[0] == '-' || s[0] == '+';
      var digits := if signed then s[1..] else s;
      if |digits| == 0 || !AllDigits(digits) then None
      else
        var magnitude: int := DigitsValue(digits);
        var v: int := if s[0] == '-' then -magnitude else magnitude;
        if I32_MIN <= v <= I32_MAX then Some(v) else None
  }

  /**
   * Every signed digit string parses: to its value, negated after a `-`,
   * when that fits in 32 bits, and to nothing otherwise. Leading zeros and
   * a `+` are accepted.
   */
  lemma ParseSigned(sign: string, digits: string)
    requires sign == "" || sign == "+" || sign == "-"
    requires |digits| >= 1 && AllDigits(digits)
    ensures var v: int := if sign == "-" then 0 - (DigitsValue(digits) as int) else DigitsValue(digits);
            ParseI32(sign + digits) == if I32_MIN <= v <= I32_MAX then Some(v) else None
  {
    if sign == "" {
      assert sign + digits == digits;
      ParseUnsigned(digits);
    } else {
      ParseAfterSign(sign[0], digits);
      assert sign + digits == [sign[0]] + digits;
    }
  }

  lemma ParseUnsigned(digits: string)
    requires |digits| >= 1 && AllDigits(digits)
    ensures var v: int := DigitsValue(digits);
            ParseI32(digits) == if v <= I32_MAX then Some(v) else None
  {
    assert IsDigit(digits[0]);
  }

  lemma ParseAfterSign(sign: char, digits: string)
    requires sign == '+' || sign == '-'
    requires |digits| >= 1 && AllDigits(digits)
    ensures var v: int := if sign == '-' then 0 - (DigitsValue(digits) as int) else DigitsValue(digits);
            ParseI32([sign] + digits) == if I32_MIN <= v <= I32_MAX then Some(v) else None
  {
    assert ([sign] + digits)[1..] == digits;
  }

  /** Decimal rendering of a natural number, without leading zeros. */
  function ShowNat(n: nat): (s: string)
    ensures |s| >= 1 && AllDigits(s)
  {
    var d := ['0' + (n % 10) as char];
    if n < 10 then d else ShowNat(n / 10) + d
  }

  /** Decimal rendering of an integer, as Rust's `to_string`. */
  function ShowInt(n: int): string
  {
    if n < 0 then "-" + ShowNat(-n) else ShowNat(n)
  }

  lemma {:induction false} ShowNatValue(n: nat)
    ensures DigitsValue(ShowNat(n)) == n
  {
    var s := ShowNat(n);
    if n >= 10 {
      ShowNatValue(n / 10);
      assert s[..|s| - 1] == ShowNat(n / 10);
    }
  }

  /** Parsing gives back every 32-bit integer from its decimal rendering. */
  lemma ParseShow(n: int)
    requires I32_MIN <= n <= I32_MAX
    ensures ParseI32(ShowInt(n)) == Some(n)
  {
    if n < 0 {
      var digits := ShowNat(-n);
      ShowNatValue(-n);
      ParseAfterSign('-', digits);
      assert ShowInt(n) == ['-'] + digits;
    } else {
      var digits := ShowNat(n);
      ShowNatValue(n);
      ParseUnsigned(digits);
    }
  }
}
