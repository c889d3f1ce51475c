/** The two ECMAScript string operations the date parameter goes through:
    `String.prototype.split` with a one-character separator, and the global
    `parseInt` called without a radix (ECMA-262, section 19.2.5). */
module JsText {
  import opened Options

  // ---------------------------------------------------------------------------
  // split

  /** Position of the first `c` in `s`. */
  function IndexOf(s: string, c: char): (k: nat)
    requires c in s
    ensures k < |s| && s[k] == c && c !in s[..k]
  {
    if s[0] == c then 0 else 1 + IndexOf(s[1..], c)
  }

  /** `s.split(sep)`: the pieces between occurrences of `sep`; a string without `sep` is one piece. */
  function Split(s: string, sep: char): (parts: seq<string>)
    ensures |parts| >= 1
    ensures forall i :: 0 <= i < |parts| ==> sep !in parts[i]
    decreases |s|
  {
    if sep !in s then [s]
    else
      var k := IndexOf(s, sep);
      [s[..k]] + Split(s[k + 1..], sep)
  }

  /** `parts.join(sep)`. */
  function Join(parts: seq<string>, sep: char): string
    requires |parts| >= 1
  {
    if |parts| == 1 then parts[0] else parts[0] + [sep] + Join(parts[1..], sep)
  }

  /** Joining the pieces with the separator gives back the original string. */
  lemma {:induction false} JoinSplit(s: string, sep: char)
    ensures Join(Split(s, sep), sep) == s
    decreases |s|
  {
    if sep in s {
      var k := IndexOf(s, sep);
      var rest := Split(s[k + 1..], sep);
      calc {
        Join(Split(s, sep), sep);
        Join([s[..k]] + rest, sep);
        { JoinCons(s[..k], rest, sep); }
        s[..k] + [sep] + Join(rest, sep);
        { JoinSplit(s[k + 1..], sep); }
        s[..k] + [sep] + s[k + 1..];
        s;
      }
    }
  }

  lemma JoinCons(a: string, parts: seq<string>, sep: char)
    requires |parts| >= 1
    ensures Join([a] + parts, sep) == a + [sep] + Join(parts, sep)
  {
    assert ([a] + parts)[1..] == parts;
  }

  /** The first piece of `a + sep + b` is `a` when `a` has no separator. */
  lemma SplitCons(a: string, sep: char, b: string)
    requires sep !in a
    ensures Split(a + [sep] + b, sep) == [a] + Split(b, sep)
  {
    var s := a + [sep] + b;
    assert s[|a|] == sep;
    var k := IndexOf(s, sep);
    assert k == |a|;
    assert s[..k] == a;
    assert s[k + 1..] == b;
  }

  /** Splitting joined separator-free pieces gives back the pieces. */
  lemma {:induction false} SplitJoin(parts: seq<string>, sep: char)
    requires |parts| >= 1
    requires forall i :: 0 <= i < |parts| ==> sep !in parts[i]
    ensures Split(Join(parts, sep), sep) == parts
  {
    if |parts| > 1 {
      var tail := parts[1..];
      assert forall i :: 0 <= i < |tail| ==> tail[i] == parts[i + 1];
      calc {
        Split(Join(parts, sep), sep);
        Split(parts[0] + [sep] + Join(tail, sep), sep);
        { SplitCons(parts[0], sep, Join(tail, sep)); }
        [parts[0]] + Split(Join(tail, sep), sep);
        { SplitJoin(tail, sep); }
        [parts[0]] + tail;
        parts;
      }
    }
  }

  // ---------------------------------------------------------------------------
  // parseInt

  /** StrWhiteSpaceChar: the white space and line terminators `parseInt` skips at the start. */
  predicate IsWhiteSpace(c: char) {
    var u := c as int;
    || 0x09 <= u <= 0x0D || u == 0x20 || u == 0xA0 || u == 0x1680
    || 0x2000 <= u <= 0x200A || u == 0x2028 || u == 0x2029 || u == 0x202F
    || u == 0x205F || u == 0x3000 || u == 0xFEFF
  }

  function TrimStart(s: string): (r: string)
    ensures |r| <= |s| && r == s[|s| - |r|..]
    ensures |r| > 0 ==> !IsWhiteSpace(r[0])
  {
    if |s| > 0 && IsWhiteSpace(s[0]) then TrimStart(s[1..]) else s
  }

  /** Value of a digit in any radix up to 36; 36 for a character that is no digit. */
  function DigitValue(c: char): nat {
    if '0' <= c <= '9' then c as nat - '0' as nat
    else if 'a' <= c <= 'z' then c as nat - 'a' as nat + 10
    else if 'A' <= c <= 'Z' then c as nat - 'A' as nat + 10
    else 36
  }

  predicate IsDecimalDigit(c: char) {
    '0' <= c <= '9'
  }

  /** Length of the longest prefix of `s` made of digits of the given radix. */
  function DigitPrefixLength(s: string, radix: nat): (n: nat)
    ensures n <= |s|
    ensures forall i :: 0 <= i < n ==> DigitValue(s[i]) < radix
    ensures n < |s| ==> DigitValue(s[n]) >= radix
  {
    if |s| == 0 || DigitValue(s[0]) >= radix then 0
    else 1 + DigitPrefixLength(s[1..], radix)
  }

  /** The number that the digit string `ds` denotes in `radix`, most significant digit first. */
  function DigitsValue(ds: string, radix: nat): nat {
    if |ds| == 0 then 0
    else DigitsValue(ds[..|ds| - 1], radix) * radix + DigitValue(ds[|ds| - 1])
  }

  /** `parseInt(s)` with no radix; `None` is NaN. Leading white space and one sign are
      skipped, a `0x`/`0X` prefix selects radix 16, and the number is read from the
      longest run of digits that follows; anything after that run is ignored. */
  function ParseInt(s: string): (r: Option<int>)
    ensures r.Some? ==> |TrimStart(s)| > 0
    ensures r.Some? ==> IsDecimalDigit(TrimStart(s)[0]) || TrimStart(s)[0] == '-' || TrimStart(s)[0] == '+'
    ensures r.Some? && r.value < 0 ==> TrimStart(s)[0] == '-'
  {
    ParseSigned(TrimStart(s))
  }

  function ParseSigned(t: string): Option<int> {
    var signed := |t| > 0 && (t[0] == '-' || t[0] == '+');
    var m := ParseMagnitude(if signed then t[1..] else t);
    if m.None? then None
    else if signed && t[0] == '-' then Some(-(m.value as int))
    else Some(m.value)
  }

  function ParseMagnitude(u: string): Option<nat> {
    var hex := |u| >= 2 && u[0] == '0' && (u[1] == 'x' || u[1] == 'X');
    var radix := if hex then 16 else 10;
    var body := if hex then u[2..] else u;
    var n := DigitPrefixLength(body, radix);
    if n == 0 then None else Some(DigitsValue(body[..n], radix))
  }

  /** The decimal numeral of `n`, without sign or leading zeros. */
  function ToDecimal(n: nat): (r: string)
    ensures |r| >= 1
    ensures forall i :: 0 <= i < |r| ==> IsDecimalDigit(r[i])
    ensures DigitsValue(r, 10) == n
  {
    var last := ['0' + (n % 10) as char];
    if n < 10 then last
    else
      var r := ToDecimal(n / 10) + last;
      assert r[..|r| - 1] == ToDecimal(n / 10);
      r
  }

  /** A non-empty run of decimal digits followed by something that is neither a digit
      nor a hexadecimal marker reads as the run alone: `parseInt("17T00:00:00Z")` is 17. */
  lemma ParseIntReadsDecimalPrefix(ds: string, rest: string)
    requires |ds| >= 1 && forall i :: 0 <= i < |ds| ==> IsDecimalDigit(ds[i])
    requires |rest| == 0 || (!IsDecimalDigit(rest[0]) && rest[0] != 'x' && rest[0] != 'X')
    ensures ParseInt(ds + rest) == Some(DigitsValue(ds, 10))
  {
    var s := ds + rest;
    assert s[0] == ds[0];
    ParseIntUnsigned(s);
    ParseMagnitudeOfDigits(ds, rest);
  }

  /** A string that starts with a decimal digit has neither leading white space nor a sign. */
  lemma ParseIntUnsigned(s: string)
    requires |s| > 0 && IsDecimalDigit(s[0])
    ensures ParseInt(s) == ParseMagnitude(s)
  {
    TrimStartOfDigit(s);
  }

  lemma TrimStartOfDigit(s: string)
    ensures |s| > 0 && IsDecimalDigit(s[0]) ==> TrimStart(s) == s
  {
  }

  lemma ParseMagnitudeOfDigits(ds: string, rest: string)
    requires |ds| >= 1 && forall i :: 0 <= i < |ds| ==> IsDecimalDigit(ds[i])
    requires |rest| == 0 || (!IsDecimalDigit(rest[0]) && rest[0] != 'x' && rest[0] != 'X')
    ensures ParseMagnitude(ds + rest) == Some(DigitsValue(ds, 10))
  {
    var s := ds + rest;
    assert !(|s| >= 2 && s[0] == '0' && (s[1] == 'x' || s[1] == 'X')) by {
      assert s[0] == ds[0];
      if |ds| >= 2 {
        assert s[1] == ds[1];
      } else if |s| >= 2 {
        assert s[1] == rest[0];
      }
    }
    DigitPrefixOfDigits(ds, rest);
    assert s[..|ds|] == ds;
  }

  lemma {:induction false} DigitPrefixOfDigits(ds: string, rest: string)
    requires forall i :: 0 <= i < |ds| ==> IsDecimalDigit(ds[i])
    requires |rest| == 0 || !IsDecimalDigit(rest[0])
    ensures DigitPrefixLength(ds + rest, 10) == |ds|
  {
    if |ds| > 0 {
      var tail := ds[1..];
      assert ds + rest == [ds[0]] + (tail + rest);
      DigitPrefixCons(ds[0], tail + rest, 10);
      DigitPrefixOfDigits(tail, rest);
    } else {
      assert ds + rest == rest;
    }
  }

  lemma DigitPrefixCons(c: char, t: string, radix: nat)
    ensures DigitValue(c) < radix ==> DigitPrefixLength([c] + t, radix) == 1 + DigitPrefixLength(t, radix)
  {
    assert ([c] + t)[1..] == t;
  }

  /** `parseInt` reads back every decimal numeral: the round trip of `ToDecimal`. */
  lemma ParseIntToDecimal(n: nat)
    ensures ParseInt(ToDecimal(n)) == Some(n)
  {
    ParseIntReadsDecimalPrefix(ToDecimal(n), "");
    assert ToDecimal(n) + "" == ToDecimal(n);
  }
}
