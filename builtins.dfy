/**
 * The JavaScript built-ins the three core files rely on, written out so that
 * their edge cases are part of the model: `String.prototype.trim`,
 * `String.prototype.split` on one character, `String.prototype.indexOf` on
 * one character, `Array.prototype.slice`, `String(n)` of an integer and
 * decimal `parseInt`. `Join` is not called by the core: it is the inverse
 * against which `Split` is specified.
 */
module Builtins {
  import opened Wrappers

  /** Sequence concatenation is associative; called where the verifier needs the instance spelled out. */
  lemma Associative<T>(a: seq<T>, b: seq<T>, c: seq<T>)
    ensures (a + b) + c == a + (b + c)
  {
  }

  function Min(a: int, b: int): int { if a <= b then a else b }
  function Max(a: int, b: int): int { if a <= b then b else a }

  // ---------------------------------------------------------------------------
  // trim

  /** The WhiteSpace and LineTerminator code points that `trim` removes. */
  predicate IsSpace(c: char) {
    || c == '\t' || c == '\n' || c == '\U{000B}' || c == '\U{000C}' || c == '\r' || c == ' '
    || c == '\U{00A0}' || c == '\U{1680}' || ('\U{2000}' <= c <= '\U{200A}')
    || c == '\U{2028}' || c == '\U{2029}' || c == '\U{202F}' || c == '\U{205F}'
    || c == '\U{3000}' || c == '\U{FEFF}'
  }

  predicate AllSpace(s: string) {
    forall i :: 0 <= i < |s| ==> IsSpace(s[i])
  }

  /** `s` without its leading white space. */
  function TrimStart(s: string): (r: string)
    ensures |r| <= |s| && r == s[|s| - |r|..]
    ensures AllSpace(s[..|s| - |r|])
    ensures r == [] || !IsSpace(r[0])
  {
    if s != [] && IsSpace(s[0]) then
      var r := TrimStart(s[1..]);
      forall i | 0 <= i < |s| - |r| ensures IsSpace(s[i]) {
        if i > 0 { assert s[i] == s[1..][..|s[1..]| - |r|][i - 1]; }
      }
      assert s[1..][|s[1..]| - |r|..] == s[|s| - |r|..];
      r
    else s
  }

  /** `s` without its trailing white space. */
  function TrimEnd(s: string): (r: string)
    ensures |r| <= |s| && r == s[..|r|]
    ensures AllSpace(s[|r|..])
    ensures r == [] || !IsSpace(r[|r| - 1])
  {
    if s != [] && IsSpace(s[|s| - 1]) then
      var r := TrimEnd(s[..|s| - 1]);
      forall i | |r| <= i < |s| ensures IsSpace(s[i]) {
        if i < |s| - 1 { assert s[i] == s[..|s| - 1][|r|..][i - |r|]; }
      }
      assert s[..|s| - 1][..|r|] == s[..|r|];
      r
    else s
  }

  /** `s.trim()`. */
  function Trim(s: string): string {
    TrimEnd(TrimStart(s))
  }

  /** A string trims to the empty string exactly when it is all white space. */
  lemma TrimEmpty(s: string)
    ensures Trim(s) == [] <==> AllSpace(s)
  {
    var t := TrimStart(s);
    if Trim(s) == [] {
      assert t == [];
      forall i | 0 <= i < |s| ensures IsSpace(s[i]) {
        assert s[i] == s[..|s| - |t|][i];
      }
    }
  }

  /** Trailing text that holds a non-space character keeps everything before it. */
  lemma {:induction false} TrimEndKeepsPrefix(a: string, b: string)
    requires !AllSpace(b)
    ensures TrimEnd(a + b) == a + TrimEnd(b)
    decreases |b|
  {
    assert b != [];
    var ab := a + b;
    if IsSpace(b[|b| - 1]) {
      var b' := b[..|b| - 1];
      assert ab[..|ab| - 1] == a + b';
      assert !AllSpace(b') by {
        var i :| 0 <= i < |b| && !IsSpace(b[i]);
        assert i < |b| - 1 && b'[i] == b[i];
      }
      assert ab[|ab| - 1] == b[|b| - 1];
      calc {
        TrimEnd(ab);
        TrimEnd(ab[..|ab| - 1]);
        TrimEnd(a + b');
        { TrimEndKeepsPrefix(a, b'); }
        a + TrimEnd(b');
        a + TrimEnd(b);
      }
    } else {
      assert ab[|ab| - 1] == b[|b| - 1];
      assert TrimEnd(b) == b;
    }
  }

  // ---------------------------------------------------------------------------
  // split and join on one character

  /** `s.split(sep)` for a one-character separator: always at least one piece. */
  function Split(s: string, sep: char): (r: seq<string>)
    ensures |r| >= 1
    ensures forall i :: 0 <= i < |r| ==> sep !in r[i]
  {
    if s == [] then [[]]
    else
      var rest := Split(s[1..], sep);
      if s[0] == sep then [[]] + rest else [[s[0]] + rest[0]] + rest[1..]
  }

  /** `parts.join(sep)`, the inverse of `Split` (see JoinSplit and SplitJoin). */
  function Join(parts: seq<string>, sep: char): string {
    if |parts| == 0 then []
    else if |parts| == 1 then parts[0]
    else parts[0] + [sep] + Join(parts[1..], sep)
  }

  lemma {:induction false} SplitWithoutSeparator(s: string, sep: char)
    requires sep !in s
    ensures Split(s, sep) == [s]
  {
    if s != [] {
      SplitWithoutSeparator(s[1..], sep);
      assert [s[0]] + s[1..] == s;
    }
  }

  /** Splitting at a separator that follows a separator-free piece yields that piece first. */
  lemma {:induction false} SplitAfterPiece(a: string, sep: char, b: string)
    requires sep !in a
    ensures Split(a + [sep] + b, sep) == [a] + Split(b, sep)
    decreases |a|
  {
    var s := a + [sep] + b;
    if a == [] {
      assert s[0] == sep && s[1..] == b;
    } else {
      assert s[0] == a[0] && s[1..] == a[1..] + [sep] + b;
      SplitAfterPiece(a[1..], sep, b);
      assert [a[0]] + a[1..] == a;
    }
  }

  /** Joining the pieces of a split gives back the text. */
  lemma {:induction false} JoinSplit(s: string, sep: char)
    ensures Join(Split(s, sep), sep) == s
  {
    if s != [] {
      var rest := Split(s[1..], sep);
      JoinSplit(s[1..], sep);
      if s[0] == sep {
        assert Join([[]] + rest, sep) == [] + [sep] + Join(rest, sep) by {
          assert ([[]] + rest)[1..] == rest;
        }
      } else {
        var r := [[s[0]] + rest[0]] + rest[1..];
        if |rest| == 1 {
          assert Join(r, sep) == [s[0]] + rest[0];
        } else {
          assert r[1..] == rest[1..];
          assert Join(rest, sep) == rest[0] + [sep] + Join(rest[1..], sep);
        }
      }
    }
  }

  /** Splitting a join of separator-free pieces gives back the pieces. */
  lemma {:induction false} SplitJoin(parts: seq<string>, sep: char)
    requires |parts| >= 1
    requires forall i :: 0 <= i < |parts| ==> sep !in parts[i]
    ensures Split(Join(parts, sep), sep) == parts
  {
    if |parts| == 1 {
      SplitWithoutSeparator(parts[0], sep);
    } else {
      SplitJoin(parts[1..], sep);
      SplitAfterPiece(parts[0], sep, Join(parts[1..], sep));
    }
  }

  // ---------------------------------------------------------------------------
  // indexOf and slice

  /** `s.indexOf(c)`: the first position of `c` in `s`, or -1. */
  function IndexOf(s: string, c: char): (r: int)
    ensures -1 <= r < |s|
    ensures r == -1 <==> c !in s
    ensures r >= 0 ==> s[r] == c && c !in s[..r]
  {
    if s == [] then -1
    else if s[0] == c then 0
    else
      var k := IndexOf(s[1..], c);
      assert s[1..] == s[1..][..|s| - 1];
      if k < 0 then -1
      else
        assert s[..k + 1] == [s[0]] + s[1..][..k];
        k + 1
  }

  /** Where `Array.prototype.slice` puts a relative index: from the end when negative, clamped to `[0, len]`. */
  function SliceIndex(relative: int, len: nat): (k: nat)
    ensures k <= len
  {
    if relative < 0 then Max(len + relative, 0) else Min(relative, len)
  }

  /** `s.slice(start, end)`. */
  function Slice<T>(s: seq<T>, start: int, end: int): (r: seq<T>)
    ensures |r| == Max(SliceIndex(end, |s|) - SliceIndex(start, |s|), 0)
    ensures forall i :: 0 <= i < |r| ==> r[i] == s[SliceIndex(start, |s|) + i]
  {
    var lo, hi := SliceIndex(start, |s|), SliceIndex(end, |s|);
    if lo < hi then s[lo..hi] else []
  }

  // ---------------------------------------------------------------------------
  // decimal numerals: String(n) and parseInt

  predicate IsDigit(c: char) { '0' <= c <= '9' }

  predicate AllDigits(s: string) {
    forall i :: 0 <= i < |s| ==> IsDigit(s[i])
  }

  function DigitChar(d: nat): (c: char)
    requires d < 10
    ensures IsDigit(c)
  {
    ('0' as int + d) as char
  }

  /** The decimal numeral of `n`, most significant digit first, with no leading zeros. */
  function NatToDecimal(n: nat): (r: string)
    ensures |r| >= 1 && AllDigits(r)
    ensures |r| > 1 ==> r[0] != '0'
  {
    if n < 10 then [DigitChar(n)] else NatToDecimal(n / 10) + [DigitChar(n % 10)]
  }

  /** `String(n)` (or `${n}`) for an integral number. */
  function IntToDecimal(n: int): string {
    if n < 0 then "-" + NatToDecimal(-n) else NatToDecimal(n)
  }

  /** The value of a string of decimal digits. */
  function DecimalValue(s: string): nat
    requires AllDigits(s)
  {
    if s == [] then 0 else DecimalValue(s[..|s| - 1]) * 10 + (s[|s| - 1] as int - '0' as int)
  }

  /** The longest prefix of `s` made of decimal digits. */
  function DigitPrefix(s: string): (r: string)
    ensures AllDigits(r) && r <= s
    ensures |r| < |s| ==> !IsDigit(s[|r|])
  {
    if s != [] && IsDigit(s[0]) then [s[0]] + DigitPrefix(s[1..]) else []
  }

  /**
   * `parseInt(s)` in base 10: leading white space is skipped, one sign is
   * accepted, then the longest run of digits is read; None stands for NaN.
   */
  function ParseInt(s: string): Option<int> {
    var t := TrimStart(s);
    if t != [] && t[0] == '-' then
      match ParseDigits(t[1..])
      case Some(v) => Some(-v)
      case None => None
    else if t != [] && t[0] == '+' then ParseDigits(t[1..])
    else ParseDigits(t)
  }

  /** The value of the leading digits of `t`, or None when `t` does not start with a digit. */
  function ParseDigits(t: string): Option<int> {
    var digits := DigitPrefix(t);
    if digits == [] then None else Some(DecimalValue(digits))
  }

  lemma {:induction false} DecimalValueOfNumeral(n: nat)
    ensures DecimalValue(NatToDecimal(n)) == n
  {
    if n >= 10 {
      DecimalValueOfNumeral(n / 10);
      var s := NatToDecimal(n);
      assert s[..|s| - 1] == NatToDecimal(n / 10);
    }
  }

  lemma {:induction false} DigitPrefixOfDigits(s: string)
    requires AllDigits(s)
    ensures DigitPrefix(s) == s
  {
    if s != [] {
      DigitPrefixOfDigits(s[1..]);
    }
  }

  /** `parseInt` of a string that starts with a digit reads its leading digits. */
  lemma ParseIntUnsigned(t: string)
    requires t != [] && IsDigit(t[0])
    ensures ParseInt(t) == ParseDigits(t)
  {
    assert !IsSpace(t[0]);
    assert TrimStart(t) == t;
  }

  /** `parseInt` of a minus sign followed by a digit negates what the digits read. */
  lemma ParseIntNegative(t: string)
    requires t != [] && IsDigit(t[0])
    ensures ParseInt("-" + t) == match ParseDigits(t) case Some(v) => Some(-v) case None => None
  {
    var s := "-" + t;
    assert !IsSpace(s[0]);
    assert TrimStart(s) == s;
    assert s[1..] == t;
  }

  lemma {:induction false} ParseDigitsOfDigits(digits: string)
    requires |digits| >= 1 && AllDigits(digits)
    ensures ParseDigits(digits) == Some(DecimalValue(digits))
  {
    DigitPrefixOfDigits(digits);
  }

  /** `parseInt(String(n))` is `n` for every integer `n`. */
  lemma ParseIntOfDecimal(n: int)
    ensures ParseInt(IntToDecimal(n)) == Some(n)
  {
    var m := if n < 0 then -n else n;
    DecimalValueOfNumeral(m);
    ParseDigitsOfDigits(NatToDecimal(m));
    if n < 0 {
      ParseIntNegative(NatToDecimal(m));
    } else {
      ParseIntUnsigned(NatToDecimal(m));
    }
  }
}
