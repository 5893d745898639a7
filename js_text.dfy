/** The JavaScript string built-ins the core relies on: integer-to-string
    conversion (template literals and Number.prototype.toString), padStart,
    String.prototype.trim and String.prototype.split with a one-character
    separator. Each comes with the reading that inverts it. */
module JsText {
  import opened Wrappers

  function DigitChar(d: int): (c: char)
    requires 0 <= d < 10
    ensures '0' <= c <= '9' && c as int - '0' as int == d
  {
    (d + '0' as int) as char
  }

  predicate IsDigit(c: char) { '0' <= c <= '9' }

  predicate IsDigits(s: string) {
    forall i :: 0 <= i < |s| ==> IsDigit(s[i])
  }

  /** The value of a string of decimal digits; leading zeroes are allowed. */
  function DigitsValue(s: string): (n: nat)
    requires IsDigits(s)
  {
    if s == [] then 0
    else DigitsValue(s[..|s| - 1]) * 10 + (s[|s| - 1] as int - '0' as int)
  }

  /** Number.prototype.toString() of a non-negative integer: decimal, no leading zero. */
  function NatToString(n: nat): (s: string)
    ensures |s| >= 1 && IsDigits(s)
    ensures n >= 10 ==> s[0] != '0'
    decreases n
  {
    if n < 10 then [DigitChar(n)] else NatToString(n / 10) + [DigitChar(n % 10)]
  }

  /** Number.prototype.toString() of any integer. */
  function IntToString(n: int): string {
    if n < 0 then "-" + NatToString(-n) else NatToString(n)
  }

  /** Reading the decimal string back gives the number: toString loses nothing. */
  lemma {:induction false} NatToStringValue(n: nat)
    ensures DigitsValue(NatToString(n)) == n
    decreases n
  {
    var s := NatToString(n);
    if n >= 10 {
      NatToStringValue(n / 10);
      assert s[..|s| - 1] == NatToString(n / 10);
    }
  }

  /** The decimal string has as many digits as the number needs: at most two below 100. */
  lemma NatToStringShort(n: nat)
    requires n < 100
    ensures |NatToString(n)| == if n < 10 then 1 else 2
  {
  }

  /** A run of `n` zero digits. */
  function Zeros(n: nat): (z: string)
    ensures |z| == n && forall i :: 0 <= i < n ==> z[i] == '0'
  {
    if n == 0 then "" else "0" + Zeros(n - 1)
  }

  /** String.prototype.padStart(len, "0"). */
  function PadStartZero(s: string, len: nat): string {
    if |s| >= len then s else Zeros(len - |s|) + s
  }

  /** padStart leaves a long enough string alone and otherwise puts zeroes in
      front of it up to the length asked for. */
  lemma PadStartZeroLayout(s: string, len: nat)
    ensures var r := PadStartZero(s, len);
            && |r| == (if |s| >= len then |s| else len)
            && r[|r| - |s|..] == s
            && forall i :: 0 <= i < |r| - |s| ==> r[i] == '0'
  {
  }

  /** A number below 100 as exactly two decimal digits. */
  function DigitPair(n: nat): (r: string)
    requires n < 100
    ensures |r| == 2 && IsDigits(r)
  {
    [DigitChar(n / 10), DigitChar(n % 10)]
  }

  /** The two digits read back as the number. */
  lemma DigitPairValue(n: nat)
    requires n < 100
    ensures DigitsValue(DigitPair(n)) == n
  {
    var d := DigitPair(n);
    assert d[..1] == [DigitChar(n / 10)];
    assert d[..1][..0] == [];
    assert DigitsValue(d[..1]) == n / 10;
    assert DigitsValue(d) == (n / 10) * 10 + n % 10;
  }

  /** toString().padStart(2, "0") of a number below 100 is its digit pair. */
  lemma {:induction false} TwoDigits(n: nat)
    requires n < 100
    ensures PadStartZero(NatToString(n), 2) == DigitPair(n)
  {
    NatToStringShort(n);
    var s := NatToString(n);
    if n < 10 {
      assert s == [DigitChar(n)];
      assert Zeros(1) == "0";
      assert PadStartZero(s, 2) == "0" + s;
    } else {
      assert s == NatToString(n / 10) + [DigitChar(n % 10)];
      assert NatToString(n / 10) == [DigitChar(n / 10)];
    }
  }

  /** The number of occurrences of `c` in `s`. */
  function Count(s: string, c: char): nat {
    if s == [] then 0 else (if s[0] == c then 1 else 0) + Count(s[1..], c)
  }

  /** Array.prototype.join(sep) on a non-empty list. */
  function Join(parts: seq<string>, sep: char): string
    requires |parts| >= 1
  {
    if |parts| == 1 then parts[0] else parts[0] + [sep] + Join(parts[1..], sep)
  }

  /** String.prototype.split(sep) with a one-character separator. */
  function Split(s: string, sep: char): (parts: seq<string>)
    ensures |parts| == Count(s, sep) + 1
    ensures forall i :: 0 <= i < |parts| ==> sep !in parts[i]
  {
    if s == [] then [""]
    else
      var rest := Split(s[1..], sep);
      if s[0] == sep then [""] + rest
      else [[s[0]] + rest[0]] + rest[1..]
  }

  /** Joining the parts with the separator gives the string back. */
  lemma {:induction false} SplitJoin(s: string, sep: char)
    ensures Join(Split(s, sep), sep) == s
  {
    if s != [] {
      var rest := Split(s[1..], sep);
      SplitJoin(s[1..], sep);
      if s[0] == sep {
        assert Split(s, sep) == [""] + rest;
        assert ([""] + rest)[1..] == rest;
        assert s == [sep] + s[1..];
      } else {
        var parts := Split(s, sep);
        assert parts == [[s[0]] + rest[0]] + rest[1..];
        if |rest| == 1 {
          assert s == [s[0]] + rest[0];
        } else {
          assert parts[1..] == rest[1..];
          assert Join(rest, sep) == rest[0] + [sep] + Join(rest[1..], sep);
          assert s == [s[0]] + rest[0] + [sep] + Join(rest[1..], sep);
        }
      }
    }
  }

  /** A string without the separator splits into itself alone. */
  lemma {:induction false} SplitNoSeparator(s: string, sep: char)
    requires sep !in s
    ensures Split(s, sep) == [s]
  {
    if s != [] {
      SplitNoSeparator(s[1..], sep);
      assert s == [s[0]] + s[1..];
    }
  }

  /** Splitting at the first separator. */
  lemma {:induction false} SplitFirst(a: string, sep: char, b: string)
    requires sep !in a
    ensures Split(a + [sep] + b, sep) == [a] + Split(b, sep)
    decreases |a|
  {
    if a == [] {
      assert (a + [sep] + b)[1..] == b;
    } else {
      assert (a + [sep] + b)[1..] == a[1..] + [sep] + b;
      SplitFirst(a[1..], sep, b);
      assert [a[0]] + a[1..] == a;
    }
  }

  /** The characters String.prototype.trim removes: WhiteSpace and LineTerminator
      of ECMAScript (section 12.2 and 12.3 of ECMA-262), the Zs category included. */
  predicate IsJsWhitespace(c: char) {
    c == '\t' || c == '\n' || c == '\U{000B}' || c == '\U{000C}' || c == '\r' || c == ' '
    || c == '\U{00A0}' || c == '\U{1680}' || ('\U{2000}' <= c <= '\U{200A}')
    || c == '\U{2028}' || c == '\U{2029}' || c == '\U{202F}' || c == '\U{205F}'
    || c == '\U{3000}' || c == '\U{FEFF}'
  }

  predicate AllWhitespace(s: string) {
    forall i :: 0 <= i < |s| ==> IsJsWhitespace(s[i])
  }

  /** String.prototype.trimStart. */
  function TrimStart(s: string): string {
    if s != [] && IsJsWhitespace(s[0]) then TrimStart(s[1..]) else s
  }

  /** String.prototype.trimEnd. */
  function TrimEnd(s: string): string {
    if s != [] && IsJsWhitespace(s[|s| - 1]) then TrimEnd(s[..|s| - 1]) else s
  }

  /** String.prototype.trim. */
  function Trim(s: string): string {
    TrimEnd(TrimStart(s))
  }

  /** trimStart cuts off the whitespace at the front and nothing more. */
  lemma {:induction false} TrimStartShape(s: string)
    ensures var r := TrimStart(s);
            && |r| <= |s| && r == s[|s| - |r|..]
            && AllWhitespace(s[..|s| - |r|])
            && (r == [] || !IsJsWhitespace(r[0]))
  {
    if s != [] && IsJsWhitespace(s[0]) {
      TrimStartShape(s[1..]);
      var r := TrimStart(s[1..]);
      assert s[1..][|s| - 1 - |r|..] == s[|s| - |r|..];
      assert forall i :: 1 <= i < |s| - |r| ==> s[i] == s[1..][..|s| - 1 - |r|][i - 1];
    }
  }

  /** trimEnd cuts off the whitespace at the back and nothing more. */
  lemma {:induction false} TrimEndShape(s: string)
    ensures var r := TrimEnd(s);
            && |r| <= |s| && r == s[..|r|]
            && AllWhitespace(s[|r|..])
            && (r == [] || !IsJsWhitespace(r[|r| - 1]))
  {
    if s != [] && IsJsWhitespace(s[|s| - 1]) {
      TrimEndShape(s[..|s| - 1]);
      var r := TrimEnd(s[..|s| - 1]);
      assert s[..|s| - 1][..|r|] == s[..|r|];
      assert forall i :: |r| <= i < |s| - 1 ==> s[i] == s[..|s| - 1][|r|..][i - |r|];
    }
  }

  /** trim leaves a string that neither starts nor ends with whitespace ... */
  lemma TrimEnds(s: string)
    ensures var r := Trim(s);
            r == [] || (!IsJsWhitespace(r[0]) && !IsJsWhitespace(r[|r| - 1]))
  {
    var t := TrimStart(s);
    TrimStartShape(s);
    TrimEndShape(t);
    var r := TrimEnd(t);
    if r != [] {
      assert r[0] == t[0];
    }
  }

  /** ... and is the piece of the original string between the whitespace at its
      two ends. */
  lemma TrimIsPiece(s: string)
    ensures |Trim(s)| <= |TrimStart(s)| <= |s|
    ensures var r, i := Trim(s), |s| - |TrimStart(s)|;
            && i + |r| <= |s| && r == s[i..i + |r|]
            && AllWhitespace(s[..i]) && AllWhitespace(s[i + |r|..])
  {
    var t := TrimStart(s);
    TrimStartShape(s);
    TrimEndShape(t);
    var r := TrimEnd(t);
    var i := |s| - |t|;
    assert s[i..i + |r|] == t[..|r|];
    assert s[i + |r|..] == t[|r|..];
  }

  /** Trimming a string with no whitespace at its ends changes nothing. */
  lemma TrimUnchanged(s: string)
    requires s == [] || (!IsJsWhitespace(s[0]) && !IsJsWhitespace(s[|s| - 1]))
    ensures Trim(s) == s
  {
  }

  /** `sub` occurs in `s` starting at index `i`. */
  predicate OccursAt(sub: string, s: string, i: nat) {
    i + |sub| <= |s| && s[i..i + |sub|] == sub
  }

  /** `sub` occurs in `s` as a contiguous piece. */
  ghost predicate IsInfix(sub: string, s: string) {
    exists i: nat :: OccursAt(sub, s, i)
  }

  /** A piece in the middle of what follows a prefix. */
  lemma InfixInside(h: string, a: string, b: string, c: string)
    ensures IsInfix(b, h + (a + b + c))
  {
    assert h + (a + b + c) == h + a + b + c;
    InfixOfConcat(h + a, b, c);
  }

  lemma InfixOfConcat(a: string, sub: string, b: string)
    ensures IsInfix(sub, a + sub + b)
  {
    assert OccursAt(sub, a + sub + b, |a|);
  }

  /** A piece stays a piece when more is appended. */
  lemma InfixExtend(sub: string, s: string, t: string)
    requires IsInfix(sub, s)
    ensures IsInfix(sub, s + t)
  {
    var i: nat :| OccursAt(sub, s, i);
    assert (s + t)[i..i + |sub|] == s[i..i + |sub|];
    assert OccursAt(sub, s + t, i);
  }

  /** A piece stays a piece when something is put in front. */
  lemma InfixPrepend(sub: string, t: string, s: string)
    requires IsInfix(sub, s)
    ensures IsInfix(sub, t + s)
  {
    var i: nat :| OccursAt(sub, s, i);
    assert (t + s)[|t| + i..|t| + i + |sub|] == s[i..i + |sub|];
    assert OccursAt(sub, t + s, |t| + i);
  }

  /** A prefix stays a prefix when the same thing is put in front of both. */
  lemma PrefixPrepend(t: string, p: string, s: string)
    requires p <= s
    ensures t + p <= t + s
  {
  }

  /** A prefix stays a prefix when more is appended. */
  lemma PrefixExtend(p: string, s: string, t: string)
    requires p <= s
    ensures p <= s + t
  {
  }

  /** The last three parts of a left-nested concatenation. */
  lemma InfixOfLastThree(p: string, a: string, b: string, c: string)
    ensures IsInfix(a + b + c, p + a + b + c)
  {
    assert p + a + b + c == p + (a + b + c) + "";
    InfixOfConcat(p, a + b + c, "");
  }

  /** The last two parts of a left-nested concatenation. */
  lemma InfixOfLastTwo(p: string, a: string, b: string)
    ensures IsInfix(a + b, p + a + b)
  {
    assert p + a + b == p + (a + b) + "";
    InfixOfConcat(p, a + b, "");
  }

  /** The last five parts of a left-nested concatenation. */
  lemma InfixOfLastFive(p: string, a: string, b: string, c: string, d: string, e: string)
    ensures IsInfix(a + b + c + d + e, p + a + b + c + d + e)
  {
    assert p + a + b + c + d + e == p + (a + b + c + d + e) + "";
    InfixOfConcat(p, a + b + c + d + e, "");
  }
}
