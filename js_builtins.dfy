/** The JavaScript built-ins that the utility and feature code calls, written
    over Dafny's unbounded integers and Unicode strings: the white-space class,
    hexadecimal digits, `parseInt(s, 16)`, the 32-bit conversion the bitwise
    operators apply, `Number.prototype.toString(16)` and a few string methods. */
module JsBuiltins {
  import opened Wrappers

  /** White space as ECMAScript defines it (WhiteSpace or LineTerminator):
      both the `\s` of a regular expression and what `parseInt` skips. */
  predicate IsSpace(c: char) {
    var n := c as int;
    || 9 <= n <= 13          // TAB, LF, VT, FF, CR
    || n == 0x20 || n == 0xA0 || n == 0x1680
    || 0x2000 <= n <= 0x200A
    || n == 0x2028 || n == 0x2029
    || n == 0x202F || n == 0x205F || n == 0x3000 || n == 0xFEFF
  }

  predicate IsHexDigit(c: char) {
    '0' <= c <= '9' || 'a' <= c <= 'f' || 'A' <= c <= 'F'
  }

  predicate IsLowerHexDigit(c: char) {
    '0' <= c <= '9' || 'a' <= c <= 'f'
  }

  predicate AllHex(s: string) {
    forall k | 0 <= k < |s| :: IsHexDigit(s[k])
  }

  predicate AllLowerHex(s: string) {
    forall k | 0 <= k < |s| :: IsLowerHexDigit(s[k])
  }

  function DigitValue(c: char): (d: nat)
    requires IsHexDigit(c)
    ensures d < 16
  {
    if '0' <= c <= '9' then c as int - '0' as int
    else if 'a' <= c <= 'f' then c as int - 'a' as int + 10
    else c as int - 'A' as int + 10
  }

  /** The digit that `toString(16)` writes for `d`. */
  function HexChar(d: nat): (c: char)
    requires d < 16
    ensures IsLowerHexDigit(c) && IsHexDigit(c) && DigitValue(c) == d
  {
    if d < 10 then ('0' as int + d) as char else ('a' as int + d - 10) as char
  }

  /** `toLowerCase` restricted to ASCII letters, which is all a hex string holds. */
  function ToLower(c: char): char {
    if 'A' <= c <= 'Z' then (c as int + 32) as char else c
  }

  function ToLowerString(s: string): (r: string)
    ensures |r| == |s| && forall k | 0 <= k < |s| :: r[k] == ToLower(s[k])
  {
    seq(|s|, k requires 0 <= k < |s| => ToLower(s[k]))
  }

  /** Writing a hex digit's value back gives the digit in lower case. */
  lemma {:induction false} HexCharOfDigit(c: char)
    requires IsHexDigit(c)
    ensures HexChar(DigitValue(c)) == ToLower(c)
  {
  }

  function Pow16(k: nat): (p: nat)
    ensures p >= 1
  {
    if k == 0 then 1 else 16 * Pow16(k - 1)
  }

  /** The number a string of hex digits denotes, most significant first. */
  function HexValue(s: string): (v: nat)
    requires AllHex(s)
  {
    if s == [] then 0 else HexValue(s[..|s| - 1]) * 16 + DigitValue(s[|s| - 1])
  }

  lemma {:induction false} HexValueBound(s: string)
    requires AllHex(s)
    ensures HexValue(s) < Pow16(|s|)
  {
    if s != [] {
      HexValueBound(s[..|s| - 1]);
    }
  }

  /** Positional notation: the digits of `a` are worth `16^|b|` each in `a + b`. */
  lemma {:induction false} HexValueConcat(a: string, b: string)
    requires AllHex(a) && AllHex(b)
    ensures AllHex(a + b)
    ensures HexValue(a + b) == HexValue(a) * Pow16(|b|) + HexValue(b)
  {
    var ab := a + b;
    assert AllHex(ab) by {
      forall k | 0 <= k < |ab| ensures IsHexDigit(ab[k]) {
        if k < |a| { assert ab[k] == a[k]; } else { assert ab[k] == b[k - |a|]; }
      }
    }
    if b == [] {
      assert ab == a;
    } else {
      var b' := b[..|b| - 1];
      var d := DigitValue(b[|b| - 1]);
      assert ab[..|ab| - 1] == a + b';
      assert ab[|ab| - 1] == b[|b| - 1];
      HexValueConcat(a, b');
      assert HexValue(ab) == HexValue(a + b') * 16 + d;
      assert HexValue(b) == HexValue(b') * 16 + d;
      assert Pow16(|b|) == Pow16(|b'|) * 16;
      ShiftDigit(HexValue(a), Pow16(|b'|), HexValue(b'), d);
    }
  }

  lemma {:induction false} ShiftDigit(x: int, p: int, y: int, d: int)
    ensures (x * p + y) * 16 + d == x * (p * 16) + (y * 16 + d)
  {
  }

  /** Length of the longest prefix of `s` made of hex digits. */
  function HexRun(s: string): (n: nat)
    ensures n <= |s| && AllHex(s[..n])
    ensures n < |s| ==> !IsHexDigit(s[n])
  {
    if s != [] && IsHexDigit(s[0]) then
      var m := HexRun(s[1..]);
      assert s[..m + 1] == [s[0]] + s[1..][..m];
      m + 1
    else 0
  }

  /** The suffix left after dropping leading white space. */
  function TrimStart(s: string): (r: string)
    ensures |r| <= |s| && r == s[|s| - |r|..]
    ensures r != [] ==> !IsSpace(r[0])
    ensures forall k | 0 <= k < |s| - |r| :: IsSpace(s[k])
  {
    if s != [] && IsSpace(s[0]) then TrimStart(s[1..]) else s
  }

  /** `parseInt(s, 16)`: skip leading white space, read an optional sign and
      an optional `0x`/`0X` prefix, then the longest run of hex digits. `None`
      is NaN (no digit at all). */
  function ParseIntHex(s: string): (r: Option<int>)
    ensures r.None? <==> HexRun(Unprefixed(Unsigned(TrimStart(s)))) == 0
  {
    ParseTrimmed(TrimStart(s))
  }

  /** `parseInt` once leading white space is gone: sign, prefix, digits. */
  function ParseTrimmed(t: string): (r: Option<int>)
    ensures r.None? <==> HexRun(Unprefixed(Unsigned(t))) == 0
  {
    var digits := Unprefixed(Unsigned(t));
    var run := digits[..HexRun(digits)];
    if run == [] then None
    else
      var v: int := HexValue(run);
      Some(if t != [] && t[0] == '-' then -v else v)
  }


  /** Drops one leading `+` or `-`. */
  function Unsigned(t: string): string {
    if t != [] && (t[0] == '-' || t[0] == '+') then t[1..] else t
  }

  /** Drops a leading `0x` or `0X`. */
  function Unprefixed(u: string): string {
    if |u| >= 2 && u[0] == '0' && (u[1] == 'x' || u[1] == 'X') then u[2..] else u
  }

  /** A string made only of hex digits parses to the number it denotes. */
  lemma {:induction false} ParseIntHexOfDigits(h: string)
    requires h != [] && AllHex(h)
    ensures ParseIntHex(h) == Some(HexValue(h))
  {
    assert !IsSpace(h[0]);
    assert TrimStart(h) == h;
    assert Unprefixed(Unsigned(h)) == h;
    assert HexRun(h) == |h|;
    assert h[..|h|] == h;
  }

  /** Leading white space is all `TrimStart` drops. */
  lemma {:induction false} TrimStartSpaces(w: string, t: string)
    requires forall k | 0 <= k < |w| :: IsSpace(w[k])
    requires t == [] || !IsSpace(t[0])
    ensures TrimStart(w + t) == t
  {
    if w != [] {
      assert (w + t)[0] == w[0];
      assert (w + t)[1..] == w[1..] + t;
      TrimStartSpaces(w[1..], t);
    }
  }

  /** The run of hex digits stops where `h` stops when no digit follows it. */
  lemma {:induction false} HexRunOf(h: string, rest: string)
    requires AllHex(h)
    requires rest == [] || !IsHexDigit(rest[0])
    ensures HexRun(h + rest) == |h|
  {
    if h != [] {
      assert (h + rest)[0] == h[0];
      assert (h + rest)[1..] == h[1..] + rest;
      HexRunOf(h[1..], rest);
    } else {
      assert h + rest == rest;
    }
  }

  /** The sign, then the prefix, come off as `Unsigned` and `Unprefixed` read them. */
  lemma {:induction false} SignAndPrefix(sign: string, prefix: string, h: string, rest: string)
    requires sign == "" || sign == "+" || sign == "-"
    requires prefix == "" || prefix == "0x" || prefix == "0X"
    requires h != [] && AllHex(h)
    requires prefix == "" && h == "0" && rest != [] ==> rest[0] != 'x' && rest[0] != 'X'
    ensures sign + prefix + h + rest != []
    ensures !IsSpace((sign + prefix + h + rest)[0])
    ensures ((sign + prefix + h + rest)[0] == '-') == (sign == "-")
    ensures Unprefixed(Unsigned(sign + prefix + h + rest)) == h + rest
  {
    var u := prefix + h + rest;
    var t := sign + u;
    assert t == sign + prefix + h + rest;
    assert u[0] == (if prefix != "" then '0' else h[0]);
    assert IsHexDigit(u[0]);
    assert t[0] == (if sign != "" then sign[0] else u[0]);
    assert Unsigned(t) == u by {
      UnsignedOf(sign, u);
    }
    assert Unprefixed(u) == h + rest by {
      UnprefixedOf(prefix, h, rest);
    }
  }

  /** A sign is dropped, and text that starts with a digit is kept. */
  lemma {:induction false} UnsignedOf(sign: string, u: string)
    requires sign == "" || sign == "+" || sign == "-"
    requires u != [] && IsHexDigit(u[0])
    ensures Unsigned(sign + u) == u
  {
    if sign != "" {
      assert (sign + u)[1..] == u;
    } else {
      assert sign + u == u;
    }
  }

  /** A `0x`/`0X` prefix is dropped, and digits without one are kept. */
  lemma {:induction false} UnprefixedOf(prefix: string, h: string, rest: string)
    requires prefix == "" || prefix == "0x" || prefix == "0X"
    requires h != [] && AllHex(h)
    requires prefix == "" && h == "0" && rest != [] ==> rest[0] != 'x' && rest[0] != 'X'
    ensures Unprefixed(prefix + h + rest) == h + rest
  {
    var digits := h + rest;
    if prefix != "" {
      assert (prefix + digits)[2..] == digits;
      assert prefix + h + rest == prefix + digits;
    } else {
      assert prefix + h + rest == digits;
      if |h| >= 2 {
        assert digits[1] == h[1];
      }
    }
  }


  /** `parseInt(w + sign + prefix + h + rest, 16)` is `h`'s value, negated for
      a `-` sign, whenever `w` is white space, `h` is the whole run of digits
      and a bare `0` is not followed by an `x` that would make it a prefix. */
  lemma {:induction false} ParseIntHexOfParts(s: string, w: string, sign: string, prefix: string, h: string, rest: string)
    requires s == w + sign + prefix + h + rest
    requires forall k | 0 <= k < |w| :: IsSpace(w[k])
    requires sign == "" || sign == "+" || sign == "-"
    requires prefix == "" || prefix == "0x" || prefix == "0X"
    requires h != [] && AllHex(h)
    requires rest == [] || !IsHexDigit(rest[0])
    requires prefix == "" && h == "0" && rest != [] ==> rest[0] != 'x' && rest[0] != 'X'
    ensures ParseIntHex(s) == Some(if sign == "-" then -(HexValue(h) as int) else HexValue(h) as int)
  {
    var t := sign + prefix + h + rest;
    assert s == w + t;
    ParseIntHexSkipsSpace(w, t);
    ParseIntHexOfSigned(sign, prefix, h, rest);
  }

  /** Leading white space does not change what `parseInt` reads. */
  lemma {:induction false} ParseIntHexSkipsSpace(w: string, t: string)
    requires forall k | 0 <= k < |w| :: IsSpace(w[k])
    requires t != [] && !IsSpace(t[0])
    ensures ParseIntHex(w + t) == ParseIntHex(t)
  {
    TrimStartSpaces(w, t);
    assert TrimStart(t) == t;
    ParseIntHexOfTrim(w + t, t);
  }

  /** `parseInt` reads only the text left once leading white space is gone. */
  lemma {:induction false} ParseIntHexOfTrim(s: string, t: string)
    requires TrimStart(s) == TrimStart(t)
    ensures ParseIntHex(s) == ParseIntHex(t)
  {
  }

  /** `parseInt` of a sign, a prefix and a complete run of digits. */
  lemma {:induction false} ParseIntHexOfSigned(sign: string, prefix: string, h: string, rest: string)
    requires sign == "" || sign == "+" || sign == "-"
    requires prefix == "" || prefix == "0x" || prefix == "0X"
    requires h != [] && AllHex(h)
    requires rest == [] || !IsHexDigit(rest[0])
    requires prefix == "" && h == "0" && rest != [] ==> rest[0] != 'x' && rest[0] != 'X'
    ensures sign + prefix + h + rest != [] && !IsSpace((sign + prefix + h + rest)[0])
    ensures ParseIntHex(sign + prefix + h + rest) == Some(if sign == "-" then -(HexValue(h) as int) else HexValue(h) as int)
  {
    var t := sign + prefix + h + rest;
    var digits := h + rest;
    SignAndPrefix(sign, prefix, h, rest);
    assert TrimStart(t) == t;
    assert HexRun(digits) == |h| by { HexRunOf(h, rest); }
    assert digits[..|h|] == h;
    ParseIntHexSteps(t, t, digits, h, sign == "-");
  }

  /** `parseInt` once its three steps are known: the trimmed text, the digits
      after sign and prefix, and the length of their run. */
  lemma {:induction false} ParseIntHexSteps(s: string, t: string, digits: string, h: string, negative: bool)
    requires TrimStart(s) == t && t != [] && (t[0] == '-') == negative
    requires Unprefixed(Unsigned(t)) == digits
    requires h != [] && AllHex(h) && HexRun(digits) == |h| && digits[..|h|] == h
    ensures ParseIntHex(s) == Some(if negative then -(HexValue(h) as int) else HexValue(h) as int)
  {
  }


  /** The ToInt32 conversion that `>>` and `&` apply to their operands. */
  function ToInt32(n: int): (r: int)
    ensures -0x8000_0000 <= r < 0x8000_0000
    ensures -0x8000_0000 <= n < 0x8000_0000 ==> r == n
    ensures (n - r) % 0x1_0000_0000 == 0
  {
    var m := n % 0x1_0000_0000;
    if m >= 0x8000_0000 then m - 0x1_0000_0000 else m
  }

  /** `n.toString(16)` for a non-negative integer: the digits of `n / 16`,
      then the digit of `n % 16`. */
  function ToString16(n: nat): (s: string)
    ensures |s| >= 1
  {
    if n < 16 then [HexChar(n)] else ToString16(n / 16) + [HexChar(n % 16)]
  }

  /** `toString(16)` writes lower-case digits with no leading zero, and
      reading them back gives the number. */
  lemma {:induction false} ToString16Reads(n: nat)
    ensures AllLowerHex(ToString16(n)) && AllHex(ToString16(n))
    ensures HexValue(ToString16(n)) == n
    ensures n >= 16 ==> ToString16(n)[0] != '0'
  {
    if n >= 16 {
      ToString16Reads(n / 16);
      var prefix := ToString16(n / 16);
      var s := ToString16(n);
      assert s == prefix + [HexChar(n % 16)];
      assert s[..|s| - 1] == prefix;
      assert s[0] == prefix[0];
      assert n / 16 < 16 ==> prefix[0] != '0';
      forall k | 0 <= k < |s| ensures IsLowerHexDigit(s[k]) {
        if k < |prefix| {
          assert s[k] == prefix[k];
        }
      }
    }
  }

  /** One more low digit: `toString(16)` of `16 q + d` is that of `q` followed by `d`'s digit. */
  lemma {:induction false} ToString16Step(q: nat, d: nat)
    requires q >= 1 && d < 16
    ensures ToString16(16 * q + d) == ToString16(q) + [HexChar(d)]
  {
    assert (16 * q + d) / 16 == q && (16 * q + d) % 16 == d;
  }

  /** The index of the first `c` in `s`, or `|s|` when there is none. */
  function IndexOf(s: string, c: char): (i: nat)
    ensures i <= |s|
    ensures i < |s| ==> s[i] == c
    ensures forall j | 0 <= j < i :: s[j] != c
    ensures i == |s| <==> c !in s
  {
    if s == [] then 0
    else if s[0] == c then 0
    else 1 + IndexOf(s[1..], c)
  }

  /** `s.replace(c, '')` with a one-character string pattern: only the first
      occurrence goes. */
  function ReplaceFirst(s: string, c: char): (r: string)
    ensures c !in s ==> r == s
    ensures c in s ==> r == s[..IndexOf(s, c)] + s[IndexOf(s, c) + 1..]
  {
    var i := IndexOf(s, c);
    if i == |s| then s else s[..i] + s[i + 1..]
  }

  /** Removing a leading `c`: the first occurrence is the one at the front. */
  lemma ReplaceLeading(c: char, s: string)
    ensures ReplaceFirst([c] + s, c) == s
  {
    assert IndexOf([c] + s, c) == 0;
    assert ([c] + s)[1..] == s;
  }

  /** `s.substr(start, length)` for non-negative arguments: clipped at the end. */
  function Substr(s: string, start: nat, length: nat): (r: string)
    ensures |r| <= length
    ensures start + length <= |s| ==> r == s[start..start + length]
    ensures start >= |s| ==> r == []
    ensures start < |s| < start + length ==> r == s[start..]
  {
    var from := if start < |s| then start else |s|;
    var to := if start + length < |s| then start + length else |s|;
    s[from..to]
  }
}
