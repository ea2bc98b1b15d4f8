/** `Utils.colors` in utils.js: lightening a hex colour and choosing black or
    white text for a background. */
module Colors {
  import opened Wrappers
  import opened JsBuiltins

  /** `parseInt(color.replace('#', ''), 16)` as the bitwise operators see
      it: ToInt32 of the number, which is 0 for NaN. */
  function Word(color: string): (x: int)
    ensures -0x8000_0000 <= x < 0x8000_0000
  {
    match ParseIntHex(ReplaceFirst(color, '#'))
    case Some(n) => ToInt32(n)
    case None => 0
  }

  /** The three 8-bit fields `lighten` reads from the word `x`:
      `x >> 16`, `x >> 8 & 0x00FF` and `x & 0x0000FF`. On a 32-bit value
      `>>` is division rounding down and `& 0xFF` is the remainder modulo
      256, which is how Dafny's `/` and `%` by a positive constant behave. */
  function Channels(x: int): (int, int, int)
  {
    (x / 0x10000, (x / 0x100) % 0x100, x % 0x100)
  }

  /** The low two fields are bytes, and the three fields put back together
      give the word. */
  lemma {:induction false} ChannelsSplit(x: int)
    ensures 0 <= Channels(x).1 < 256 && 0 <= Channels(x).2 < 256
    ensures x == Channels(x).0 * 0x10000 + Channels(x).1 * 0x100 + Channels(x).2
  {
    var hi, mid := x / 0x10000, x / 0x100;
    assert x == mid * 0x100 + x % 0x100;
    assert mid == hi * 0x100 + mid % 0x100;
  }

  /** The nested conditional of `lighten`: 255 from 255 up, 0 below 1. */
  function Clamp(x: int): (r: int)
    ensures 0 <= r <= 255
    ensures x >= 255 ==> r == 255
    ensures x < 1 ==> r == 0
    ensures 1 <= x < 255 ==> r == x
  {
    if x < 255 then (if x < 1 then 0 else x) else 255
  }

  /** A channel as two lower-case hex digits: the high one, then the low one. */
  function Byte2(v: int): (s: string)
    requires 0 <= v < 256
    ensures |s| == 2 && AllLowerHex(s)
  {
    [HexChar(v / 16), HexChar(v % 16)]
  }

  /** `lighten(color, percent)`, with `amt` (the rounded `2.55 * percent`)
      as the input: always `#` and six lower-case hex digits. */
  function Lighten(color: string, amt: int): (r: string)
    ensures |r| == 7 && r[0] == '#' && AllLowerHex(r[1..])
  {
    LightenWord(Word(color), amt)
  }

  /** The rest of `lighten` once the colour is read as the word `x`: each
      field plus `amt`, clamped to [0, 255], and written back as `#rrggbb`. */
  function LightenWord(x: int, amt: int): (r: string)
    ensures |r| == 7 && r[0] == '#' && AllLowerHex(r[1..])
    ensures r == "#" + Byte2(Clamp(Channels(x).0 + amt)) + Byte2(Clamp(Channels(x).1 + amt))
                     + Byte2(Clamp(Channels(x).2 + amt))
  {
    Encode(Clamp(Channels(x).0 + amt), Clamp(Channels(x).1 + amt), Clamp(Channels(x).2 + amt))
  }

  /** `'#' + (0x1000000 + R * 0x10000 + G * 0x100 + B).toString(16).slice(1)`. */
  function Encode(R: int, G: int, B: int): (r: string)
    requires 0 <= R < 256 && 0 <= G < 256 && 0 <= B < 256
    ensures |r| == 7 && r[0] == '#' && AllLowerHex(r[1..])
    ensures r == "#" + Byte2(R) + Byte2(G) + Byte2(B)
  {
    var digits := ToString16(0x1000000 + R * 0x10000 + G * 0x100 + B);
    Encode24(R, G, B);
    var br, bg, bb := Byte2(R), Byte2(G), Byte2(B);
    var tail := br + bg + bb;
    assert digits[1..] == tail;
    assert AllLowerHex(tail) by {
      forall k | 0 <= k < 6 ensures IsLowerHexDigit(tail[k]) {
        if k < 2 { assert tail[k] == br[k]; }
        else if k < 4 { assert tail[k] == bg[k - 2]; }
        else { assert tail[k] == bb[k - 4]; }
      }
    }
    "#" + digits[1..]
  }

  /** Two more low digits: `toString(16)` of `n = 256 q + v` is that of `q`
      followed by `v`'s two digits. */
  lemma {:induction false} ToString16Byte(q: nat, v: int, n: nat)
    requires q >= 1 && 0 <= v < 256 && n == 256 * q + v
    ensures ToString16(n) == ToString16(q) + Byte2(v)
  {
    var hi, lo := v / 16, v % 16;
    var q' := 16 * q + hi;
    assert n == 16 * q' + lo;
    assert ToString16(q') == ToString16(q) + [HexChar(hi)] by { ToString16Step(q, hi); }
    assert ToString16(n) == ToString16(q') + [HexChar(lo)] by { ToString16Step(q', lo); }
    assert Byte2(v) == [HexChar(hi), HexChar(lo)];
  }

  /** `(0x1000000 + R * 0x10000 + G * 0x100 + B).toString(16)` is a `1`
      followed by the two digits of each channel. */
  lemma {:induction false} Encode24(r: int, g: int, b: int)
    requires 0 <= r < 256 && 0 <= g < 256 && 0 <= b < 256
    ensures ToString16(0x1000000 + r * 0x10000 + g * 0x100 + b)
         == "1" + Byte2(r) + Byte2(g) + Byte2(b)
  {
    var q := 0x10000 + r * 0x100 + g;
    var n := 0x1000000 + r * 0x10000 + g * 0x100 + b;
    assert n == 256 * q + b;
    assert ToString16(q) == "1" + Byte2(r) + Byte2(g) by { Encode16(r, g); }
    assert ToString16(n) == ToString16(q) + Byte2(b) by { ToString16Byte(q, b, n); }
  }

  lemma {:induction false} Encode16(r: int, g: int)
    requires 0 <= r < 256 && 0 <= g < 256
    ensures ToString16(0x10000 + r * 0x100 + g) == "1" + Byte2(r) + Byte2(g)
  {
    Encode8(r);
    ToString16Byte(0x100 + r, g, 0x10000 + r * 0x100 + g);
  }

  lemma {:induction false} Encode8(r: int)
    requires 0 <= r < 256
    ensures ToString16(0x100 + r) == "1" + Byte2(r)
  {
    assert ToString16(1) == "1";
    ToString16Byte(1, r, 0x100 + r);
  }

  /** Splitting a 24-bit value into its three bytes. */
  lemma {:induction false} Bytes24(r: int, g: int, b: int)
    requires 0 <= r < 256 && 0 <= g < 256 && 0 <= b < 256
    ensures var x := r * 0x10000 + g * 0x100 + b;
      x / 0x10000 == r && (x / 0x100) % 0x100 == g && x % 0x100 == b
  {
    var x := r * 0x10000 + g * 0x100 + b;
    assert x == (r * 0x100 + g) * 0x100 + b;
    assert x / 0x100 == r * 0x100 + g;
    assert x == r * 0x10000 + (g * 0x100 + b);
  }

  /** Two hex digits read back through `Byte2` come out in lower case. */
  lemma {:induction false} Byte2OfPair(p: string)
    requires |p| == 2 && AllHex(p)
    ensures HexValue(p) < 256 && Byte2(HexValue(p)) == ToLowerString(p)
  {
    assert p[..1][..0] == [];
    assert HexValue(p[..1]) == DigitValue(p[0]);
    var v := HexValue(p);
    assert v == DigitValue(p[0]) * 16 + DigitValue(p[1]);
    assert v / 16 == DigitValue(p[0]) && v % 16 == DigitValue(p[1]);
    HexCharOfDigit(p[0]);
    HexCharOfDigit(p[1]);
  }

  /** A parsed value already in the 32-bit range is the word itself. */
  lemma {:induction false} WordOfParsed(color: string, n: int)
    requires ParseIntHex(ReplaceFirst(color, '#')) == Some(n)
    requires 0 <= n < 0x8000_0000
    ensures Word(color) == n
  {
  }

  /** A 6-digit colour reads as the number its digits denote. */
  lemma {:induction false} WordOfHexColour(h: string)
    requires |h| == 6 && AllHex(h)
    ensures HexValue(h) < 0x100_0000 && Word("#" + h) == HexValue(h)
  {
    var v := HexValue(h);
    assert v < 0x100_0000 by {
      HexValueBound(h);
      assert Pow16(6) == 0x100_0000;
    }
    assert ParseIntHex(ReplaceFirst("#" + h, '#')) == Some(v) by {
      ReplaceLeading('#', h);
      ParseIntHexOfDigits(h);
    }
    WordOfParsed("#" + h, v);
  }

  /** The three digit pairs of a 6-digit colour are hex strings. */
  lemma {:induction false} HexPairs(h: string)
    requires |h| == 6 && AllHex(h)
    ensures AllHex(h[..2]) && AllHex(h[2..4]) && AllHex(h[4..])
  {
    forall k | 0 <= k < 2 ensures IsHexDigit(h[..2][k]) && IsHexDigit(h[2..4][k]) && IsHexDigit(h[4..][k]) {
      assert h[..2][k] == h[k] && h[2..4][k] == h[k + 2] && h[4..][k] == h[k + 4];
    }
  }

  /** A 6-digit colour denotes its pairs' values weighted by 0x10000, 0x100 and 1. */
  lemma {:induction false} HexValueOfPairs(h: string)
    requires |h| == 6 && AllHex(h)
    ensures AllHex(h[..2]) && AllHex(h[2..4]) && AllHex(h[4..])
    ensures HexValue(h) == HexValue(h[..2]) * 0x10000 + HexValue(h[2..4]) * 0x100 + HexValue(h[4..])
  {
    HexPairs(h);
    var p0, p1, p2 := h[..2], h[2..4], h[4..];
    assert h == p0 + (p1 + p2);
    assert HexValue(p1 + p2) == HexValue(p1) * 0x100 + HexValue(p2) by {
      HexValueConcat(p1, p2);
      assert Pow16(2) == 0x100;
    }
    assert HexValue(h) == HexValue(p0) * 0x10000 + HexValue(p1 + p2) by {
      HexValueConcat(p0, p1 + p2);
      assert Pow16(4) == 0x10000;
    }
  }

  /** Its three fields are the values of its three digit pairs. */
  lemma {:induction false} ChannelsOfHexColour(h: string)
    requires |h| == 6 && AllHex(h)
    ensures AllHex(h[..2]) && AllHex(h[2..4]) && AllHex(h[4..])
    ensures HexValue(h) == HexValue(h[..2]) * 0x10000 + HexValue(h[2..4]) * 0x100 + HexValue(h[4..])
    ensures HexValue(h[..2]) < 256 && HexValue(h[2..4]) < 256 && HexValue(h[4..]) < 256
    ensures Channels(HexValue(h)) == (HexValue(h[..2]), HexValue(h[2..4]), HexValue(h[4..]))
  {
    HexValueOfPairs(h);
    var v0, v1, v2 := HexValue(h[..2]), HexValue(h[2..4]), HexValue(h[4..]);
    assert v0 < 256 && v1 < 256 && v2 < 256 by {
      HexValueBound(h[..2]);
      HexValueBound(h[2..4]);
      HexValueBound(h[4..]);
      assert Pow16(2) == 256;
    }
    Bytes24(v0, v1, v2);
  }

  /** The value of a two-digit pair, as `parseInt` reads it. */
  function PairValue(p: string): (v: nat)
    requires |p| == 2 && AllHex(p)
    ensures v < 256
  {
    DigitValue(p[0]) * 16 + DigitValue(p[1])
  }

  lemma {:induction false} PairValueIsHexValue(p: string)
    requires |p| == 2 && AllHex(p)
    ensures HexValue(p) == PairValue(p)
  {
    assert p[..1][..0] == [];
    assert HexValue(p[..1]) == DigitValue(p[0]);
  }

  /** Lightening `#rrggbb`: each digit pair plus `amt`, clamped, as two
      lower-case digits. */
  lemma {:induction false} LightenOfHexColour(h: string, amt: int)
    requires |h| == 6 && AllHex(h)
    ensures AllHex(h[..2]) && AllHex(h[2..4]) && AllHex(h[4..])
    ensures Lighten("#" + h, amt)
         == "#" + Byte2(Clamp(PairValue(h[..2]) + amt)) + Byte2(Clamp(PairValue(h[2..4]) + amt))
                + Byte2(Clamp(PairValue(h[4..]) + amt))
  {
    WordOfHexColour(h);
    assert Lighten("#" + h, amt) == LightenWord(HexValue(h), amt);
    LightenWordOfPairs(h, amt);
  }

  lemma {:induction false} LightenWordOfPairs(h: string, amt: int)
    requires |h| == 6 && AllHex(h)
    ensures AllHex(h[..2]) && AllHex(h[2..4]) && AllHex(h[4..])
    ensures LightenWord(HexValue(h), amt)
         == "#" + Byte2(Clamp(PairValue(h[..2]) + amt)) + Byte2(Clamp(PairValue(h[2..4]) + amt))
                + Byte2(Clamp(PairValue(h[4..]) + amt))
  {
    var p0, p1, p2 := h[..2], h[2..4], h[4..];
    assert AllHex(p0) && AllHex(p1) && AllHex(p2) by {
      assert forall k | 0 <= k < 2 :: p0[k] == h[k] && p1[k] == h[k + 2] && p2[k] == h[k + 4];
    }
    assert Channels(HexValue(h)) == (PairValue(h[..2]), PairValue(h[2..4]), PairValue(h[4..])) by {
      ChannelsOfHexColour(h);
      PairValueIsHexValue(p0);
      PairValueIsHexValue(p1);
      PairValueIsHexValue(p2);
    }
    var x := HexValue(h);
    assert Clamp(Channels(x).0 + amt) == Clamp(PairValue(p0) + amt);
    assert Clamp(Channels(x).1 + amt) == Clamp(PairValue(p1) + amt);
    assert Clamp(Channels(x).2 + amt) == Clamp(PairValue(p2) + amt);
  }

  /** Lightening by 0 gives back a 6-digit colour in lower case. */
  lemma {:induction false} LightenByZero(h: string)
    requires |h| == 6 && AllHex(h)
    ensures Lighten("#" + h, 0) == "#" + ToLowerString(h)
  {
    WordOfHexColour(h);
    assert Lighten("#" + h, 0) == LightenWord(HexValue(h), 0);
    LightenWordOfDigits(h);
  }

  lemma {:induction false} LightenWordOfDigits(h: string)
    requires |h| == 6 && AllHex(h)
    ensures LightenWord(HexValue(h), 0) == "#" + ToLowerString(h)
  {
    var x := HexValue(h);
    var p0, p1, p2 := h[..2], h[2..4], h[4..];
    ChannelsOfHexColour(h);
    var v0, v1, v2 := HexValue(p0), HexValue(p1), HexValue(p2);
    assert Channels(x) == (v0, v1, v2);
    assert Clamp(v0 + 0) == v0 && Clamp(v1 + 0) == v1 && Clamp(v2 + 0) == v2;
    assert LightenWord(x, 0) == "#" + Byte2(v0) + Byte2(v1) + Byte2(v2);
    assert Byte2(v0) == ToLowerString(p0) by { Byte2OfPair(p0); }
    assert Byte2(v1) == ToLowerString(p1) by { Byte2OfPair(p1); }
    assert Byte2(v2) == ToLowerString(p2) by { Byte2OfPair(p2); }
    LowerPairs(h);
  }

  lemma {:induction false} LowerPairs(h: string)
    requires |h| == 6
    ensures "#" + ToLowerString(h) == "#" + ToLowerString(h[..2]) + ToLowerString(h[2..4]) + ToLowerString(h[4..])
  {
  }

  /** The YIQ sum `299 r + 587 g + 114 b`. */
  function Brightness(r: int, g: int, b: int): int {
    299 * r + 587 * g + 114 * b
  }

  /** `getContrastColor(hexcolor)`: the channels are the digit pairs at 1, 3
      and 5, each read by `parseInt(…, 16)`. A NaN channel makes the YIQ value
      NaN, and `NaN >= 128` is false. For the integer channels `parseInt`
      yields, `sum / 1000 >= 128` holds exactly when `sum >= 128000`. */
  function GetContrastColor(hexcolor: string): (r: string)
    ensures r == "#000000" || r == "#FFFFFF"
  {
    var r := ParseIntHex(Substr(hexcolor, 1, 2));
    var g := ParseIntHex(Substr(hexcolor, 3, 2));
    var b := ParseIntHex(Substr(hexcolor, 5, 2));
    if r.Some? && g.Some? && b.Some? && Brightness(r.value, g.value, b.value) >= 128000
    then "#000000" else "#FFFFFF"
  }

  /** On a `#rrggbb` colour the answer is black exactly when the channels'
      YIQ sum reaches 128000. */
  lemma {:induction false} ContrastOfHexColour(h: string)
    requires |h| == 6 && AllHex(h)
    ensures AllHex(h[..2]) && AllHex(h[2..4]) && AllHex(h[4..])
    ensures GetContrastColor("#" + h) == "#000000"
        <==> Brightness(HexValue(h[..2]), HexValue(h[2..4]), HexValue(h[4..])) >= 128000
  {
    var c := "#" + h;
    var p0, p1, p2 := h[..2], h[2..4], h[4..];
    HexPairs(h);
    assert Substr(c, 1, 2) == p0 && Substr(c, 3, 2) == p1 && Substr(c, 5, 2) == p2;
    ParseIntHexOfDigits(p0);
    ParseIntHexOfDigits(p1);
    ParseIntHexOfDigits(p2);
  }

  /** Raising any channel never turns a black answer into white. */
  lemma {:induction false} ContrastMonotone(h: string, h': string)
    requires |h| == 6 && AllHex(h) && |h'| == 6 && AllHex(h')
    requires GetContrastColor("#" + h) == "#000000"
    requires AllHex(h[..2]) && AllHex(h[2..4]) && AllHex(h[4..])
    requires AllHex(h'[..2]) && AllHex(h'[2..4]) && AllHex(h'[4..])
    requires HexValue(h[..2]) <= HexValue(h'[..2])
    requires HexValue(h[2..4]) <= HexValue(h'[2..4])
    requires HexValue(h[4..]) <= HexValue(h'[4..])
    ensures GetContrastColor("#" + h') == "#000000"
  {
    ContrastOfHexColour(h);
    ContrastOfHexColour(h');
  }
}
