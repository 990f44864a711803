/** `lightenColor` in src/pages/AnalysisPage.js: the hovered bar's colour,
    each RGB channel raised by a percentage of 255 and clamped. */
module Colour {
  import opened Wrappers
  import JsText
  import JsNumber
  import Seqs

  predicate IsHexDigit(c: char) {
    '0' <= c <= '9' || 'a' <= c <= 'f' || 'A' <= c <= 'F'
  }

  predicate AllHex(s: string) {
    forall k :: 0 <= k < |s| ==> IsHexDigit(s[k])
  }

  function HexDigitValue(c: char): (v: nat)
    requires IsHexDigit(c)
    ensures v < 16
  {
    if '0' <= c <= '9' then c as int - '0' as int
    else if 'a' <= c <= 'f' then c as int - 'a' as int + 10
    else c as int - 'A' as int + 10
  }

  /** The lower-case digit `toString(16)` writes. */
  function HexChar(d: nat): (c: char)
    requires d < 16
    ensures IsHexDigit(c) && HexDigitValue(c) == d
  {
    if d < 10 then ('0' as int + d) as char else ('a' as int + d - 10) as char
  }

  function Pow16(n: nat): (p: nat)
    ensures p >= 1
  {
    if n == 0 then 1 else 16 * Pow16(n - 1)
  }

  function HexValue(ds: string): nat
    requires AllHex(ds)
  {
    if |ds| == 0 then 0 else 16 * HexValue(ds[..|ds| - 1]) + HexDigitValue(ds[|ds| - 1])
  }

  function LeadingHex(s: string): (r: string)
    ensures |r| <= |s| && r == s[..|r|] && AllHex(r)
  {
    if |s| > 0 && IsHexDigit(s[0]) then [s[0]] + LeadingHex(s[1..]) else []
  }

  /** `parseInt(s, 16)`: blanks, a sign and a `0x` prefix may come first;
      `None` (NaN) when no hex digit follows. */
  function ParseHex(s: string): (n: Option<int>)
  {
    var t := JsText.TrimStart(s);
    var negative := |t| > 0 && t[0] == '-';
    var u := if |t| > 0 && (t[0] == '-' || t[0] == '+') then t[1..] else t;
    var w := if |u| >= 2 && u[0] == '0' && (u[1] == 'x' || u[1] == 'X') then u[2..] else u;
    var ds := LeadingHex(w);
    if |ds| == 0 then None
    else
      var v: int := HexValue(ds);
      Some(if negative then -v else v)
  }

  /** `s.replace('#', '')`: the first `#` is removed. */
  function RemoveFirstHash(s: string): (r: string)
    ensures '#' !in s ==> r == s
    ensures '#' in s ==> |r| == |s| - 1
    ensures '#' in s ==> r == s[..Seqs.IndexOf(s, '#')] + s[Seqs.IndexOf(s, '#') + 1..]
  {
    if |s| == 0 then s
    else if s[0] == '#' then s[1..]
    else
      var r := [s[0]] + RemoveFirstHash(s[1..]);
      assert '#' in s ==> r == s[..Seqs.IndexOf(s, '#')] + s[Seqs.IndexOf(s, '#') + 1..] by {
        if '#' in s {
          assert '#' in s[1..];
          var i := Seqs.IndexOf(s[1..], '#');
          assert Seqs.IndexOf(s, '#') == i + 1;
          assert s[..i + 1] == [s[0]] + s[1..][..i];
          assert s[i + 2..] == s[1..][i + 1..];
        }
      }
      r
  }

  /** The 32-bit signed integer the shift and mask operators work on; NaN becomes 0. */
  function ToInt32(n: Option<int>): (x: int)
    ensures -0x8000_0000 <= x < 0x8000_0000
    ensures n.Some? && 0 <= n.value < 0x8000_0000 ==> x == n.value
  {
    if n.None? then 0
    else
      var m := n.value % 0x1_0000_0000;
      if m >= 0x8000_0000 then m - 0x1_0000_0000 else m
  }

  /** `x < 255 ? (x < 0 ? 0 : x) : 255`. */
  function Clamp(x: int): (c: nat)
    ensures c <= 255
    ensures 0 <= x <= 255 ==> c == x
    ensures x < 0 ==> c == 0
    ensures x > 255 ==> c == 255
  {
    if x < 255 then (if x < 0 then 0 else x) else 255
  }

  /** `Number.prototype.toString(16)` for a natural number. */
  function HexString(n: nat): (s: string)
    ensures |s| > 0
  {
    if n < 16 then [HexChar(n)] else HexString(n / 16) + [HexChar(n % 16)]
  }

  /** A channel as two lower-case hex digits. */
  function Hex2(v: nat): (s: string)
    requires v < 256
    ensures |s| == 2 && AllHex(s) && HexValue(s) == v
  {
    var s := [HexChar(v / 16), HexChar(v % 16)];
    assert s[..1] == [HexChar(v / 16)] && s[..1][..0] == [];
    assert HexValue(s[..1]) == v / 16;
    s
  }

  /** `#` and two lower-case hex digits per channel. */
  function HexColour(red: nat, green: nat, blue: nat): (s: string)
    requires red < 256 && green < 256 && blue < 256
    ensures |s| == 7 && s[0] == '#' && AllHex(s[1..])
    ensures s[1..] == Hex2(red) + Hex2(green) + Hex2(blue)
  {
    var s := "#" + Hex2(red) + Hex2(green) + Hex2(blue);
    assert s[1..] == Hex2(red) + Hex2(green) + Hex2(blue);
    s
  }

  /** The three clamped channels of the lightened colour. */
  function Channels(color: string, percent: real): (rgb: (nat, nat, nat))
    ensures rgb.0 <= 255 && rgb.1 <= 255 && rgb.2 <= 255
  {
    Shifted(ColourNumber(color), Amount(percent))
  }

  /** `parseInt(color.replace("#", ""), 16)` as the 32-bit integer the shifts see. */
  function ColourNumber(color: string): int
  {
    ToInt32(ParseHex(RemoveFirstHash(color)))
  }

  /** `Math.round(2.55 * percent)`: the amount added to every channel. */
  function Amount(percent: real): (amt: int)
    ensures percent >= 0.0 ==> amt >= 0
  {
    JsNumber.Round(2.55 * percent)
  }

  /** `num >> 16`, `(num >> 8) & 0xff` and `num & 0xff`, each raised by `amt` and clamped. */
  function Shifted(num: int, amt: int): (rgb: (nat, nat, nat))
    ensures rgb.0 <= 255 && rgb.1 <= 255 && rgb.2 <= 255
  {
    (Clamp(num / 0x1_0000 + amt), Clamp((num / 0x100) % 0x100 + amt), Clamp(num % 0x100 + amt))
  }

  lemma LeadingHexAll(s: string)
    requires AllHex(s)
    ensures LeadingHex(s) == s
  {
    if |s| > 0 {
      LeadingHexAll(s[1..]);
    }
  }

  /** `lightenColor(color, percent)`. */
  function LightenColor(color: string, percent: real): (r: string)
  {
    var rgb := Channels(color, percent);
    ChannelText(rgb.0, rgb.1, rgb.2)
  }

  /** `"#" + (0x1000000 + r * 0x10000 + g * 0x100 + b).toString(16).slice(1)`. */
  function ChannelText(red: nat, green: nat, blue: nat): string
  {
    var s := HexString(0x100_0000 + red * 0x1_0000 + green * 0x100 + blue);
    "#" + if |s| > 1 then s[1..] else ""
  }

  lemma {:induction false} HexStringAppend(n: nat, d: nat)
    requires n >= 1 && d < 16
    ensures HexString(n * 16 + d) == HexString(n) + [HexChar(d)]
  {
    assert (n * 16 + d) / 16 == n && (n * 16 + d) % 16 == d;
  }

  lemma HexStringAppendByte(n: nat, v: nat)
    requires n >= 1 && v < 256
    ensures HexString(n * 256 + v) == HexString(n) + Hex2(v)
  {
    var m := n * 16 + v / 16;
    assert n * 256 + v == m * 16 + v % 16;
    HexStringAppend(n, v / 16);
    HexStringAppend(m, v % 16);
  }

  lemma HexStringOfRed(r: nat)
    requires r < 256
    ensures HexString(0x100 + r) == "1" + Hex2(r)
  {
    assert HexString(1) == "1";
    HexStringAppendByte(1, r);
  }

  lemma HexStringOfRedGreen(r: nat, g: nat)
    requires r < 256 && g < 256
    ensures HexString(0x1_0000 + r * 0x100 + g) == "1" + Hex2(r) + Hex2(g)
  {
    var n := 0x100 + r;
    assert n * 256 + g == 0x1_0000 + r * 0x100 + g;
    HexStringOfRed(r);
    HexStringAppendByte(n, g);
  }

  /** The text of `0x1000000 + r * 0x10000 + g * 0x100 + b` is "1" and two digits per channel. */
  lemma HexStringOfChannels(r: nat, g: nat, b: nat)
    requires r < 256 && g < 256 && b < 256
    ensures HexString(0x100_0000 + r * 0x1_0000 + g * 0x100 + b) == "1" + Hex2(r) + Hex2(g) + Hex2(b)
  {
    var n := 0x1_0000 + r * 0x100 + g;
    assert n * 256 + b == 0x100_0000 + r * 0x1_0000 + g * 0x100 + b;
    HexStringOfRedGreen(r, g);
    HexStringAppendByte(n, b);
  }

  /** Clamped channels are written as `#` and two lower-case hex digits each. */
  lemma ChannelTextDigits(red: nat, green: nat, blue: nat)
    requires red < 256 && green < 256 && blue < 256
    ensures ChannelText(red, green, blue) == HexColour(red, green, blue)
  {
    HexStringOfChannels(red, green, blue);
    var s := HexString(0x100_0000 + red * 0x1_0000 + green * 0x100 + blue);
    assert s[1..] == Hex2(red) + Hex2(green) + Hex2(blue);
  }

  /** The result is always `#` and six lower-case hex digits, two per clamped channel. */
  lemma LightenColorShape(color: string, percent: real)
    ensures var rgb := Channels(color, percent);
      LightenColor(color, percent) == HexColour(rgb.0, rgb.1, rgb.2)
  {
    var rgb := Channels(color, percent);
    ChannelTextDigits(rgb.0, rgb.1, rgb.2);
  }

  /** Appending digits shifts the value left by a power of 16. */
  lemma {:induction false} HexValueAppend(a: string, b: string)
    requires AllHex(a) && AllHex(b)
    ensures AllHex(a + b)
    ensures HexValue(a + b) == HexValue(a) * Pow16(|b|) + HexValue(b)
  {
    var ab := a + b;
    assert AllHex(ab) by {
      forall k | 0 <= k < |ab| ensures IsHexDigit(ab[k]) {
        if k < |a| { assert ab[k] == a[k]; } else { assert ab[k] == b[k - |a|]; }
      }
    }
    if |b| == 0 {
      assert ab == a;
    } else {
      var front := b[..|b| - 1];
      assert ab[..|ab| - 1] == a + front;
      assert ab[|ab| - 1] == b[|b| - 1];
      HexValueAppend(a, front);
      assert HexValue(ab) == 16 * HexValue(a + front) + HexDigitValue(b[|b| - 1]);
      assert HexValue(b) == 16 * HexValue(front) + HexDigitValue(b[|b| - 1]);
      ShiftDigit(HexValue(a), Pow16(|front|), HexValue(front), HexDigitValue(b[|b| - 1]));
    }
  }

  lemma ShiftDigit(x: nat, p: nat, f: nat, d: nat)
    ensures 16 * (x * p + f) + d == x * (16 * p) + (16 * f + d)
  {
  }

  /** The six digits of three channels read back as their 24-bit value. */
  lemma SixDigitsValue(r: nat, g: nat, b: nat)
    requires r < 256 && g < 256 && b < 256
    ensures var ds := Hex2(r) + Hex2(g) + Hex2(b);
      |ds| == 6 && AllHex(ds) && HexValue(ds) == r * 0x1_0000 + g * 0x100 + b
  {
    HexValueAppend(Hex2(r), Hex2(g));
    HexValueAppend(Hex2(r) + Hex2(g), Hex2(b));
    assert Pow16(2) == 256;
  }

  /** A hex digit is neither white space, a sign nor the `x` of a prefix. */
  lemma HexDigitIsPlain(c: char)
    requires IsHexDigit(c)
    ensures !JsText.IsWhitespace(c) && c != '-' && c != '+' && c != 'x' && c != 'X'
  {
  }

  /** Text made only of hex digits is read as its value. */
  lemma ParseAllHex(ds: string)
    requires |ds| >= 2 && AllHex(ds)
    ensures ParseHex(ds) == Some(HexValue(ds) as int)
  {
    HexDigitIsPlain(ds[0]);
    HexDigitIsPlain(ds[1]);
    assert JsText.TrimStart(ds) == ds;
    LeadingHexAll(ds);
  }

  /** Removing the `#` of a `HexColour` leaves its six digits. */
  lemma HashRemoved(r: nat, g: nat, b: nat)
    requires r < 256 && g < 256 && b < 256
    ensures RemoveFirstHash(HexColour(r, g, b)) == Hex2(r) + Hex2(g) + Hex2(b)
  {
  }

  /** A colour written by `HexColour` is read back as its 24-bit value. */
  lemma ParseHexColour(r: nat, g: nat, b: nat)
    requires r < 256 && g < 256 && b < 256
    ensures ParseHex(RemoveFirstHash(HexColour(r, g, b))).Some?
    ensures ParseHex(RemoveFirstHash(HexColour(r, g, b))).value == HexValue(Hex2(r) + Hex2(g) + Hex2(b))
  {
    var ds := Hex2(r) + Hex2(g) + Hex2(b);
    SixDigitsValue(r, g, b);
    calc {
      ParseHex(RemoveFirstHash(HexColour(r, g, b)));
      { HashRemoved(r, g, b); }
      ParseHex(ds);
      { ParseAllHex(ds); }
      Some(HexValue(ds) as int);
    }
  }

  /** The three bytes of a 24-bit value are read back by the shifts and masks. */
  lemma BytesOfValue(r: nat, g: nat, b: nat)
    requires r < 256 && g < 256 && b < 256
    ensures var v := r * 0x1_0000 + g * 0x100 + b;
      v / 0x1_0000 == r && (v / 0x100) % 0x100 == g && v % 0x100 == b
  {
    var v := r * 0x1_0000 + g * 0x100 + b;
    assert v == (r * 0x100 + g) * 0x100 + b;
    assert v / 0x100 == r * 0x100 + g;
    assert v == r * 0x1_0000 + (g * 0x100 + b);
  }

  /** A colour written by `HexColour` is read as its 24-bit value. */
  lemma HexColourNumber(r: nat, g: nat, b: nat)
    requires r < 256 && g < 256 && b < 256
    ensures ColourNumber(HexColour(r, g, b)) == r * 0x1_0000 + g * 0x100 + b
  {
    ParseHexColour(r, g, b);
    SixDigitsValue(r, g, b);
  }

  /** The shifts and masks of a 24-bit value raise each of its bytes by `amt`. */
  lemma ShiftedBytes(r: nat, g: nat, b: nat, amt: int)
    requires r < 256 && g < 256 && b < 256
    ensures var rgb := Shifted(r * 0x1_0000 + g * 0x100 + b, amt);
      rgb.0 == Clamp(r + amt) && rgb.1 == Clamp(g + amt) && rgb.2 == Clamp(b + amt)
  {
    BytesOfValue(r, g, b);
  }

  /** The channels of any colour that reads as a 24-bit value are its bytes, raised and clamped. */
  lemma ChannelsOfBytes(color: string, r: nat, g: nat, b: nat, percent: real)
    requires r < 256 && g < 256 && b < 256
    requires ColourNumber(color) == r * 0x1_0000 + g * 0x100 + b
    ensures var amt := Amount(percent);
      var rgb := Channels(color, percent);
      rgb.0 == Clamp(r + amt) && rgb.1 == Clamp(g + amt) && rgb.2 == Clamp(b + amt)
  {
    ShiftedBytes(r, g, b, Amount(percent));
  }

  /** Lightening a colour written as `#rrggbb` raises each channel by
      `Math.round(2.55 * percent)`, clamped to 0..255. */
  lemma ChannelsOfHexColour(r: nat, g: nat, b: nat, percent: real)
    requires r < 256 && g < 256 && b < 256
    ensures var amt := Amount(percent);
      var rgb := Channels(HexColour(r, g, b), percent);
      rgb.0 == Clamp(r + amt) && rgb.1 == Clamp(g + amt) && rgb.2 == Clamp(b + amt)
  {
    HexColourNumber(r, g, b);
    ChannelsOfBytes(HexColour(r, g, b), r, g, b, percent);
  }

  /** A positive percentage never darkens a channel, and a channel at 255 stays there. */
  lemma LightenNeverDarkens(r: nat, g: nat, b: nat, percent: real)
    requires r < 256 && g < 256 && b < 256 && percent >= 0.0
    ensures var rgb := Channels(HexColour(r, g, b), percent);
      r <= rgb.0 && g <= rgb.1 && b <= rgb.2
  {
    ChannelsOfHexColour(r, g, b, percent);
  }

  /** The text of a lightened colour is fixed by its three channels. */
  lemma LightenOfChannels(color: string, percent: real, r: nat, g: nat, b: nat)
    requires r < 256 && g < 256 && b < 256
    requires var rgb := Channels(color, percent); rgb.0 == r && rgb.1 == g && rgb.2 == b
    ensures LightenColor(color, percent) == HexColour(r, g, b)
  {
    LightenColorShape(color, percent);
  }

  /** A lower-case six-digit colour is a fixed point of a 0 % change. */
  lemma ZeroPercentKeepsColour(r: nat, g: nat, b: nat)
    requires r < 256 && g < 256 && b < 256
    ensures LightenColor(HexColour(r, g, b), 0.0) == HexColour(r, g, b)
  {
    ChannelsOfHexColour(r, g, b, 0.0);
    assert Amount(0.0) == 0;
    LightenOfChannels(HexColour(r, g, b), 0.0, r, g, b);
  }

  /** The hovered highest-count bar (`#2ecc71`, lightened by 20 %) is drawn `#61ffa4`. */
  lemma HoveredHighestBar()
    ensures LightenColor(HexColour(0x2e, 0xcc, 0x71), 20.0) == HexColour(0x61, 0xff, 0xa4)
  {
    ChannelsOfHexColour(0x2e, 0xcc, 0x71, 20.0);
    assert Amount(20.0) == 51;
    LightenColorShape(HexColour(0x2e, 0xcc, 0x71), 20.0);
  }
}
