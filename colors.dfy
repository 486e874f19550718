/** Wall colours: the per-material palette, the side tone and the
    per-channel brightness shift applied to a "#rrggbb" colour string. */
module Colors {

  datatype Option<T> = None | Some(value: T)

  predicate IsHexDigit(c: char) {
    '0' <= c <= '9' || 'a' <= c <= 'f' || 'A' <= c <= 'F'
  }

  /** A digit as toString(16) writes it: 0-9 or a-f, never A-F. */
  predicate IsLowerHexDigit(c: char) {
    '0' <= c <= '9' || 'a' <= c <= 'f'
  }

  predicate IsHex(s: string) {
    forall i :: 0 <= i < |s| ==> IsHexDigit(s[i])
  }

  function DigitValue(c: char): (v: nat)
    requires IsHexDigit(c)
    ensures v < 16
  {
    if c <= '9' then c as int - '0' as int
    else if c <= 'F' then c as int - 'A' as int + 10
    else c as int - 'a' as int + 10
  }

  /** The lower-case digit for a value below 16, as toString(16) writes it. */
  function HexDigit(d: nat): (c: char)
    requires d < 16
    ensures IsHexDigit(c) && IsLowerHexDigit(c) && DigitValue(c) == d
  {
    if d < 10 then ('0' as int + d) as char else ('a' as int + d - 10) as char
  }

  /** parseInt(s, 16) on a string made only of hex digits; a string of k
      digits encodes a number below 16^k. */
  function ParseHex(s: string): (v: nat)
    requires IsHex(s)
    ensures v < Pow16(|s|)
  {
    if s == [] then 0 else ParseHex(s[..|s| - 1]) * 16 + DigitValue(s[|s| - 1])
  }

  /** Number.prototype.toString(16) on a non-negative integer: the shortest
      lower-case hex numeral, with no leading zero. */
  function ToHexString(n: nat): (s: string)
    ensures 1 <= |s| && IsHex(s)
    ensures forall i :: 0 <= i < |s| ==> IsLowerHexDigit(s[i])
    ensures s[0] == '0' <==> n == 0
  {
    if n < 16 then [HexDigit(n)] else ToHexString(n / 16) + [HexDigit(n % 16)]
  }

  function Pow16(k: nat): (p: nat)
    ensures p >= 1
  {
    if k == 0 then 1 else 16 * Pow16(k - 1)
  }

  /** The last k hex digits of v, zero-padded on the left. */
  function PadHex(v: nat, k: nat): (s: string)
    ensures |s| == k && IsHex(s)
  {
    if k == 0 then [] else PadHex(v / 16, k - 1) + [HexDigit(v % 16)]
  }

  /** Reading back what toString(16) wrote gives the number again. */
  lemma {:induction false} ParseToHexString(n: nat)
    ensures ParseHex(ToHexString(n)) == n
  {
    var s := ToHexString(n);
    if n >= 16 {
      ParseToHexString(n / 16);
      assert s[..|s| - 1] == ToHexString(n / 16);
    }
  }

  /** A padded numeral reads back as the number it encodes. */
  lemma {:induction false} ParsePadHex(v: nat, k: nat)
    requires v < Pow16(k)
    ensures ParseHex(PadHex(v, k)) == v
  {
    if k > 0 {
      var s := PadHex(v, k);
      ParsePadHex(v / 16, k - 1);
      assert s[..|s| - 1] == PadHex(v / 16, k - 1);
    }
  }

  /** Writing hi * 16^k + lo in hex writes hi, then lo padded to k digits. */
  lemma {:induction false} ToHexStringSplit(hi: nat, lo: nat, k: nat)
    requires hi >= 1 && lo < Pow16(k)
    ensures ToHexString(hi * Pow16(k) + lo) == ToHexString(hi) + PadHex(lo, k)
  {
    if k > 0 {
      var _ := ShiftOneDigit(hi, lo, k);
      ToHexStringSplit(hi, lo / 16, k - 1);
    }
  }

  /** hi * 16^k + lo, with one hex digit taken off: the quotient is
      hi * 16^(k-1) + lo / 16, the last digit that of lo. */
  lemma ShiftOneDigit(hi: nat, lo: nat, k: nat) returns (m: nat)
    requires hi >= 1 && k >= 1 && lo < Pow16(k)
    ensures m == hi * Pow16(k - 1) && m >= 1
    ensures var n := hi * Pow16(k) + lo; n >= 16 && n / 16 == m + lo / 16 && n % 16 == lo % 16
    ensures lo / 16 < Pow16(k - 1)
  {
    var p := Pow16(k - 1);
    m := hi * p;
    assert hi * Pow16(k) == 16 * m by {
      assert Pow16(k) == 16 * p;
      assert hi * (16 * p) == 16 * (hi * p);
    }
    assert m >= p by {
      assert hi * p >= 1 * p;
    }
  }

  /** A colour string "#rrggbb". */
  predicate IsColor(s: string) {
    |s| == 7 && s[0] == '#' && IsHex(s[1..])
  }

  /** Six hex digits reach 0x1000000. */
  lemma Pow16Six()
    ensures Pow16(6) == 0x1000000
  {
    assert Pow16(2) == 0x100;
    assert Pow16(4) == 0x10000;
  }

  /** The 24-bit number behind a colour string. */
  function Rgb(color: string): (n: nat)
    requires IsColor(color)
    ensures n < 0x1000000
  {
    Pow16Six();
    ParseHex(color[1..])
  }

  /** (0x1000000 + v).toString(16) is a leading 1 followed by v as six
      zero-padded digits. */
  lemma LeadingOnePadded(v: nat)
    requires v < 0x1000000
    ensures ToHexString(0x1000000 + v) == ['1'] + PadHex(v, 6)
  {
    Pow16Six();
    ToHexStringSplit(1, v, 6);
    assert ToHexString(1) == ['1'];
  }

  function Red(color: string): nat requires IsColor(color) { Rgb(color) / 0x10000 }
  function Green(color: string): nat requires IsColor(color) { Rgb(color) / 0x100 % 0x100 }
  function Blue(color: string): nat requires IsColor(color) { Rgb(color) % 0x100 }

  /** Math.min(255, Math.max(0, v)). */
  function ClampChannel(v: int): int {
    if v < 0 then 0 else if v > 255 then 255 else v
  }

  lemma Channels(r: int, g: int, b: int)
    requires 0 <= r <= 255 && 0 <= g <= 255 && 0 <= b <= 255
    ensures var v := r * 0x10000 + g * 0x100 + b;
      v < 0x1000000 && v / 0x10000 == r && v / 0x100 % 0x100 == g && v % 0x100 == b
  {
  }

  /** A 24-bit number is its three channels put back together. */
  lemma Recombine(n: nat)
    requires n < 0x1000000
    ensures n == (n / 0x10000) * 0x10000 + (n / 0x100 % 0x100) * 0x100 + n % 0x100
  {
  }

  /** shadeColor: adds amt (the rounded 2.55 * percent * 100) to each of the
      three channels, clamps each to [0, 255], and writes the result back as
      '#' followed by six lower-case hex digits. For a 24-bit number,
      num >> 16 is num / 0x10000 and (num >> 8) & 0xFF is num / 0x100 % 0x100. */
  function ShadeColor(color: string, amt: int): (r: string)
    requires IsColor(color)
    ensures IsColor(r)
    ensures Red(r) == ClampChannel(Red(color) + amt)
    ensures Green(r) == ClampChannel(Green(color) + amt)
    ensures Blue(r) == ClampChannel(Blue(color) + amt)
    ensures r[1..] == PadHex(Rgb(r), 6)
  {
    var num := Rgb(color);
    var red := ClampChannel(num / 0x10000 + amt);
    var green := ClampChannel(num / 0x100 % 0x100 + amt);
    var blue := ClampChannel(num % 0x100 + amt);
    var v := red * 0x10000 + green * 0x100 + blue;
    Channels(red, green, blue);
    var hex := ToHexString(0x1000000 + v);
    LeadingOnePadded(v);
    assert hex[1..] == PadHex(v, 6);
    var r := "#" + hex[1..];
    assert r[1..] == PadHex(v, 6);
    Pow16Six();
    ParsePadHex(v, 6);
    assert Rgb(r) == v;
    r
  }

  /** The light and dark base tone of one wall material. */
  datatype Tones = Tones(light: string, dark: string)

  /** The wallColors table: materials 1 (red brick), 2 (grey stone),
      3 (brown wood) and 4 (blue metal); other ids have no entry. */
  function Palette(wallType: int): (t: Option<Tones>)
    ensures t.Some? <==> 1 <= wallType <= 4
  {
    match wallType
    case 1 => Some(Tones("#8B0000", "#5a0000"))
    case 2 => Some(Tones("#4a4a4a", "#2a2a2a"))
    case 3 => Some(Tones("#8B6914", "#5a4509"))
    case 4 => Some(Tones("#1a5490", "#0a3460"))
    case _ => None
  }

  /** Every palette entry holds two distinct well-formed colours. */
  lemma PaletteWellFormed(wallType: int)
    requires Palette(wallType).Some?
    ensures IsColor(Palette(wallType).value.light) && IsColor(Palette(wallType).value.dark)
    ensures Palette(wallType).value.light != Palette(wallType).value.dark
  {
    match wallType
    case 1 => Spelled('8', 'B', '0', '0', '0', '0'); Spelled('5', 'a', '0', '0', '0', '0');
    case 2 => Spelled('4', 'a', '4', 'a', '4', 'a'); Spelled('2', 'a', '2', 'a', '2', 'a');
    case 3 => Spelled('8', 'B', '6', '9', '1', '4'); Spelled('5', 'a', '4', '5', '0', '9');
    case 4 => Spelled('1', 'a', '5', '4', '9', '0'); Spelled('0', 'a', '3', '4', '6', '0');
  }

  /** '#' and six hex digits spell a colour. */
  lemma Spelled(a: char, b: char, c: char, d: char, e: char, f: char)
    requires IsHexDigit(a) && IsHexDigit(b) && IsHexDigit(c)
    requires IsHexDigit(d) && IsHexDigit(e) && IsHexDigit(f)
    ensures IsColor(['#', a, b, c, d, e, f])
  {
    var s := ['#', a, b, c, d, e, f];
    assert s[1..] == [a, b, c, d, e, f];
  }

  /** The base tone: the table entry, or material 1 for an unknown id;
      light when the ray crossed an x side (side 0), dark otherwise. */
  function BaseTone(wallType: int, side: int): (c: string)
    ensures IsColor(c)
  {
    var colors := if Palette(wallType).Some? then Palette(wallType).value else Palette(1).value;
    PaletteWellFormed(if Palette(wallType).Some? then wallType else 1);
    if side == 0 then colors.light else colors.dark
  }

  /** getWallColor, with the brightness already turned into the integer
      shift amt that shadeColor adds to every channel. */
  function GetWallColor(wallType: int, side: int, amt: int): (c: string)
    ensures IsColor(c)
  {
    ShadeColor(BaseTone(wallType, side), amt)
  }

  /** An id without a palette entry is drawn as material 1. */
  lemma UnknownMaterialFallsBack(wallType: int, side: int, amt: int)
    requires !(1 <= wallType <= 4)
    ensures GetWallColor(wallType, side, amt) == GetWallColor(1, side, amt)
  {
  }

  /** The light tone is chosen exactly when side is 0. */
  lemma LightToneIffSideZero(wallType: int, side: int)
    ensures var t := if 1 <= wallType <= 4 then Palette(wallType).value else Palette(1).value;
      (BaseTone(wallType, side) == t.light <==> side == 0)
      && (BaseTone(wallType, side) == t.dark <==> side != 0)
  {
  }

  /** A shift of 255 or more turns every channel of any colour to 255. */
  lemma ShadeSaturates(c: string, amt: int)
    requires IsColor(c) && amt >= 255
    ensures var r := ShadeColor(c, amt); Red(r) == 255 && Green(r) == 255 && Blue(r) == 255
    ensures Rgb(ShadeColor(c, amt)) == 0xffffff
  {
    var r := ShadeColor(c, amt);
    Recombine(Rgb(r));
  }

  /** The shift is added, not multiplied: once it reaches 255 every
      material and both sides come out as the same colour (white). */
  lemma FullShiftWashesOut(w1: int, s1: int, w2: int, s2: int, amt: int)
    requires amt >= 255
    ensures GetWallColor(w1, s1, amt) == GetWallColor(w2, s2, amt)
    ensures var c := GetWallColor(w1, s1, amt); Red(c) == 255 && Green(c) == 255 && Blue(c) == 255
  {
    var c1, c2 := GetWallColor(w1, s1, amt), GetWallColor(w2, s2, amt);
    ShadeSaturates(BaseTone(w1, s1), amt);
    ShadeSaturates(BaseTone(w2, s2), amt);
    assert c1[1..] == PadHex(0xffffff, 6) == c2[1..];
    assert c1 == c1[..1] + c1[1..];
    assert c2 == c2[..1] + c2[1..];
  }
}
