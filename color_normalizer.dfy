/*
 * RGBAToHexA: turns a canvas fill style into a list of numeric channels
 * [r, g, b, a, ...]. A style that starts with '#' is read as one packed
 * hexadecimal integer; every other style is treated as functional notation
 * such as "rgba(10, 20, 30, 0.5)" or "rgba(10 20 30 / 0.5)".
 */
module ColorNormalizer {
  import opened JsBuiltins

  /** `style.indexOf('#') === 0`. */
  predicate IsHexStyle(style: string)
  {
    |style| > 0 && style[0] == '#'
  }

  // ---------------------------------------------------------------- hex branch

  const TwoTo32 := 0x1_0000_0000

  /** parseInt(style.replace('#', '0x')) as the 32-bit pattern that `&` sees:
      NaN becomes 0 and larger values wrap modulo 2^32. */
  function PackedBits(digits: string): (w: nat)
    ensures w < TwoTo32
  {
    match ParseHexInt(digits)
    case None => 0
    case Some(v) => v % TwoTo32
  }

  /** The eight bits of a 32-bit value starting at bit position log2(scale):
      `(num & (0xff * scale)) >>> log2(scale)` for scale 1, 2^8, 2^16 or 2^24. */
  function ByteAt(w: nat, scale: nat): (b: nat)
    requires scale > 0
    ensures b < 256
  {
    w / scale % 256
  }

  /** The hex branch: b from bits 0-7, g from bits 8-15, r from bits 16-23 and
      the alpha byte from bits 24-31 divided by 255. */
  function HexChannels(digits: string): seq<JsNumber>
  {
    var num := PackedBits(digits);
    var b := ByteAt(num, 1);
    var g := ByteAt(num, 0x100);
    var r := ByteAt(num, 0x1_0000);
    var a := ByteAt(num, 0x100_0000);
    [Whole(r), Whole(g), Whole(b), Quotient(a, 255)]
  }

  /** "#" and hex digits worth v < 2^32: r, g and b are bytes 2, 1 and 0 of v and
      the alpha is byte 3 divided by 255. */
  lemma HexStyleChannels(d: string)
    requires d != [] && AllHexDigits(d) && HexValue(d) < TwoTo32
    ensures var v := HexValue(d);
      Normalize("#" + d)
        == [Whole(v / 0x1_0000 % 256), Whole(v / 0x100 % 256), Whole(v % 256),
            Quotient(v / 0x100_0000 % 256, 255)]
  {
    NormalizeHex(d);
    HexChannelsOfValue(d);
  }

  lemma HexChannelsOfValue(d: string)
    requires d != [] && AllHexDigits(d) && HexValue(d) < TwoTo32
    ensures var v := HexValue(d);
      HexChannels(d)
        == [Whole(v / 0x1_0000 % 256), Whole(v / 0x100 % 256), Whole(v % 256),
            Quotient(v / 0x100_0000 % 256, 255)]
  {
    var v := HexValue(d);
    PackedWraps(d);
    assert v % TwoTo32 == v;
    HexChannelsOfPacked(d, v);
  }

  lemma HexChannelsOfPacked(d: string, w: nat)
    requires PackedBits(d) == w
    ensures HexChannels(d)
         == [Whole(w / 0x1_0000 % 256), Whole(w / 0x100 % 256), Whole(w % 256),
             Quotient(w / 0x100_0000 % 256, 255)]
  {
    assert ByteAt(w, 1) == w % 256;
  }

  /** With no hex digit after the '#', parseInt gives NaN and every channel is 0. */
  lemma HexWithoutDigits(rest: string)
    requires rest == [] || !IsHexDigit(rest[0])
    ensures Normalize("#" + rest) == [Whole(0), Whole(0), Whole(0), Whole(0)]
  {
    NormalizeHex(rest);
  }

  /** parseInt stops at the first character that is not a hex digit, so text after
      the digits is ignored. */
  lemma HexIgnoresTrailingText(d: string, junk: string)
    requires AllHexDigits(d) && junk != [] && !IsHexDigit(junk[0])
    ensures Normalize("#" + d + junk) == Normalize("#" + d)
  {
    HexPrefixStops(d, junk);
    assert PackedBits(d + junk) == PackedBits(d);
    assert HexChannels(d + junk) == HexChannels(d);
    assert "#" + d + junk == "#" + (d + junk);
    NormalizeHex(d + junk);
    NormalizeHex(d);
  }

  /** A value of nine or more hex digits wraps: the masks see it modulo 2^32. */
  lemma PackedWraps(d: string)
    requires d != [] && AllHexDigits(d)
    ensures PackedBits(d) == HexValue(d) % TwoTo32
  {
    assert ParseHexInt(d) == Some(HexValue(d));
  }

  /** A six-digit "#RRGGBB" gives the three pairs as r, g and b, and alpha 0:
      no alpha byte is present, so the high byte reads as 0. */
  lemma SixDigitHex(d: string)
    requires |d| == 6 && AllHexDigits(d)
    ensures Normalize("#" + d)
         == [Whole(HexValue(d[..2])), Whole(HexValue(d[2..4])), Whole(HexValue(d[4..])), Whole(0)]
  {
    NormalizeHex(d);
    HexChannelsSix(d);
  }

  lemma {:induction false} HexChannelsSix(d: string)
    requires |d| == 6 && AllHexDigits(d)
    ensures HexChannels(d)
         == [Whole(HexValue(d[..2])), Whole(HexValue(d[2..4])), Whole(HexValue(d[4..])), Whole(0)]
  {
    var rr, gg, bb := d[..2], d[2..4], d[4..];
    assert d == rr + gg + bb;
    HexSplit3(rr, gg, bb);
    var r, g, b := HexValue(rr), HexValue(gg), HexValue(bb);
    PackedSix(d);
    PackedChannels(d, 0, r, g, b);
  }

  /** Six digits fit below 2^24: the packed value is the digits' value itself. */
  lemma PackedSix(d: string)
    requires |d| == 6 && AllHexDigits(d)
    ensures PackedBits(d) == HexValue(d)
  {
    assert HexValue(d) < 0x100_0000 by {
      assert Pow16(6) == 0x100_0000 by { assert Pow16(2) == 0x100 && Pow16(4) == 0x1_0000; }
    }
    assert ParseHexInt(d) == Some(HexValue(d));
  }

  /** The channels of a packed value assembled from four bytes. */
  lemma PackedChannels(d: string, a: nat, r: nat, g: nat, b: nat)
    requires a < 256 && r < 256 && g < 256 && b < 256
    requires PackedBits(d) == a * 0x100_0000 + (r * 0x1_0000 + g * 0x100 + b)
    ensures HexChannels(d) == [Whole(r), Whole(g), Whole(b), Quotient(a, 255)]
  {
    Bytes4(a, r, g, b);
  }

  /** An eight-digit "#AARRGGBB": the first pair is the alpha byte (not the last pair,
      as CSS reads #RRGGBBAA). */
  lemma EightDigitHex(d: string)
    requires |d| == 8 && AllHexDigits(d)
    ensures Normalize("#" + d)
         == [Whole(HexValue(d[2..4])), Whole(HexValue(d[4..6])), Whole(HexValue(d[6..])),
             Quotient(HexValue(d[..2]), 255)]
  {
    NormalizeHex(d);
    HexChannelsEight(d);
  }

  lemma {:induction false} HexChannelsEight(d: string)
    requires |d| == 8 && AllHexDigits(d)
    ensures HexChannels(d)
         == [Whole(HexValue(d[2..4])), Whole(HexValue(d[4..6])), Whole(HexValue(d[6..])),
             Quotient(HexValue(d[..2]), 255)]
  {
    var rr, gg, bb := d[2..4], d[4..6], d[6..];
    AllHexDigitsPrefix(d, 2);
    assert d[2..] == rr + gg + bb;
    HexSplit3(rr, gg, bb);
    var a, r, g, b := HexValue(d[..2]), HexValue(rr), HexValue(gg), HexValue(bb);
    PackedEight(d);
    PackedChannels(d, a, r, g, b);
  }

  /** Eight digits: the first pair lands in the top byte, above the other six. */
  lemma PackedEight(d: string)
    requires |d| == 8 && AllHexDigits(d)
    ensures AllHexDigits(d[..2]) && AllHexDigits(d[2..])
    ensures PackedBits(d) == HexValue(d[..2]) * 0x100_0000 + HexValue(d[2..])
  {
    AllHexDigitsPrefix(d, 2);
    var hi, lo := HexValue(d[..2]), HexValue(d[2..]);
    assert HexValue(d) == hi * 0x100_0000 + lo by {
      assert d == d[..2] + d[2..];
      HexValueShift(d[..2], d[2..], 6, 0x100_0000);
    }
    assert HexValue(d) < TwoTo32 by {
      HexPairBound(d[..2]);
      assert lo < 0x100_0000 by {
        assert Pow16(6) == 0x100_0000 by { assert Pow16(2) == 0x100 && Pow16(4) == 0x1_0000; }
      }
      TopByteBound(hi, lo);
    }
    assert ParseHexInt(d) == Some(HexValue(d));
  }

  lemma TopByteBound(hi: nat, lo: nat)
    requires hi < 256 && lo < 0x100_0000
    ensures hi * 0x100_0000 + lo < TwoTo32
  {
  }

  /** A style starting with '#' takes the hex branch on the rest of the string. */
  lemma NormalizeHex(d: string)
    ensures Normalize("#" + d) == HexChannels(d)
  {
    assert IsHexStyle("#" + d) && ("#" + d)[1..] == d;
  }

  lemma AllHexDigitsPrefix(d: string, n: nat)
    requires AllHexDigits(d) && n <= |d|
    ensures AllHexDigits(d[..n]) && AllHexDigits(d[n..])
  {
    assert forall i :: 0 <= i < n ==> d[..n][i] == d[i];
    assert forall i :: 0 <= i < |d| - n ==> d[n..][i] == d[n + i];
  }

  /** Three pairs of hex digits read as one number. */
  lemma {:induction false} HexSplit3(rr: string, gg: string, bb: string)
    requires |rr| == |gg| == |bb| == 2
    requires AllHexDigits(rr + gg + bb)
    ensures AllHexDigits(rr) && AllHexDigits(gg) && AllHexDigits(bb)
    ensures HexValue(rr + gg + bb) == HexValue(rr) * 0x1_0000 + HexValue(gg) * 0x100 + HexValue(bb)
    ensures HexValue(rr) < 256 && HexValue(gg) < 256 && HexValue(bb) < 256
  {
    var d := rr + gg + bb;
    AllHexDigitsPrefix(d, 2);
    AllHexDigitsPrefix(d, 4);
    assert d[..2] == rr && d[..4] == rr + gg && d[4..] == bb;
    AllHexDigitsPrefix(rr + gg, 2);
    assert (rr + gg)[2..] == gg;
    HexValueShift(rr, gg, 2, 0x100);
    HexValueShift(rr + gg, bb, 2, 0x100);
    HexPairBound(rr);
    HexPairBound(gg);
    HexPairBound(bb);
  }

  /** HexValueAppend with the shift written out as a number. */
  lemma HexValueShift(a: string, b: string, n: nat, scale: nat)
    requires AllHexDigits(a) && AllHexDigits(b) && |b| == n
    requires (n == 2 && scale == 0x100) || (n == 6 && scale == 0x100_0000)
    ensures AllHexDigits(a + b)
    ensures HexValue(a + b) == HexValue(a) * scale + HexValue(b)
  {
    HexValueAppend(a, b);
    assert Pow16(2) == 0x100;
    assert Pow16(6) == 0x100_0000 by { assert Pow16(4) == 0x1_0000; }
  }

  lemma HexPairBound(p: string)
    requires AllHexDigits(p) && |p| == 2
    ensures HexValue(p) < 256
  {
    assert Pow16(2) == 0x100;
  }

  /** The four bytes of a w < 2^32 assembled from a, r, g and b come back out at
      the bit positions the hex branch reads. */
  lemma Bytes4(a: nat, r: nat, g: nat, b: nat)
    requires a < 256 && r < 256 && g < 256 && b < 256
    ensures var w := a * 0x100_0000 + (r * 0x1_0000 + g * 0x100 + b);
      w < TwoTo32 && ByteAt(w, 0x1_0000) == r && ByteAt(w, 0x100) == g && ByteAt(w, 1) == b
      && ByteAt(w, 0x100_0000) == a
  {
    var w := a * 0x100_0000 + (r * 0x1_0000 + g * 0x100 + b);
    DivMod(a, 0x100_0000, r * 0x1_0000 + g * 0x100 + b);
    DivMod(a * 0x100 + r, 0x1_0000, g * 0x100 + b);
    DivMod(a, 0x100, r);
    DivMod(a * 0x1_0000 + r * 0x100 + g, 0x100, b);
    DivMod(a * 0x100 + r, 0x100, g);
    DivMod(0, 256, a);
    assert w == (a * 0x100 + r) * 0x1_0000 + (g * 0x100 + b);
    assert w == (a * 0x1_0000 + r * 0x100 + g) * 0x100 + b;
    assert a * 0x1_0000 + r * 0x100 + g == (a * 0x100 + r) * 0x100 + g;
  }

  /** Division with remainder is unique. */
  lemma DivMod(q: int, m: int, r: int)
    requires m > 0 && 0 <= r < m
    ensures (q * m + r) / m == q && (q * m + r) % m == r
  {
    var w := q * m + r;
    var q', r' := w / m, w % m;
    assert w == q' * m + r';
    Distribute(q, q', m);
    if q > q' { MulAtLeast(q - q', m); }
    if q < q' { MulAtLeast(q' - q, m); Distribute(q', q, m); }
  }

  lemma Distribute(x: int, y: int, m: int)
    ensures (x - y) * m == x * m - y * m
  {
  }

  lemma MulAtLeast(k: int, m: int)
    requires k >= 1 && m > 0
    ensures k * m >= m
  {
  }

  // ---------------------------------------------------------------- functional branch

  /** The separator: ',' when the style has a comma anywhere, otherwise a single space. */
  function Separator(style: string): char
  {
    if ',' in style then ',' else ' '
  }

  /** `style.substr(5).split(')')[0]`: the text from index 5 up to the first ')'.
      Exactly five characters are dropped, whatever the function name. */
  function ComponentText(style: string): (t: string)
    ensures var rest := style[if |style| < 5 then |style| else 5..];
      t <= rest && ')' !in t && (t == rest || rest[|t|] == ')')
  {
    var rest := style[if |style| < 5 then |style| else 5..];
    SplitHead(rest, ')');
    Split(rest, ')')[0]
  }

  /** The component text split on the separator. */
  function Tokens(style: string): (parts: seq<string>)
    ensures |parts| >= 1
    ensures forall k :: 0 <= k < |parts| ==> Separator(style) !in parts[k]
  {
    SplitPieces(ComponentText(style), Separator(style));
    Split(ComponentText(style), Separator(style))
  }

  /** The tokens are the component text cut at every separator: joined back with the
      separator they give the text again. */
  lemma TokensRejoin(style: string)
    ensures Join(Tokens(style), Separator(style)) == ComponentText(style)
  {
    JoinSplit(ComponentText(style), Separator(style));
  }

  /** `if (rgba.indexOf('/') > -1) rgba.splice(3, 1)`: when some token is exactly "/",
      the token at position 3 is removed, whichever token that is. */
  function StripSlash(parts: seq<string>): (r: seq<string>)
    ensures "/" !in parts ==> r == parts
    ensures "/" in parts && |parts| > 3 ==>
      |r| == |parts| - 1 && r[..3] == parts[..3] && r[3..] == parts[4..]
    ensures |parts| <= 3 ==> r == parts
  {
    if "/" in parts && |parts| > 3 then parts[..3] + parts[4..] else parts
  }

  /** When some token is "/" the splice removes the token at position 3, whichever
      it is: that token is the one lost, and a "/" elsewhere survives. */
  lemma SpliceRemovesFourth(parts: seq<string>)
    requires "/" in parts && |parts| > 3
    ensures multiset(StripSlash(parts)) + multiset{parts[3]} == multiset(parts)
    ensures "/" in StripSlash(parts) <==> exists i :: 0 <= i < |parts| && i != 3 && parts[i] == "/"
  {
    var r := StripSlash(parts);
    assert parts == parts[..3] + [parts[3]] + parts[4..];
    if "/" in r {
      var j :| 0 <= j < |r| && r[j] == "/";
      if j < 3 { assert parts[j] == "/"; } else { assert parts[j + 1] == "/"; }
    }
    if exists i :: 0 <= i < |parts| && i != 3 && parts[i] == "/" {
      var i :| 0 <= i < |parts| && i != 3 && parts[i] == "/";
      if i < 3 { assert r[i] == "/"; } else { assert r[i - 1] == "/"; }
    }
  }

  /** The tokens that become channels. */
  function Components(style: string): seq<string>
  {
    StripSlash(Tokens(style))
  }

  /** The loop body: a token holding '%' is a percentage (its last character dropped,
      the rest read as a Number and divided by 100) scaled to 0-255 and rounded at
      positions 0-2, kept as the fraction at position 3 onwards; any other token is
      Number(token). */
  function ComponentValue(token: string, index: nat): (x: JsNumber)
  {
    if '%' in token then
      match ToNumber(token[..|token| - 1])
      case Whole(n) => if index < 3 then Whole(RoundHalfUp(n * 255, 100)) else Quotient(n, 100)
      case _ => Unparsed(Trim(token))
    else ToNumber(token)
  }

  /** Each token replaced by its Number, position by position. */
  function ComponentValues(parts: seq<string>): seq<JsNumber>
  {
    seq(|parts|, k requires 0 <= k < |parts| => ComponentValue(parts[k], k))
  }

  /** RGBAToHexA as a function of the fill style. */
  function Normalize(style: string): seq<JsNumber>
  {
    if IsHexStyle(style) then HexChannels(style[1..])
    else ComponentValues(Components(style))
  }

  /** The parser as the code runs it: the functional branch splices the token list
      and then overwrites every element with its Number in one pass. */
  method RGBAToHexA(style: string) returns (rgba: seq<JsNumber>)
    ensures rgba == Normalize(style)
    ensures IsHexStyle(style) ==> |rgba| == 4
    ensures !IsHexStyle(style) ==> |rgba| == |Components(style)|
  {
    if IsHexStyle(style) {
      return HexChannels(style[1..]);
    }
    var sep := if ',' in style then ',' else ' ';
    var rest := style[if |style| < 5 then |style| else 5..];
    var parts := Split(Split(rest, ')')[0], sep);
    assert parts == Tokens(style);
    if "/" in parts && |parts| > 3 {
      parts := parts[..3] + parts[4..];
    }
    assert parts == Components(style);
    ghost var numbers := ComponentValues(parts);
    var values := new JsNumber[|parts|];
    for k := 0 to |parts|
      invariant values[..k] == numbers[..k]
    {
      values[k] := ComponentValue(parts[k], k);
    }
    rgba := values[..];
    assert rgba == values[..|parts|];
  }

  // ---------------------------------------------------------------- properties

  /** A percentage token "n%" at positions 0-2 is round(n / 100 * 255), within 0..255
      for n in 0..100; from position 3 on it is n / 100 itself. */
  lemma {:induction false} PercentComponent(digits: string, index: nat)
    requires IsDigits(digits)
    ensures var n := DecimalValue(digits);
      ComponentValue(digits + "%", index)
        == if index < 3 then Whole(RoundHalfUp(n * 255, 100)) else Quotient(n, 100)
    ensures var n := DecimalValue(digits);
      index < 3 && n <= 100 ==> 0 <= ComponentValue(digits + "%", index).n <= 255
  {
    assert (digits + "%")[..|digits + "%"| - 1] == digits;
    assert '%' in digits + "%" by { assert (digits + "%")[|digits|] == '%'; }
  }

  /** A token of the functional notation: no separator, no ')' and not blank. */
  predicate IsPlainToken(t: string)
  {
    t != [] && ',' !in t && ' ' !in t && ')' !in t
  }

  /** Splitting four plain pieces joined by `sep`. */
  lemma {:induction false} SplitFour(t0: string, t1: string, t2: string, t3: string, sep: char)
    requires sep !in t0 && sep !in t1 && sep !in t2 && sep !in t3
    ensures Split(t0 + [sep] + t1 + [sep] + t2 + [sep] + t3, sep) == [t0, t1, t2, t3]
  {
    var s1 := t1 + [sep] + t2 + [sep] + t3;
    JoinedFour(t0, t1, t2, t3, sep);
    SplitThree(t1, t2, t3, sep);
    SplitAtFirst(t0, sep, s1);
  }

  lemma JoinedFour(t0: string, t1: string, t2: string, t3: string, sep: char)
    ensures t0 + [sep] + (t1 + [sep] + t2 + [sep] + t3) == t0 + [sep] + t1 + [sep] + t2 + [sep] + t3
  {
  }

  lemma {:induction false} SplitThree(t1: string, t2: string, t3: string, sep: char)
    requires sep !in t1 && sep !in t2 && sep !in t3
    ensures Split(t1 + [sep] + t2 + [sep] + t3, sep) == [t1, t2, t3]
  {
    var s2 := t2 + [sep] + t3;
    SplitTwo(t2, t3, sep);
    SplitAtFirst(t1, sep, s2);
    assert t1 + [sep] + s2 == t1 + [sep] + t2 + [sep] + t3;
  }

  lemma {:induction false} SplitTwo(t2: string, t3: string, sep: char)
    requires sep !in t2 && sep !in t3
    ensures Split(t2 + [sep] + t3, sep) == [t2, t3]
  {
    SplitWithout(t3, sep);
    SplitAtFirst(t2, sep, t3);
  }

  /** The component text of "xxxxx" + body + ")" is `body` when `body` has no ')'. */
  lemma {:induction false} ComponentTextOf(head: string, body: string)
    requires |head| == 5 && ')' !in body
    ensures ComponentText(head + body + ")") == body
  {
    var style := head + body + ")";
    assert style[5..] == body + [')'] + "";
    SplitAtFirst(body, ')', "");
  }

  /** A leading space changes no component: Number() ignores it, and so does the
      percentage branch. */
  lemma {:induction false} ComponentIgnoresLeadingSpace(t: string, index: nat)
    ensures ComponentValue(" " + t, index) == ComponentValue(t, index)
  {
    var padded := " " + t;
    assert AllWhiteSpace(" ") && AllWhiteSpace("");
    if '%' in t {
      assert '%' in padded by { assert padded[1..] == t; }
      assert ToNumber(padded[..|padded| - 1]) == ToNumber(t[..|t| - 1]) by {
        assert padded[..|padded| - 1] == " " + t[..|t| - 1] + "";
        ToNumberIgnoresPadding(" ", t[..|t| - 1], "");
      }
      assert Trim(padded) == Trim(t) by {
        assert padded == " " + t + "";
        TrimPadding(" ", t, "");
      }
    } else {
      assert '%' !in padded by { assert padded == [' '] + t; }
      assert ToNumber(padded) == ToNumber(t) by {
        assert padded == " " + t + "";
        ToNumberIgnoresPadding(" ", t, "");
      }
    }
  }

  /** An unsigned run of digits is a plain token whose value is its decimal value,
      however large: no channel is clamped to 0..255. */
  lemma IntegerComponent(t: string, index: nat)
    requires IsDigits(t)
    ensures IsPlainToken(t) && t != "/"
    ensures ComponentValue(t, index) == Whole(DecimalValue(t))
  {
    assert t[0] != '/';
    assert '%' !in t by { assert !IsDigit('%'); }
    assert !IsDigit(',') && !IsDigit(' ') && !IsDigit(')');
    ToNumberDigits(t);
  }

  /** Three comma-separated components give exactly three channels: no alpha is
      added when the style has none. */
  lemma {:induction false} NoDefaultAlpha(t0: string, t1: string, t2: string)
    requires IsPlainToken(t0) && IsPlainToken(t1) && IsPlainToken(t2)
    ensures Normalize("rgba(" + t0 + ", " + t1 + ", " + t2 + ")")
         == [ComponentValue(t0, 0), ComponentValue(t1, 1), ComponentValue(t2, 2)]
  {
    var style := "rgba(" + t0 + ", " + t1 + ", " + t2 + ")";
    assert style[0] == 'r';
    ThreeComponents(t0, t1, t2);
    ComponentIgnoresLeadingSpace(t1, 1);
    ComponentIgnoresLeadingSpace(t2, 2);
  }

  lemma {:induction false} ThreeComponents(t0: string, t1: string, t2: string)
    requires IsPlainToken(t0) && IsPlainToken(t1) && IsPlainToken(t2)
    ensures Components("rgba(" + t0 + ", " + t1 + ", " + t2 + ")") == [t0, " " + t1, " " + t2]
  {
    var style := "rgba(" + t0 + ", " + t1 + ", " + t2 + ")";
    var body := t0 + [','] + (" " + t1) + [','] + (" " + t2);
    assert style == "rgba(" + body + ")";
    assert ')' !in body;
    ComponentTextOf("rgba(", body);
    assert style[5 + |t0|] == ',';
    assert ',' !in " " + t1 && ',' !in " " + t2;
    SplitThree(t0, " " + t1, " " + t2, ',');
  }

  /** Exactly five characters are dropped, so "rgb(" loses the character after the
      parenthesis: "rgb(" + c + rest reads like "rgba(" + rest. */
  lemma RgbDropsFirstCharacter(c: char, rest: string)
    requires c != ','
    ensures Normalize("rgb(" + [c] + rest) == Normalize("rgba(" + rest)
  {
    var short, long := "rgb(" + [c] + rest, "rgba(" + rest;
    assert short[0] == 'r' && long[0] == 'r';
    assert short[5..] == rest && long[5..] == rest;
    assert Separator(short) == Separator(long) by {
      assert short == "rgb(" + [c] + rest && long == "rgba(" + rest;
    }
    assert ComponentText(short) == ComponentText(long);
  }

  /** "rgb(" followed by three integer percentages: the first character of the
      first percentage is lost and no alpha is added. So "rgb(50%, 50%, 50%)"
      (c = '5', first = "0") gives [0, 128, 128]. */
  lemma {:induction false} RgbPercentages(c: char, first: string, second: string, third: string)
    requires c != ',' && IsDigits(first) && IsDigits(second) && IsDigits(third)
    ensures Normalize("rgb(" + [c] + (first + "%, " + second + "%, " + third + "%)"))
         == [Whole(RoundHalfUp(DecimalValue(first) * 255, 100)),
             Whole(RoundHalfUp(DecimalValue(second) * 255, 100)),
             Whole(RoundHalfUp(DecimalValue(third) * 255, 100))]
  {
    var p0, p1, p2 := first + "%", second + "%", third + "%";
    var rest := first + "%, " + second + "%, " + third + "%)";
    RgbDropsFirstCharacter(c, rest);
    PercentList(first, second, third);
    PercentToken(first);
    PercentToken(second);
    PercentToken(third);
    NoDefaultAlpha(p0, p1, p2);
    PercentComponent(first, 0);
    PercentComponent(second, 1);
    PercentComponent(third, 2);
  }

  lemma PercentList(first: string, second: string, third: string)
    ensures "rgba(" + (first + "%, " + second + "%, " + third + "%)")
         == "rgba(" + (first + "%") + ", " + (second + "%") + ", " + (third + "%") + ")"
  {
  }

  lemma PercentToken(digits: string)
    requires IsDigits(digits)
    ensures IsPlainToken(digits + "%")
  {
    var t := digits + "%";
    assert t[|digits|] == '%';
    forall i | 0 <= i < |t| ensures t[i] != ',' && t[i] != ' ' && t[i] != ')' {
      if i < |digits| { assert t[i] == digits[i]; }
    }
  }

  /** The comma form "rgba(A, B, C, D)" and the slash form "rgba(A B C / D)" of one
      colour give the same four channels. */
  lemma CommaAndSlashFormsAgree(t0: string, t1: string, t2: string, t3: string)
    requires IsPlainToken(t0) && IsPlainToken(t1) && IsPlainToken(t2) && IsPlainToken(t3)
    requires t0 != "/"
    ensures var comma := "rgba(" + t0 + ", " + t1 + ", " + t2 + ", " + t3 + ")";
      var slash := "rgba(" + t0 + " " + t1 + " " + t2 + " / " + t3 + ")";
      Normalize(comma) == Normalize(slash)
      && Normalize(slash) == [ComponentValue(t0, 0), ComponentValue(t1, 1), ComponentValue(t2, 2),
                              ComponentValue(t3, 3)]
  {
    CommaFormChannels(t0, t1, t2, t3);
    SlashFormChannels(t0, t1, t2, t3);
  }

  lemma {:induction false} CommaFormChannels(t0: string, t1: string, t2: string, t3: string)
    requires IsPlainToken(t0) && IsPlainToken(t1) && IsPlainToken(t2) && IsPlainToken(t3)
    requires t0 != "/"
    ensures Normalize("rgba(" + t0 + ", " + t1 + ", " + t2 + ", " + t3 + ")")
         == [ComponentValue(t0, 0), ComponentValue(t1, 1), ComponentValue(t2, 2), ComponentValue(t3, 3)]
  {
    var comma := "rgba(" + t0 + ", " + t1 + ", " + t2 + ", " + t3 + ")";
    CommaFormComponents(t0, t1, t2, t3);
    FunctionalChannels(comma, [t0, " " + t1, " " + t2, " " + t3]);
    ComponentIgnoresLeadingSpace(t1, 1);
    ComponentIgnoresLeadingSpace(t2, 2);
    ComponentIgnoresLeadingSpace(t3, 3);
  }

  lemma {:induction false} SlashFormChannels(t0: string, t1: string, t2: string, t3: string)
    requires IsPlainToken(t0) && IsPlainToken(t1) && IsPlainToken(t2) && IsPlainToken(t3)
    ensures Normalize("rgba(" + t0 + " " + t1 + " " + t2 + " / " + t3 + ")")
         == [ComponentValue(t0, 0), ComponentValue(t1, 1), ComponentValue(t2, 2), ComponentValue(t3, 3)]
  {
    var slash := "rgba(" + t0 + " " + t1 + " " + t2 + " / " + t3 + ")";
    SlashFormComponents(t0, t1, t2, t3);
    FunctionalChannels(slash, [t0, t1, t2, t3]);
  }

  /** A style that does not start with '#' gives one value per component. */
  lemma FunctionalChannels(style: string, parts: seq<string>)
    requires |style| > 0 && style[0] != '#'
    requires Components(style) == parts && |parts| == 4
    ensures Normalize(style)
         == [ComponentValue(parts[0], 0), ComponentValue(parts[1], 1), ComponentValue(parts[2], 2),
             ComponentValue(parts[3], 3)]
  {
    assert !IsHexStyle(style);
    ComponentValuesFour(parts);
  }

  lemma ComponentValuesFour(parts: seq<string>)
    requires |parts| == 4
    ensures ComponentValues(parts)
         == [ComponentValue(parts[0], 0), ComponentValue(parts[1], 1), ComponentValue(parts[2], 2),
             ComponentValue(parts[3], 3)]
  {
    var v := ComponentValues(parts);
    assert v[0] == ComponentValue(parts[0], 0) && v[1] == ComponentValue(parts[1], 1);
    assert v[2] == ComponentValue(parts[2], 2) && v[3] == ComponentValue(parts[3], 3);
  }

  /** In the comma form every token after the first keeps its leading space. */
  lemma {:induction false} CommaFormComponents(t0: string, t1: string, t2: string, t3: string)
    requires IsPlainToken(t0) && IsPlainToken(t1) && IsPlainToken(t2) && IsPlainToken(t3)
    requires t0 != "/"
    ensures Components("rgba(" + t0 + ", " + t1 + ", " + t2 + ", " + t3 + ")")
         == [t0, " " + t1, " " + t2, " " + t3]
  {
    var comma := "rgba(" + t0 + ", " + t1 + ", " + t2 + ", " + t3 + ")";
    var body := t0 + [','] + (" " + t1) + [','] + (" " + t2) + [','] + (" " + t3);
    assert comma == "rgba(" + body + ")";
    assert ')' !in body;
    ComponentTextOf("rgba(", body);
    assert comma[5 + |t0|] == ',';
    assert Separator(comma) == ',';
    assert ',' !in " " + t1 && ',' !in " " + t2 && ',' !in " " + t3;
    SplitFour(t0, " " + t1, " " + t2, " " + t3, ',');
    assert Tokens(comma) == [t0, " " + t1, " " + t2, " " + t3];
    assert " " + t1 != "/" && " " + t2 != "/" && " " + t3 != "/";
  }

  /** In the slash form the "/" token sits at position 3, so it is the one removed. */
  lemma {:induction false} SlashFormComponents(t0: string, t1: string, t2: string, t3: string)
    requires IsPlainToken(t0) && IsPlainToken(t1) && IsPlainToken(t2) && IsPlainToken(t3)
    ensures Components("rgba(" + t0 + " " + t1 + " " + t2 + " / " + t3 + ")") == [t0, t1, t2, t3]
  {
    SlashFormTokens(t0, t1, t2, t3);
    assert StripSlash([t0, t1, t2, "/", t3]) == [t0, t1, t2, t3];
  }

  /** The slash form splits into five tokens, "/" fourth. */
  lemma {:induction false} SlashFormTokens(t0: string, t1: string, t2: string, t3: string)
    requires IsPlainToken(t0) && IsPlainToken(t1) && IsPlainToken(t2) && IsPlainToken(t3)
    ensures Tokens("rgba(" + t0 + " " + t1 + " " + t2 + " / " + t3 + ")") == [t0, t1, t2, "/", t3]
  {
    var slash := "rgba(" + t0 + " " + t1 + " " + t2 + " / " + t3 + ")";
    var tail := t1 + [' '] + t2 + [' '] + "/" + [' '] + t3;
    var body := t0 + [' '] + tail;
    assert slash == "rgba(" + body + ")";
    assert ')' !in body;
    ComponentTextOf("rgba(", body);
    assert Separator(slash) == ' ' by { assert ',' !in slash; }
    assert Split(tail, ' ') == [t1, t2, "/", t3] by {
      SplitFour(t1, t2, "/", t3, ' ');
    }
    assert Split(body, ' ') == [t0] + Split(tail, ' ') by {
      SplitAtFirst(t0, ' ', tail);
    }
    assert [t0] + [t1, t2, "/", t3] == [t0, t1, t2, "/", t3];
  }

  /** With the "/" second, "rgba(A / B C D)", the splice still removes position 3:
      C is lost and the "/" stays, read as NaN at position 1. */
  lemma {:induction false} MisplacedSlash(t0: string, t1: string, t2: string, t3: string)
    requires IsPlainToken(t0) && IsPlainToken(t1) && IsPlainToken(t2) && IsPlainToken(t3)
    ensures var style := "rgba(" + t0 + " / " + t1 + " " + t2 + " " + t3 + ")";
      Components(style) == [t0, "/", t1, t3]
      && Normalize(style) == [ComponentValue(t0, 0), Unparsed("/"), ComponentValue(t1, 2),
                              ComponentValue(t3, 3)]
  {
    var style := "rgba(" + t0 + " / " + t1 + " " + t2 + " " + t3 + ")";
    MisplacedSlashTokens(t0, t1, t2, t3);
    assert StripSlash([t0, "/", t1, t2, t3]) == [t0, "/", t1, t3];
    FunctionalChannels(style, [t0, "/", t1, t3]);
    assert ComponentValue("/", 1) == Unparsed("/") by {
      assert '%' !in "/" && !IsWhiteSpace('/') && !IsDigit('/');
      assert Trim("/") == "/";
    }
  }

  /** "rgba(A / B C D)" splits into five tokens, "/" second. */
  lemma {:induction false} MisplacedSlashTokens(t0: string, t1: string, t2: string, t3: string)
    requires IsPlainToken(t0) && IsPlainToken(t1) && IsPlainToken(t2) && IsPlainToken(t3)
    ensures Tokens("rgba(" + t0 + " / " + t1 + " " + t2 + " " + t3 + ")") == [t0, "/", t1, t2, t3]
  {
    var style := "rgba(" + t0 + " / " + t1 + " " + t2 + " " + t3 + ")";
    var tail := "/" + [' '] + t1 + [' '] + t2 + [' '] + t3;
    var body := t0 + [' '] + tail;
    assert style == "rgba(" + body + ")";
    assert ')' !in body;
    ComponentTextOf("rgba(", body);
    assert Separator(style) == ' ' by { assert ',' !in style; }
    assert Split(tail, ' ') == ["/", t1, t2, t3] by {
      SplitFour("/", t1, t2, t3, ' ');
    }
    assert Split(body, ' ') == [t0] + Split(tail, ' ') by {
      SplitAtFirst(t0, ' ', tail);
    }
    assert [t0] + ["/", t1, t2, t3] == [t0, "/", t1, t2, t3];
  }

  /** A style of at most five characters not starting with '#' leaves no component
      text: one empty token, whose Number is 0. */
  lemma ShortStyle(style: string)
    requires 0 < |style| <= 5 && style[0] != '#'
    ensures Normalize(style) == [Whole(0)]
  {
    assert style[if |style| < 5 then |style| else 5..] == [];
    assert Split([], ')') == [[]] && Split([], Separator(style)) == [[]];
    assert Components(style) == [[]];
    assert ComponentValue([], 0) == Whole(0) by { assert Trim([]) == []; }
  }

  /** Channels 0-2 are never fractions: the hex branch gives integers, and a
      percentage at positions 0-2 is rounded. Only the alpha can be a fraction. */
  lemma ColourChannelsAreNotFractions(style: string)
    ensures var rgba := Normalize(style);
      forall j :: 0 <= j < 3 && j < |rgba| ==> !rgba[j].Fraction?
  {
    if !IsHexStyle(style) {
      var parts := Components(style);
      forall j | 0 <= j < 3 && j < |parts|
        ensures !ComponentValue(parts[j], j).Fraction?
      {
        NumberIsNotFraction(parts[j]);
        if '%' in parts[j] {
          NumberIsNotFraction(parts[j][..|parts[j]| - 1]);
        }
      }
    }
  }
}
