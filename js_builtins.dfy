/*
 * The JavaScript built-ins the colour parser relies on, modelled on values:
 * String.prototype.split with a one-character separator, the white-space
 * trimming that Number() applies to a string, Number() on an integer
 * literal, parseInt on a "0x"-prefixed string and Math.round.
 */
module JsBuiltins {

  datatype Option<T> = None | Some(value: T)

  /** A JavaScript Number, as far as this model computes it. */
  datatype JsNumber =
    | Whole(n: int)                 // an integral Number
    | Fraction(num: int, den: int)  // the exact quotient num / den, with den > 0, when it is not integral
    | Unparsed(text: string)        // the Number that Number() gives for text the model does not parse
                                    // (NaN, a decimal fraction, an exponent, a 0x form): left uncomputed

  /** `x` is the exact value num / den. */
  predicate Denotes(x: JsNumber, num: int, den: int)
  {
    match x
    case Whole(n) => n * den == num
    case Fraction(a, b) => b > 0 && a * den == num * b
    case Unparsed(_) => false
  }

  /** The Number num / den (JavaScript's `/` on two integers, computed exactly). */
  function Quotient(num: int, den: int): (q: JsNumber)
    requires den > 0
    ensures Denotes(q, num, den)
    ensures q.Whole? <==> num % den == 0
  {
    if num % den == 0 then Whole(num / den) else Fraction(num, den)
  }

  /** Math.round on the exact value num / den: the nearest integer, halves rounded up. */
  function RoundHalfUp(num: int, den: int): (r: int)
    requires den > 0
    ensures 2 * r * den <= 2 * num + den < 2 * (r + 1) * den
  {
    (2 * num + den) / (2 * den)
  }

  // ---------------------------------------------------------------- split

  /** JavaScript's `s.split(sep)` for a one-character separator, read one character
      at a time: a separator starts a new piece, any other character joins the first
      piece of the rest. */
  function Split(s: string, sep: char): (parts: seq<string>)
    ensures |parts| >= 1
  {
    if s == [] then [[]]
    else
      var rest := Split(s[1..], sep);
      if s[0] == sep then [[]] + rest else [[s[0]] + rest[0]] + rest[1..]
  }

  /** Array.prototype.join: the pieces with `sep` between neighbours. */
  function Join(parts: seq<string>, sep: char): string
    requires |parts| >= 1
  {
    if |parts| == 1 then parts[0] else parts[0] + [sep] + Join(parts[1..], sep)
  }

  /** No piece holds the separator. */
  lemma {:induction false} SplitPieces(s: string, sep: char)
    ensures forall k :: 0 <= k < |Split(s, sep)| ==> sep !in Split(s, sep)[k]
  {
    if s != [] {
      SplitPieces(s[1..], sep);
    }
  }

  /** Joining the pieces back with the separator gives the original string. */
  lemma {:induction false} JoinSplit(s: string, sep: char)
    ensures Join(Split(s, sep), sep) == s
  {
    if s != [] {
      var rest := Split(s[1..], sep);
      JoinSplit(s[1..], sep);
      if s[0] == sep {
        assert s == [sep] + s[1..];
      } else {
        JoinConsHead(s[0], rest, sep);
        assert s == [s[0]] + s[1..];
      }
    }
  }

  /** Prepending a character to the first piece prepends it to the joined string. */
  lemma JoinConsHead(c: char, parts: seq<string>, sep: char)
    requires |parts| >= 1
    ensures Join([[c] + parts[0]] + parts[1..], sep) == [c] + Join(parts, sep)
  {
    var parts' := [[c] + parts[0]] + parts[1..];
    if |parts| > 1 {
      assert parts'[1..] == parts[1..];
    }
  }

  /** A string without the separator is one piece. */
  lemma {:induction false} SplitWithout(s: string, sep: char)
    requires sep !in s
    ensures Split(s, sep) == [s]
  {
    if s != [] {
      SplitWithout(s[1..], sep);
      assert s == [s[0]] + s[1..];
    }
  }

  /** Splitting at the first separator: the piece before it, then the split of the rest. */
  lemma {:induction false} SplitAtFirst(a: string, sep: char, s: string)
    requires sep !in a
    ensures Split(a + [sep] + s, sep) == [a] + Split(s, sep)
  {
    var t := a + [sep] + s;
    if a == [] {
      assert t == [sep] + s;
      assert t[1..] == s;
    } else {
      assert t[1..] == a[1..] + [sep] + s;
      SplitAtFirst(a[1..], sep, s);
      assert a == [a[0]] + a[1..];
    }
  }

  /** `s.split(c)[0]`: the text before the first `c`, or all of `s`. */
  lemma {:induction false} SplitHead(s: string, c: char)
    ensures var h := Split(s, c)[0];
      h <= s && c !in h && (h == s || s[|h|] == c)
  {
    if s != [] {
      SplitHead(s[1..], c);
    }
  }

  // ---------------------------------------------------------------- white space

  /** The characters that Number() strips from both ends of a string
      (JavaScript's WhiteSpace and LineTerminator productions). */
  predicate IsWhiteSpace(c: char)
  {
    c == ' ' || c == '\t' || c == '\n' || c == '\r' || c == '\U{B}' || c == '\U{C}'
    || c == '\U{A0}' || c == '\U{1680}' || ('\U{2000}' <= c <= '\U{200A}')
    || c == '\U{2028}' || c == '\U{2029}' || c == '\U{202F}' || c == '\U{205F}'
    || c == '\U{3000}' || c == '\U{FEFF}'
  }

  predicate AllWhiteSpace(s: string)
  {
    forall i :: 0 <= i < |s| ==> IsWhiteSpace(s[i])
  }

  /** `s` with its leading white space removed. */
  function TrimStart(s: string): string
  {
    if s != [] && IsWhiteSpace(s[0]) then TrimStart(s[1..]) else s
  }

  /** TrimStart removes a run of white space from the front, and no more. */
  lemma {:induction false} TrimStartRemovesLeadingSpace(s: string)
    ensures var t := TrimStart(s);
      |t| <= |s| && t == s[|s| - |t|..] && AllWhiteSpace(s[..|s| - |t|])
      && (t == [] || !IsWhiteSpace(t[0]))
  {
    if s != [] && IsWhiteSpace(s[0]) {
      TrimStartRemovesLeadingSpace(s[1..]);
      var t := TrimStart(s);
      forall i | 0 <= i < |s| - |t| ensures IsWhiteSpace(s[i]) {
        if i > 0 { assert s[i] == s[1..][..|s| - 1 - |t|][i - 1]; }
      }
    }
  }

  /** `s` with its trailing white space removed. */
  function TrimEnd(s: string): string
  {
    if s != [] && IsWhiteSpace(s[|s| - 1]) then TrimEnd(s[..|s| - 1]) else s
  }

  /** TrimEnd removes a run of white space from the back, and no more. */
  lemma {:induction false} TrimEndRemovesTrailingSpace(s: string)
    ensures var t := TrimEnd(s);
      |t| <= |s| && t == s[..|t|] && AllWhiteSpace(s[|t|..])
      && (t == [] || !IsWhiteSpace(t[|t| - 1]))
  {
    if s != [] && IsWhiteSpace(s[|s| - 1]) {
      var s0 := s[..|s| - 1];
      TrimEndRemovesTrailingSpace(s0);
      var t := TrimEnd(s);
      forall i | |t| <= i < |s| ensures IsWhiteSpace(s[i]) {
        if i < |s| - 1 { assert s[i] == s0[|t|..][i - |t|]; }
      }
    }
  }

  function Trim(s: string): string
  {
    TrimEnd(TrimStart(s))
  }

  // ---------------------------------------------------------------- Number()

  predicate IsDigit(c: char)
  {
    '0' <= c <= '9'
  }

  /** A non-empty run of decimal digits. */
  predicate IsDigits(s: string)
  {
    |s| > 0 && forall i :: 0 <= i < |s| ==> IsDigit(s[i])
  }

  function DigitValue(c: char): nat
    requires IsDigit(c)
  {
    c as int - '0' as int
  }

  /** The value of a run of decimal digits, read most significant first. */
  function DecimalValue(s: string): (v: nat)
    requires forall i :: 0 <= i < |s| ==> IsDigit(s[i])
  {
    if s == [] then 0 else 10 * DecimalValue(s[..|s| - 1]) + DigitValue(s[|s| - 1])
  }

  /** Number(s) for a string, restricted to optionally signed decimal integer literals:
      surrounding white space is ignored and a blank string is 0; any other text is
      left uncomputed. */
  function ToNumber(s: string): JsNumber
  {
    var t := Trim(s);
    if t == [] then Whole(0)
    else if IsDigits(t) then Whole(DecimalValue(t))
    else if |t| > 1 && t[0] == '-' && IsDigits(t[1..]) then Whole(-(DecimalValue(t[1..]) as int))
    else if |t| > 1 && t[0] == '+' && IsDigits(t[1..]) then Whole(DecimalValue(t[1..]))
    else Unparsed(t)
  }

  /** Number() as modelled reads integers only: it never gives a fraction. */
  lemma NumberIsNotFraction(s: string)
    ensures !ToNumber(s).Fraction?
  {
  }

  /** Number() of a run of decimal digits is its decimal value. */
  lemma ToNumberDigits(t: string)
    requires IsDigits(t)
    ensures ToNumber(t) == Whole(DecimalValue(t))
  {
    assert !IsWhiteSpace(t[0]) && !IsWhiteSpace(t[|t| - 1]);
  }

  /** Number() ignores white space around a token: " 20" and "20" are the same Number. */
  lemma {:induction false} ToNumberIgnoresPadding(pad: string, t: string, pad': string)
    requires AllWhiteSpace(pad) && AllWhiteSpace(pad')
    ensures ToNumber(pad + t + pad') == ToNumber(t)
  {
    TrimPadding(pad, t, pad');
  }

  lemma {:induction false} TrimPadding(pad: string, t: string, pad': string)
    requires AllWhiteSpace(pad) && AllWhiteSpace(pad')
    ensures Trim(pad + t + pad') == Trim(t)
  {
    assert pad + t + pad' == pad + (t + pad');
    TrimStartPadding(pad, t + pad');
    TrimStartAppend(t, pad');
    if TrimStart(t) == [] {
      TrimStartPadding(pad', []);
      assert pad' + [] == pad';
      AllWhiteSpaceTrims(TrimStart(pad'));
    } else {
      TrimEndPadding(TrimStart(t), pad');
    }
  }

  lemma {:induction false} TrimStartPadding(pad: string, s: string)
    requires AllWhiteSpace(pad)
    ensures TrimStart(pad + s) == TrimStart(s)
  {
    if pad == [] {
      assert pad + s == s;
    } else {
      assert (pad + s)[0] == pad[0];
      assert (pad + s)[1..] == pad[1..] + s;
      assert AllWhiteSpace(pad[1..]) by {
        forall i | 0 <= i < |pad| - 1 ensures IsWhiteSpace(pad[1..][i]) {
          assert pad[1..][i] == pad[i + 1];
        }
      }
      TrimStartPadding(pad[1..], s);
    }
  }

  lemma {:induction false} TrimEndPadding(s: string, pad: string)
    requires AllWhiteSpace(pad)
    ensures TrimEnd(s + pad) == TrimEnd(s)
  {
    if pad == [] {
      assert s + pad == s;
    } else {
      var pad0 := pad[..|pad| - 1];
      assert (s + pad)[|s + pad| - 1] == pad[|pad| - 1];
      assert (s + pad)[..|s + pad| - 1] == s + pad0;
      assert AllWhiteSpace(pad0) by {
        forall i | 0 <= i < |pad0| ensures IsWhiteSpace(pad0[i]) {
          assert pad0[i] == pad[i];
        }
      }
      TrimEndPadding(s, pad0);
    }
  }

  /** Trimming the front of `t + x`: once `t` has a character that is not white space,
      `x` is kept whole; otherwise all of `t` goes. */
  lemma {:induction false} TrimStartAppend(t: string, x: string)
    ensures TrimStart(t + x) == if TrimStart(t) == [] then TrimStart(x) else TrimStart(t) + x
  {
    if t == [] {
      assert t + x == x;
    } else if IsWhiteSpace(t[0]) {
      assert (t + x)[0] == t[0];
      assert (t + x)[1..] == t[1..] + x;
      TrimStartAppend(t[1..], x);
    } else {
      assert (t + x)[0] == t[0];
    }
  }

  /** A string of white space trims away entirely. */
  lemma {:induction false} AllWhiteSpaceTrims(w: string)
    requires AllWhiteSpace(w)
    ensures TrimEnd(w) == []
  {
    if w != [] {
      var w0 := w[..|w| - 1];
      assert AllWhiteSpace(w0) by {
        forall i | 0 <= i < |w0| ensures IsWhiteSpace(w0[i]) {
          assert w0[i] == w[i];
        }
      }
      AllWhiteSpaceTrims(w0);
    }
  }

  // ---------------------------------------------------------------- parseInt("0x…")

  predicate IsHexDigit(c: char)
  {
    IsDigit(c) || ('a' <= c <= 'f') || ('A' <= c <= 'F')
  }

  function HexDigitValue(c: char): (v: nat)
    requires IsHexDigit(c)
    ensures v < 16
  {
    if IsDigit(c) then DigitValue(c)
    else if 'a' <= c <= 'f' then c as int - 'a' as int + 10
    else c as int - 'A' as int + 10
  }

  predicate AllHexDigits(s: string)
  {
    forall i :: 0 <= i < |s| ==> IsHexDigit(s[i])
  }

  function Pow16(n: nat): (p: nat)
    ensures p >= 1
  {
    if n == 0 then 1 else 16 * Pow16(n - 1)
  }

  /** The value of a run of hexadecimal digits, read most significant first. */
  function HexValue(s: string): (v: nat)
    requires AllHexDigits(s)
    ensures v < Pow16(|s|)
  {
    if s == [] then 0 else 16 * HexValue(s[..|s| - 1]) + HexDigitValue(s[|s| - 1])
  }

  /** The longest prefix of `s` made of hexadecimal digits. */
  function HexPrefix(s: string): (p: string)
    ensures p <= s && AllHexDigits(p)
    ensures |p| == |s| || !IsHexDigit(s[|p|])
    ensures AllHexDigits(s) ==> p == s
  {
    if s != [] && IsHexDigit(s[0]) then [s[0]] + HexPrefix(s[1..]) else []
  }

  /** parseInt("0x" + s): the hexadecimal digits at the front of `s`, or NaN (None) when
      there are none. */
  function ParseHexInt(s: string): (r: Option<nat>)
    ensures r.None? <==> (s == [] || !IsHexDigit(s[0]))
    ensures AllHexDigits(s) && s != [] ==> r == Some(HexValue(s))
  {
    var digits := HexPrefix(s);
    if digits == [] then None else Some(HexValue(digits))
  }

  /** The hex-digit prefix of `d + junk` is `d` when `junk` starts with another character. */
  lemma {:induction false} HexPrefixStops(d: string, junk: string)
    requires AllHexDigits(d) && junk != [] && !IsHexDigit(junk[0])
    ensures HexPrefix(d + junk) == d
    ensures ParseHexInt(d + junk) == ParseHexInt(d)
  {
    if d == [] {
      assert d + junk == junk;
    } else {
      assert (d + junk)[1..] == d[1..] + junk;
      assert AllHexDigits(d[1..]) by {
        forall i | 0 <= i < |d| - 1 ensures IsHexDigit(d[1..][i]) { assert d[1..][i] == d[i + 1]; }
      }
      HexPrefixStops(d[1..], junk);
      assert (d + junk)[0] == d[0];
    }
  }

  lemma AllHexDigitsConcat(a: string, b: string)
    requires AllHexDigits(a) && AllHexDigits(b)
    ensures AllHexDigits(a + b)
  {
    forall i | 0 <= i < |a + b| ensures IsHexDigit((a + b)[i]) {
      if i < |a| { assert (a + b)[i] == a[i]; } else { assert (a + b)[i] == b[i - |a|]; }
    }
  }

  /** Reading `a + b` is reading `a`, shifting it by |b| digits and adding `b`. */
  lemma {:induction false} HexValueAppend(a: string, b: string)
    requires AllHexDigits(a) && AllHexDigits(b)
    ensures AllHexDigits(a + b)
    ensures HexValue(a + b) == HexValue(a) * Pow16(|b|) + HexValue(b)
  {
    AllHexDigitsConcat(a, b);
    if b == [] {
      assert a + b == a;
    } else {
      var b0 := b[..|b| - 1];
      assert AllHexDigits(b0) by {
        forall i | 0 <= i < |b0| ensures IsHexDigit(b0[i]) {
          assert b0[i] == b[i];
        }
      }
      HexValueAppend(a, b0);
      HexValueLast(a + b);
      HexValueLast(b);
      assert (a + b)[..|a + b| - 1] == a + b0;
      assert (a + b)[|a + b| - 1] == b[|b| - 1];
      Distribute16(HexValue(a), Pow16(|b0|), HexValue(b0), HexDigitValue(b[|b| - 1]));
    }
  }

  lemma HexValueLast(s: string)
    requires AllHexDigits(s) && s != []
    ensures HexValue(s) == 16 * HexValue(s[..|s| - 1]) + HexDigitValue(s[|s| - 1])
  {
  }

  lemma Distribute16(ha: int, p: int, hb: int, d: int)
    ensures 16 * (ha * p + hb) + d == ha * (16 * p) + (16 * hb + d)
  {
  }
}
