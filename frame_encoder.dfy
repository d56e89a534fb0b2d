/*
 * The frame-buffer encoder inside sendToRetroFrame: for every cell of a
 * frame's grid, in order, the cell's channels are pushed as (b, g, r, 1) onto
 * a plain list, and the list is then handed to `new Uint8Array(...)`, which
 * turns each entry into one byte.
 */
module FrameEncoder {
  import opened JsBuiltins
  import opened ColorNormalizer

  newtype byte = x: int | 0 <= x < 256

  /** A grid cell's fill style: no style at all (null or undefined), or a string. */
  datatype Cell = Empty | Fill(style: string)

  /** One animation frame: its grid of cells in pixel order. */
  datatype Frame = Frame(grid: seq<Cell>)

  /** `!fillStyle`: a missing style and the empty string are both falsy. */
  predicate IsFalsy(cell: Cell)
  {
    cell.Empty? || cell.style == ""
  }

  /** The channels of a cell: [0, 0, 0, 0] for a falsy style (the parser is not
      called), otherwise what RGBAToHexA gives. */
  function CellChannels(cell: Cell): seq<JsNumber>
  {
    if IsFalsy(cell) then [Whole(0), Whole(0), Whole(0), Whole(0)] else Normalize(cell.style)
  }

  /** `rgba[i]`: undefined (None) past the end of the list. */
  function Element(rgba: seq<JsNumber>, i: nat): Option<JsNumber>
  {
    if i < |rgba| then Some(rgba[i]) else None
  }

  /** `buf.push(rgba[2], rgba[1], rgba[0], 1)`: the four entries one cell adds. */
  function CellPush(rgba: seq<JsNumber>): seq<Option<JsNumber>>
  {
    [Element(rgba, 2), Element(rgba, 1), Element(rgba, 0), Some(Whole(1))]
  }

  /** Math.trunc(num / den): the quotient rounded toward zero. */
  function Truncate(num: int, den: int): (t: int)
    requires den > 0
    ensures num >= 0 ==> t == num / den
    ensures num <= 0 ==> t <= 0
  {
    if num >= 0 then num / den else -((-num) / den)
  }

  /** Truncation rounds toward zero: for a negative quotient it is the ceiling. */
  lemma TruncateTowardZero(num: int, den: int)
    requires den > 0
    ensures var t := Truncate(num, den);
      (num >= 0 ==> t * den <= num < (t + 1) * den)
      && (num < 0 ==> (t - 1) * den < num <= t * den)
  {
    var q := (if num >= 0 then num else -num) / den;
    var r := (if num >= 0 then num else -num) % den;
    assert (if num >= 0 then num else -num) == q * den + r && 0 <= r < den;
    if num < 0 {
      assert Truncate(num, den) == -q;
      assert -q * den == num + r;
    }
  }

  /** The byte that a Uint8Array stores for one list entry (ToUint8): the integer
      part modulo 256; undefined and unparsed text give 0. */
  function ToUint8(x: Option<JsNumber>): (b: byte)
    ensures x.None? ==> b == 0
    ensures x.Some? && x.value.Whole? ==> (b as int - x.value.n) % 256 == 0
    ensures x.Some? && x.value.Whole? && 0 <= x.value.n < 256 ==> b as int == x.value.n
    ensures x.Some? && x.value.Fraction? && x.value.den > 0 ==>
      (b as int - Truncate(x.value.num, x.value.den)) % 256 == 0
  {
    match x
    case None => 0
    case Some(Whole(n)) => LowByte(n)
    case Some(Fraction(num, den)) => if den > 0 then LowByte(Truncate(num, den)) else 0
    case Some(Unparsed(_)) => 0
  }

  /** An integer modulo 256, as ToUint8 takes it. */
  function LowByte(n: int): (b: byte)
    ensures (b as int - n) % 256 == 0
    ensures 0 <= n < 256 ==> b as int == n
  {
    assert n == n / 256 * 256 + n % 256;
    (n % 256) as byte
  }

  /** `new Uint8Array(buf)`: one byte per list entry, in order. */
  function Bytes(buf: seq<Option<JsNumber>>): (body: seq<byte>)
    ensures |body| == |buf|
  {
    if buf == [] then [] else Bytes(buf[..|buf| - 1]) + [ToUint8(buf[|buf| - 1])]
  }

  /** The channels of every cell, in pixel order. */
  function GridChannels(grid: seq<Cell>): (rgbas: seq<seq<JsNumber>>)
    ensures |rgbas| == |grid|
  {
    seq(|grid|, i requires 0 <= i < |grid| => CellChannels(grid[i]))
  }

  /** The list that cells with these channels push, in order. */
  function Pushes(rgbas: seq<seq<JsNumber>>): (buf: seq<Option<JsNumber>>)
    ensures |buf| == 4 * |rgbas|
  {
    if rgbas == [] then []
    else Pushes(rgbas[..|rgbas| - 1]) + CellPush(rgbas[|rgbas| - 1])
  }

  /** The request body for one frame. */
  function FrameBytes(grid: seq<Cell>): (body: seq<byte>)
    ensures |body| == 4 * |grid|
  {
    Bytes(Pushes(GridChannels(grid)))
  }

  /** The four bytes of one cell. */
  function CellBytes(cell: Cell): seq<byte>
  {
    Bytes(CellPush(CellChannels(cell)))
  }

  /** The encoder as the code runs it: a loop over the grid pushing four entries
      per cell, then the conversion of the whole list to bytes. */
  method EncodeFrame(grid: seq<Cell>) returns (body: seq<byte>)
    ensures body == FrameBytes(grid)
    ensures |body| == 4 * |grid|
  {
    ghost var channels := GridChannels(grid);
    var buf: seq<Option<JsNumber>> := [];
    for i := 0 to |grid|
      invariant buf == Pushes(channels[..i])
      invariant |buf| == 4 * i
    {
      buf := PushCell(buf, grid[i]);
      assert channels[..i + 1][..i] == channels[..i];
      assert Pushes(channels[..i + 1]) == Pushes(channels[..i]) + CellPush(channels[i]);
    }
    assert channels[..|grid|] == channels;
    body := NewUint8Array(buf);
  }

  /** The grid callback: the parser is called only on a truthy style, and the
      cell's four entries are pushed onto the list. */
  method PushCell(buf: seq<Option<JsNumber>>, cell: Cell) returns (next: seq<Option<JsNumber>>)
    ensures next == buf + CellPush(CellChannels(cell))
  {
    var rgba: seq<JsNumber>;
    if IsFalsy(cell) {
      rgba := [Whole(0), Whole(0), Whole(0), Whole(0)];
    } else {
      rgba := RGBAToHexA(cell.style);
    }
    next := buf + CellPush(rgba);
  }

  /** `new Uint8Array(buf)`: a fresh byte array filled entry by entry. */
  method NewUint8Array(buf: seq<Option<JsNumber>>) returns (body: seq<byte>)
    ensures body == Bytes(buf)
  {
    var bytes := new byte[|buf|];
    for k := 0 to |buf|
      invariant bytes[..k] == Bytes(buf[..k])
    {
      bytes[k] := ToUint8(buf[k]);
      assert buf[..k + 1][..k] == buf[..k];
    }
    assert buf[..|buf|] == buf;
    body := bytes[..];
    assert body == bytes[..|buf|];
  }

  // ---------------------------------------------------------------- properties

  /** The buffer has four bytes per cell, and cell i fills bytes 4i..4i+3. */
  lemma FrameLayout(grid: seq<Cell>)
    ensures forall i :: 0 <= i < |grid| ==> FrameBytes(grid)[4 * i..4 * i + 4] == CellBytes(grid[i])
  {
    forall i | 0 <= i < |grid|
      ensures FrameBytes(grid)[4 * i..4 * i + 4] == CellBytes(grid[i])
    {
      CellSlice(grid, i);
    }
  }

  lemma CellSlice(grid: seq<Cell>, i: nat)
    requires i < |grid|
    ensures FrameBytes(grid)[4 * i..4 * i + 4] == CellBytes(grid[i])
  {
    var rgbas := GridChannels(grid);
    PushLayout(rgbas, i);
    BytesSlice(Pushes(rgbas), 4 * i, 4 * i + 4);
    assert rgbas[i] == CellChannels(grid[i]);
  }

  /** Cell i pushes entries 4i..4i+3 of the list. */
  lemma {:induction false} PushLayout(rgbas: seq<seq<JsNumber>>, i: nat)
    requires i < |rgbas|
    ensures Pushes(rgbas)[4 * i..4 * i + 4] == CellPush(rgbas[i])
  {
    var n := |rgbas| - 1;
    var init := rgbas[..n];
    var pre, last := Pushes(init), CellPush(rgbas[n]);
    assert Pushes(rgbas) == pre + last;
    if i < n {
      PushLayout(init, i);
      assert init[i] == rgbas[i];
      SliceLeft(pre, last, 4 * i, 4 * i + 4);
    } else {
      SliceRight(pre, last);
    }
  }

  lemma SliceLeft<T>(a: seq<T>, b: seq<T>, lo: nat, hi: nat)
    requires lo <= hi <= |a|
    ensures (a + b)[lo..hi] == a[lo..hi]
  {
  }

  lemma SliceRight<T>(a: seq<T>, b: seq<T>)
    ensures (a + b)[|a|..|a| + |b|] == b
  {
  }

  /** Each entry of the list becomes the byte at the same position. */
  lemma {:induction false} BytesAt(buf: seq<Option<JsNumber>>, k: nat)
    requires k < |buf|
    ensures Bytes(buf)[k] == ToUint8(buf[k])
  {
    if k < |buf| - 1 {
      BytesAt(buf[..|buf| - 1], k);
    }
  }

  lemma {:induction false} BytesSlice(buf: seq<Option<JsNumber>>, lo: nat, hi: nat)
    requires lo <= hi <= |buf|
    ensures Bytes(buf)[lo..hi] == Bytes(buf[lo..hi])
  {
    forall k | 0 <= k < hi - lo
      ensures Bytes(buf)[lo..hi][k] == Bytes(buf[lo..hi])[k]
    {
      BytesAt(buf, lo + k);
      BytesAt(buf[lo..hi], k);
    }
  }

  lemma BytesAppend(a: seq<Option<JsNumber>>, b: seq<Option<JsNumber>>)
    ensures Bytes(a + b) == Bytes(a) + Bytes(b)
  {
    forall k | 0 <= k < |a| + |b|
      ensures Bytes(a + b)[k] == (Bytes(a) + Bytes(b))[k]
    {
      BytesAt(a + b, k);
      if k < |a| { BytesAt(a, k); } else { BytesAt(b, k - |a|); }
    }
  }

  /** Appending a cell to the grid appends that cell's four bytes to the buffer. */
  lemma FrameBytesAppend(grid: seq<Cell>, cell: Cell)
    ensures FrameBytes(grid + [cell]) == FrameBytes(grid) + CellBytes(cell)
  {
    var rgbas := GridChannels(grid + [cell]);
    assert rgbas[..|grid|] == GridChannels(grid);
    assert Pushes(rgbas) == Pushes(GridChannels(grid)) + CellPush(CellChannels(cell));
    BytesAppend(Pushes(GridChannels(grid)), CellPush(CellChannels(cell)));
  }

  /** Every fourth byte, the one after b, g and r, is 1, whatever the parsed alpha. */
  lemma AlphaByteIsOne(grid: seq<Cell>, i: nat)
    requires i < |grid|
    ensures FrameBytes(grid)[4 * i + 3] == 1
  {
    FrameLayout(grid);
    assert FrameBytes(grid)[4 * i + 3] == FrameBytes(grid)[4 * i..4 * i + 4][3];
    assert CellBytes(grid[i])[3] == ToUint8(Some(Whole(1)));
  }

  /** A cell's bytes are its first three channels in reverse order, each taken
      modulo 256, with 0 for a channel the parser did not produce. */
  lemma CellBytesOrder(cell: Cell)
    ensures var rgba := CellChannels(cell);
      CellBytes(cell) == [ToUint8(Element(rgba, 2)), ToUint8(Element(rgba, 1)),
                          ToUint8(Element(rgba, 0)), 1]
  {
    BytesOfFour(CellPush(CellChannels(cell)));
  }

  /** A falsy cell encodes as black: [0, 0, 0, 1]. */
  lemma EmptyCellBytes(cell: Cell)
    requires IsFalsy(cell)
    ensures CellBytes(cell) == [0, 0, 0, 1]
  {
    CellBytesOrder(cell);
  }

  /** A channel the parser did not produce reads as undefined, which the typed
      array stores as 0: byte k holds channel 2 - k. */
  lemma MissingChannelsAreZero(cell: Cell)
    ensures var rgba := CellChannels(cell);
      forall k :: 0 <= k <= 2 - |rgba| ==> CellBytes(cell)[k] == 0
  {
    CellBytesOrder(cell);
  }

  /** A style of at most five characters that does not start with '#', such as the
      named colour "red", has no component text: it gives the single channel 0 and
      encodes as [0, 0, 0, 1], its missing channels read as undefined. */
  lemma ShortStyleBytes(style: string)
    requires 0 < |style| <= 5 && style[0] != '#'
    ensures CellBytes(Fill(style)) == [0, 0, 0, 1]
  {
    ShortStyle(style);
    CellBytesOrder(Fill(style));
  }

  /** Only the first three channels reach the bytes, and none of them is ever a
      fraction: the truncation of `Uint8Array` never applies to a pushed channel. */
  lemma PushedChannelsAreNotFractions(cell: Cell)
    ensures var rgba := CellChannels(cell);
      forall j :: 0 <= j < 3 && j < |rgba| ==> !rgba[j].Fraction?
  {
    if !IsFalsy(cell) {
      ColourChannelsAreNotFractions(cell.style);
    }
  }

  /** The bytes of a four-entry list. */
  lemma BytesOfFour(p: seq<Option<JsNumber>>)
    requires |p| == 4
    ensures Bytes(p) == [ToUint8(p[0]), ToUint8(p[1]), ToUint8(p[2]), ToUint8(p[3])]
  {
    BytesAt(p, 0);
    BytesAt(p, 1);
    BytesAt(p, 2);
    BytesAt(p, 3);
  }

  /** A cell whose first three channels are integers in 0..255 encodes as
      [b, g, r, 1]. */
  lemma ByteChannels(cell: Cell, r: int, g: int, b: int, alpha: JsNumber)
    requires CellChannels(cell) == [Whole(r), Whole(g), Whole(b), alpha]
    requires 0 <= r < 256 && 0 <= g < 256 && 0 <= b < 256
    ensures CellBytes(cell) == [b as byte, g as byte, r as byte, 1]
  {
    CellBytesOrder(cell);
  }

  /** A cell "#RRGGBB" encodes as [BB, GG, RR, 1]. */
  lemma HexCellBytes(d: string)
    requires |d| == 6 && AllHexDigits(d)
    ensures CellBytes(Fill("#" + d))
         == [HexValue(d[4..]) as byte, HexValue(d[2..4]) as byte, HexValue(d[..2]) as byte, 1]
  {
    SixDigitHex(d);
    HexPairsBound(d);
    ByteChannels(Fill("#" + d), HexValue(d[..2]), HexValue(d[2..4]), HexValue(d[4..]), Whole(0));
  }

  lemma HexPairsBound(d: string)
    requires |d| == 6 && AllHexDigits(d)
    ensures AllHexDigits(d[..2]) && AllHexDigits(d[2..4]) && AllHexDigits(d[4..])
    ensures HexValue(d[..2]) < 256 && HexValue(d[2..4]) < 256 && HexValue(d[4..]) < 256
  {
    AllHexDigitsPrefix(d, 2);
    AllHexDigitsPrefix(d, 4);
    AllHexDigitsPrefix(d[2..], 2);
    assert d[2..][..2] == d[2..4];
    HexPairBound(d[..2]);
    HexPairBound(d[2..4]);
    HexPairBound(d[4..]);
  }

  /** A cell "rgba(R, G, B, A)" with integer channels in 0..255 encodes as [B, G, R, 1]. */
  lemma IntegerCellBytes(r: string, g: string, b: string, a: string)
    requires IsDigits(r) && IsDigits(g) && IsDigits(b) && IsPlainToken(a)
    requires DecimalValue(r) < 256 && DecimalValue(g) < 256 && DecimalValue(b) < 256
    ensures CellBytes(Fill("rgba(" + r + ", " + g + ", " + b + ", " + a + ")"))
         == [DecimalValue(b) as byte, DecimalValue(g) as byte, DecimalValue(r) as byte, 1]
  {
    var style := "rgba(" + r + ", " + g + ", " + b + ", " + a + ")";
    IntegerChannels(r, g, b, a);
    assert style[0] == 'r';
    ByteChannels(Fill(style), DecimalValue(r), DecimalValue(g), DecimalValue(b), ComponentValue(a, 3));
  }

  /** "rgba(R, G, B, A)" with integer R, G and B gives exactly those three values,
      unclamped, followed by the value of A. */
  lemma IntegerChannels(r: string, g: string, b: string, a: string)
    requires IsDigits(r) && IsDigits(g) && IsDigits(b) && IsPlainToken(a)
    ensures Normalize("rgba(" + r + ", " + g + ", " + b + ", " + a + ")")
         == [Whole(DecimalValue(r)), Whole(DecimalValue(g)), Whole(DecimalValue(b)), ComponentValue(a, 3)]
  {
    IntegerComponent(r, 0);
    IntegerComponent(g, 1);
    IntegerComponent(b, 2);
    CommaFormChannels(r, g, b, a);
  }

  /** A frame of n cells all holding the same style encodes as n copies of that
      cell's four bytes. */
  lemma {:induction false} UniformFrame(cell: Cell, n: nat)
    ensures FrameBytes(seq(n, _ => cell)) == Repeat(CellBytes(cell), n)
  {
    if n > 0 {
      var grid := seq(n, _ => cell);
      assert grid == seq(n - 1, _ => cell) + [cell];
      UniformFrame(cell, n - 1);
      FrameBytesAppend(seq(n - 1, _ => cell), cell);
    }
  }

  /** A pure red cell "#ff0000" encodes as [0, 0, 255, 1]: blue first, red third. */
  lemma RedCellBytes()
    ensures CellBytes(Fill("#ff0000")) == [0, 0, 255, 1]
  {
    var d := "ff0000";
    assert "#ff0000" == "#" + d;
    assert AllHexDigits(d);
    assert d[..2] == "ff" && d[2..4] == "00" && d[4..] == "00";
    assert HexValue("ff") == 255 by { assert "ff"[..1] == "f" && "f"[..0] == []; }
    assert HexValue("00") == 0 by { assert "00"[..1] == "0" && "0"[..0] == []; }
    HexCellBytes(d);
  }

  /** A frame of n red cells encodes as [0, 0, 255, 1] n times. */
  lemma RedFrameBytes(n: nat)
    ensures FrameBytes(seq(n, _ => Fill("#ff0000"))) == Repeat([0, 0, 255, 1], n)
  {
    UniformFrame(Fill("#ff0000"), n);
    RedCellBytes();
  }

  /** `n` copies of `s`, back to back. */
  function Repeat(s: seq<byte>, n: nat): (r: seq<byte>)
    ensures |r| == n * |s|
  {
    if n == 0 then [] else Repeat(s, n - 1) + s
  }
}
