/**
  Base64 with padding, section 4 of RFC 4648, as Foundation's
  `base64EncodedString(options: [])` writes it (no line breaks). Encoding is split
  in two: bytes to six-bit cells (the arithmetic), then cells to characters (the
  alphabet); decoding undoes each step.
*/
module Base64 {
  import opened Wrappers
  import Utf8

  type byte = Utf8.byte

  /** A six-bit value. */
  type Six = i: int | 0 <= i < 64

  /** One output position: a six-bit value, or the pad character `=`. */
  datatype Cell = Sextet(value: Six) | Pad

  /** The 64-symbol alphabet of Table 1 in RFC 4648. */
  function Symbol(i: int): (c: char)
    requires 0 <= i < 64
    ensures c != '='
  {
    if i < 26 then ('A' as int + i) as char
    else if i < 52 then ('a' as int + i - 26) as char
    else if i < 62 then ('0' as int + i - 52) as char
    else if i == 62 then '+'
    else '/'
  }

  function SymbolIndex(c: char): (r: Option<int>)
    ensures r.Some? ==> 0 <= r.value < 64
  {
    if 'A' <= c <= 'Z' then Some(c as int - 'A' as int)
    else if 'a' <= c <= 'z' then Some(c as int - 'a' as int + 26)
    else if '0' <= c <= '9' then Some(c as int - '0' as int + 52)
    else if c == '+' then Some(62)
    else if c == '/' then Some(63)
    else None
  }

  lemma SymbolIndexOf(i: int)
    requires 0 <= i < 64
    ensures SymbolIndex(Symbol(i)) == Some(i)
  {
  }

  /** Bytes to cells: each group of three bytes gives four cells, a short last group is padded. */
  function Cells(bs: seq<byte>): (cs: seq<Cell>)
  {
    if |bs| == 0 then []
    else if |bs| == 1 then
      var b0 := bs[0] as int;
      [Sextet(b0 / 4), Sextet((b0 % 4) * 16), Pad, Pad]
    else if |bs| == 2 then
      var b0, b1 := bs[0] as int, bs[1] as int;
      [Sextet(b0 / 4), Sextet((b0 % 4) * 16 + b1 / 16), Sextet((b1 % 16) * 4), Pad]
    else SextetsOf(bs[0], bs[1], bs[2]) + Cells(bs[3..])
  }

  /** The four sextets of a full group of three bytes, most significant bits first. */
  function SextetsOf(x0: byte, x1: byte, x2: byte): seq<Cell>
  {
    var b0, b1, b2 := x0 as int, x1 as int, x2 as int;
    [Sextet(b0 / 4), Sextet((b0 % 4) * 16 + b1 / 16), Sextet((b1 % 16) * 4 + b2 / 64), Sextet(b2 % 64)]
  }

  /** The three bytes packed in four sextets. */
  function OctetsOf(i0: Six, i1: Six, i2: Six, i3: Six): seq<byte>
  {
    [(i0 * 4 + i1 / 16) as byte, ((i1 % 16) * 16 + i2 / 4) as byte, ((i2 % 4) * 64 + i3) as byte]
  }

  function Render(cs: seq<Cell>): (s: string)
    ensures |s| == |cs|
  {
    if cs == [] then ""
    else [CellChar(cs[0])] + Render(cs[1..])
  }

  function CellChar(c: Cell): char
  {
    if c.Pad? then '=' else Symbol(c.value)
  }

  function CharCell(ch: char): Option<Cell>
  {
    if ch == '=' then Some(Pad)
    else match SymbolIndex(ch)
      case None => None
      case Some(i) => Some(Sextet(i))
  }

  lemma CharCellOf(c: Cell)
    ensures CharCell(CellChar(c)) == Some(c)
  {
    if c.Sextet? {
      SymbolIndexOf(c.value);
    }
  }

  lemma {:induction false} RenderAppend(a: seq<Cell>, b: seq<Cell>)
    ensures Render(a + b) == Render(a) + Render(b)
  {
    if a == [] {
      assert a + b == b;
    } else {
      assert (a + b)[1..] == a[1..] + b;
      RenderAppend(a[1..], b);
    }
  }

  /** `base64EncodedString()`. */
  function Encode(bs: seq<byte>): string
  {
    Render(Cells(bs))
  }

  /** Characters back to cells; anything outside the alphabet and `=` is an error. */
  function Parse(s: string): (r: Option<seq<Cell>>)
  {
    if s == [] then Some([])
    else
      match (CharCell(s[0]), Parse(s[1..]))
      case (Some(c), Some(rest)) => Some([c] + rest)
      case _ => None
  }

  /**
    Cells back to bytes, four at a time. Padding may only close the last group,
    and the bits a padded group leaves unused must be zero.
  */
  function Bytes(cs: seq<Cell>): (r: Option<seq<byte>>)
  {
    if cs == [] then Some([])
    else if |cs| < 4 || cs[0].Pad? || cs[1].Pad? then None
    else
      var i0, i1 := cs[0].value, cs[1].value;
      if cs[2].Pad? then
        if |cs| == 4 && cs[3].Pad? && i1 % 16 == 0 then Some([(i0 * 4 + i1 / 16) as byte]) else None
      else
        var i2 := cs[2].value;
        if cs[3].Pad? then
          if |cs| == 4 && i2 % 4 == 0 then Some([(i0 * 4 + i1 / 16) as byte, ((i1 % 16) * 16 + i2 / 4) as byte])
          else None
        else
          var i3 := cs[3].value;
          match Bytes(cs[4..])
          case None => None
          case Some(rest) => Some(OctetsOf(i0, i1, i2, i3) + rest)
  }

  function Decode(s: string): Option<seq<byte>>
  {
    match Parse(s)
    case None => None
    case Some(cs) => Bytes(cs)
  }

  lemma {:induction false} ParseRender(cs: seq<Cell>)
    ensures Parse(Render(cs)) == Some(cs)
  {
    if cs != [] {
      ParseRender(cs[1..]);
      ParseRenderStep(cs);
    }
  }

  lemma ParseRenderStep(cs: seq<Cell>)
    requires cs != [] && Parse(Render(cs[1..])) == Some(cs[1..])
    ensures Parse(Render(cs)) == Some(cs)
  {
    CharCellOf(cs[0]);
    var s := Render(cs);
    assert s[1..] == Render(cs[1..]);
    assert cs == [cs[0]] + cs[1..];
  }

  lemma Split16(q: int, r: int)
    requires 0 <= q && 0 <= r < 16
    ensures (q * 16 + r) / 16 == q && (q * 16 + r) % 16 == r
  {
  }

  lemma Split4(q: int, r: int)
    requires 0 <= q && 0 <= r < 4
    ensures (q * 4 + r) / 4 == q && (q * 4 + r) % 4 == r
  {
  }

  /** The four sextets of three bytes give the bytes back. */
  lemma GroupOfThree(x0: byte, x1: byte, x2: byte)
    ensures var q := SextetsOf(x0, x1, x2);
      q[0].Sextet? && q[1].Sextet? && q[2].Sextet? && q[3].Sextet?
      && OctetsOf(q[0].value, q[1].value, q[2].value, q[3].value) == [x0, x1, x2]
  {
    var b0, b1, b2 := x0 as int, x1 as int, x2 as int;
    Split16(b0 % 4, b1 / 16);
    Split4(b1 % 16, b2 / 64);
  }

  /** The sextets of a last group of two bytes give them back, and leave the unused bits zero. */
  lemma GroupOfTwo(b0: int, b1: int)
    requires 0 <= b0 < 256 && 0 <= b1 < 256
    ensures var i0, i1, i2 := b0 / 4, (b0 % 4) * 16 + b1 / 16, (b1 % 16) * 4;
      i0 * 4 + i1 / 16 == b0 && (i1 % 16) * 16 + i2 / 4 == b1 && i2 % 4 == 0
  {
    Split16(b0 % 4, b1 / 16);
    Split4(b1 % 16, 0);
  }

  /** The sextets of a last single byte give it back, and leave the unused bits zero. */
  lemma GroupOfOne(b0: int)
    requires 0 <= b0 < 256
    ensures var i0, i1 := b0 / 4, (b0 % 4) * 16; i0 * 4 + i1 / 16 == b0 && i1 % 16 == 0
  {
    Split16(b0 % 4, 0);
  }

  lemma {:induction false} BytesCells(bs: seq<byte>)
    ensures Bytes(Cells(bs)) == Some(bs)
    decreases |bs|
  {
    if |bs| >= 3 {
      BytesCells(bs[3..]);
      BytesCellsStep(bs);
    } else if |bs| == 2 {
      GroupOfTwo(bs[0] as int, bs[1] as int);
      assert bs == [bs[0], bs[1]];
    } else if |bs| == 1 {
      GroupOfOne(bs[0] as int);
      assert bs == [bs[0]];
    }
  }

  lemma BytesCellsStep(bs: seq<byte>)
    requires |bs| >= 3 && Bytes(Cells(bs[3..])) == Some(bs[3..])
    ensures Bytes(Cells(bs)) == Some(bs)
  {
    var q := SextetsOf(bs[0], bs[1], bs[2]);
    GroupOfThree(bs[0], bs[1], bs[2]);
    BytesOfGroup(q, Cells(bs[3..]));
    Split3(bs);
  }

  lemma Split3<T>(s: seq<T>)
    requires |s| >= 3
    ensures s == [s[0], s[1], s[2]] + s[3..]
  {
  }

  /** A full group of four sextets decodes to three bytes ahead of whatever follows. */
  lemma BytesOfGroup(q: seq<Cell>, tail: seq<Cell>)
    requires |q| == 4 && q[0].Sextet? && q[1].Sextet? && q[2].Sextet? && q[3].Sextet?
    requires Bytes(tail).Some?
    ensures Bytes(q + tail) == Some(OctetsOf(q[0].value, q[1].value, q[2].value, q[3].value) + Bytes(tail).value)
  {
    assert (q + tail)[4..] == tail;
  }

  /** Decoding inverts encoding. */
  lemma DecodeEncode(bs: seq<byte>)
    ensures Decode(Encode(bs)) == Some(bs)
  {
    ParseRender(Cells(bs));
    BytesCells(bs);
  }

  /** Four characters for every three bytes or part thereof. */
  lemma {:induction false} EncodeLength(bs: seq<byte>)
    ensures |Encode(bs)| == 4 * ((|bs| + 2) / 3)
    decreases |bs|
  {
    if |bs| >= 3 {
      EncodeLength(bs[3..]);
      assert |Cells(bs)| == 4 + |Cells(bs[3..])|;
    }
  }
}
