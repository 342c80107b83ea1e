/** Standard padded base64 with canonical decoding (section 4 of RFC 4648). */
module Base64 {
  import opened Common

  type sextet = n: int | 0 <= n < 64

  function Symbol(i: sextet): char {
    if i < 26 then ('A' as int + i) as char
    else if i < 52 then ('a' as int + i - 26) as char
    else if i < 62 then ('0' as int + i - 52) as char
    else if i == 62 then '+'
    else '/'
  }

  function Index(c: char): Option<sextet> {
    if 'A' <= c <= 'Z' then Some(c as int - 'A' as int)
    else if 'a' <= c <= 'z' then Some(c as int - 'a' as int + 26)
    else if '0' <= c <= '9' then Some(c as int - '0' as int + 52)
    else if c == '+' then Some(62)
    else if c == '/' then Some(63)
    else None
  }

  lemma SymbolIndex(c: char, i: sextet)
    ensures Index(c) == Some(i) <==> c == Symbol(i)
  {
  }

  function EncodeQuad(a: byte, b: byte, c: byte): string {
    [Symbol(a / 4), Symbol(a % 4 * 16 + b / 16), Symbol(b % 16 * 4 + c / 64), Symbol(c % 64)]
  }

  function Encode(bytes: seq<byte>): string {
    if |bytes| == 0 then ""
    else if |bytes| == 1 then EncodeQuad(bytes[0], 0, 0)[..2] + "=="
    else if |bytes| == 2 then EncodeQuad(bytes[0], bytes[1], 0)[..3] + "="
    else EncodeQuad(bytes[0], bytes[1], bytes[2]) + Encode(bytes[3..])
  }

  function Byte0(i: sextet, j: sextet): byte { i * 4 + j / 16 }
  function Byte1(j: sextet, k: sextet): byte { j % 16 * 16 + k / 4 }
  function Byte2(k: sextet, l: sextet): byte { k % 4 * 64 + l }

  /** The last quad may end in one or two `=`, and then its unused bits must be zero. */
  function DecodePadded(s: string): Option<seq<byte>>
    requires |s| == 4 && s[3] == '='
  {
    var i, j, k := Index(s[0]), Index(s[1]), Index(s[2]);
    if i.None? || j.None? then None
    else if s[2] == '=' then
      if j.value % 16 != 0 then None else Some([Byte0(i.value, j.value)])
    else if k.None? || k.value % 4 != 0 then None
    else Some([Byte0(i.value, j.value), Byte1(j.value, k.value)])
  }

  function Decode(s: string): Option<seq<byte>> {
    if |s| == 0 then Some([])
    else if |s| < 4 then None
    else if |s| == 4 && s[3] == '=' then DecodePadded(s)
    else
      var i, j, k, l := Index(s[0]), Index(s[1]), Index(s[2]), Index(s[3]);
      if i.None? || j.None? || k.None? || l.None? then None
      else
        var rest := Decode(s[4..]);
        if rest.None? then None
        else Some([Byte0(i.value, j.value), Byte1(j.value, k.value), Byte2(k.value, l.value)] + rest.value)
  }

  /** Three bytes and four sextets determine each other. */
  lemma QuadBits(a: byte, b: byte, c: byte, i: sextet, j: sextet, k: sextet, l: sextet)
    ensures (i == a / 4 && j == a % 4 * 16 + b / 16 && k == b % 16 * 4 + c / 64 && l == c % 64)
       <==> (a == Byte0(i, j) && b == Byte1(j, k) && c == Byte2(k, l))
  {
    if i == a / 4 && j == a % 4 * 16 + b / 16 && k == b % 16 * 4 + c / 64 && l == c % 64 {
      assert j / 16 == a % 4 && j % 16 == b / 16;
      assert k / 4 == b % 16 && k % 4 == c / 64;
    }
    if a == Byte0(i, j) && b == Byte1(j, k) && c == Byte2(k, l) {
      assert a / 4 == i && a % 4 == j / 16;
      assert b / 16 == j % 16 && b % 16 == k / 4;
      assert c / 64 == k % 4 && c % 64 == l;
    }
  }

  lemma QuadSymbols(a: byte, b: byte, c: byte)
    ensures var q := EncodeQuad(a, b, c);
      && Index(q[0]) == Some(a / 4) && Index(q[1]) == Some(a % 4 * 16 + b / 16)
      && Index(q[2]) == Some(b % 16 * 4 + c / 64) && Index(q[3]) == Some(c % 64)
  {
  }

  lemma DecodesPadded(q: string, i: sextet, j: sextet, k: sextet)
    requires |q| == 4 && (forall n :: 0 <= n < 4 ==> q[n] != '=')
    requires Index(q[0]) == Some(i) && Index(q[1]) == Some(j) && Index(q[2]) == Some(k)
    ensures j % 16 == 0 ==> Decode(q[..2] + "==") == Some([Byte0(i, j)])
    ensures k % 4 == 0 ==> Decode(q[..3] + "=") == Some([Byte0(i, j), Byte1(j, k)])
  {
  }

  lemma DecodeEncodedPadded(bytes: seq<byte>)
    requires 1 <= |bytes| <= 2
    ensures Decode(Encode(bytes)) == Some(bytes)
  {
    hide Symbol, Index, EncodeQuad, Decode, Byte0, Byte1, Byte2;
    var a := bytes[0];
    var b := if |bytes| == 2 then bytes[1] else 0;
    QuadSymbols(a, b, 0);
    QuadBits(a, b, 0, a / 4, a % 4 * 16 + b / 16, b % 16 * 4, 0);
    NotPadding(a, b, 0);
    assert bytes == if |bytes| == 1 then [a] else [a, b];
    assert |bytes| == 1 ==> (a % 4 * 16 + b / 16) % 16 == 0;
    assert b % 16 * 4 % 4 == 0;
    DecodesPadded(EncodeQuad(a, b, 0), a / 4, a % 4 * 16 + b / 16, b % 16 * 4);
  }

  lemma {:induction false} DecodeEncoded(bytes: seq<byte>)
    ensures Decode(Encode(bytes)) == Some(bytes)
  {
    if 1 <= |bytes| <= 2 {
      DecodeEncodedPadded(bytes);
    } else if |bytes| > 2 {
      hide Decode, EncodeQuad;
      var a, b, c := bytes[0], bytes[1], bytes[2];
      DecodesQuad(a, b, c, Encode(bytes[3..]));
      DecodeEncoded(bytes[3..]);
      assert bytes == [a, b, c] + bytes[3..];
    }
  }

  lemma DecodesQuad(a: byte, b: byte, c: byte, rest: string)
    ensures Decode(EncodeQuad(a, b, c) + rest) ==
      match Decode(rest) case None => None case Some(bytes) => Some([a, b, c] + bytes)
  {
    hide Symbol, Index, EncodeQuad, Byte0, Byte1, Byte2;
    QuadSymbols(a, b, c);
    QuadBits(a, b, c, a / 4, a % 4 * 16 + b / 16, b % 16 * 4 + c / 64, c % 64);
    NotPadding(a, b, c);
    assert (EncodeQuad(a, b, c) + rest)[4..] == rest;
  }

  lemma NotPadding(a: byte, b: byte, c: byte)
    ensures var q := EncodeQuad(a, b, c); |q| == 4 && forall i :: 0 <= i < 4 ==> q[i] != '='
  {
  }

  lemma QuadFromIndices(s: string, i: sextet, j: sextet, k: sextet, l: sextet)
    requires |s| == 4
    requires Index(s[0]) == Some(i) && Index(s[1]) == Some(j) && Index(s[2]) == Some(k) && Index(s[3]) == Some(l)
    ensures EncodeQuad(Byte0(i, j), Byte1(j, k), Byte2(k, l)) == s
  {
    hide Symbol, Index;
    QuadBits(Byte0(i, j), Byte1(j, k), Byte2(k, l), i, j, k, l);
    SymbolIndex(s[0], i);
    SymbolIndex(s[1], j);
    SymbolIndex(s[2], k);
    SymbolIndex(s[3], l);
  }

  lemma IndexOfA()
    ensures Index('A') == Some(0)
  {
  }

  lemma EncodePadded(s: string)
    requires |s| == 4 && s[3] == '=' && DecodePadded(s).Some?
    ensures Encode(DecodePadded(s).value) == s
  {
    hide Symbol, Index;
    IndexOfA();
    var i, j := Index(s[0]).value, Index(s[1]).value;
    if s[2] == '=' {
      var t := [s[0], s[1], 'A', 'A'];
      QuadFromIndices(t, i, j, 0, 0);
      assert s == t[..2] + "==";
    } else {
      var k := Index(s[2]).value;
      var t := [s[0], s[1], s[2], 'A'];
      QuadFromIndices(t, i, j, k, 0);
      assert s == t[..3] + "=";
    }
  }

  lemma {:induction false} EncodeDecoded(s: string)
    requires Decode(s).Some?
    ensures Encode(Decode(s).value) == s
  {
    hide Symbol, Index, EncodeQuad, DecodePadded;
    if |s| != 0 {
      if |s| == 4 && s[3] == '=' {
        EncodePadded(s);
      } else {
        var i, j, k, l := Index(s[0]).value, Index(s[1]).value, Index(s[2]).value, Index(s[3]).value;
        QuadFromIndices(s[..4], i, j, k, l);
        EncodeDecoded(s[4..]);
        var bytes := Decode(s).value;
        assert bytes[3..] == Decode(s[4..]).value;
        assert s == s[..4] + s[4..];
      }
    }
  }

  /** Decoding accepts exactly the encodings, each as the bytes it encodes. */
  lemma DecodeExactly(s: string, bytes: seq<byte>)
    ensures Decode(s) == Some(bytes) <==> s == Encode(bytes)
  {
    DecodeEncoded(bytes);
    if Decode(s) == Some(bytes) {
      EncodeDecoded(s);
    }
  }

  /** Encoded text holds neither a dash nor white space. */
  lemma {:induction false} EncodeCharacters(bytes: seq<byte>)
    ensures forall i :: 0 <= i < |Encode(bytes)| ==> Encode(bytes)[i] != '-' && !IsSpace(Encode(bytes)[i])
  {
    if |bytes| > 2 {
      EncodeCharacters(bytes[3..]);
      var q := EncodeQuad(bytes[0], bytes[1], bytes[2]);
      assert Encode(bytes) == q + Encode(bytes[3..]);
    }
  }
}
