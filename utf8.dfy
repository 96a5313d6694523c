/**
  * UTF-8, the byte representation of a Rust `String`. Every `.len()` the renderer
  * uses (the `/Length` of a stream, the running offsets of the file) counts these
  * bytes, not characters.
  */
module Utf8 {
  import opened Options

  newtype byte = x: int | 0 <= x < 256

  /** A continuation byte, 10xxxxxx. */
  predicate IsContinuation(b: byte) { 0x80 <= b < 0xC0 }

  /** Encoding of one Unicode scalar value (a Rust `char`, a Dafny `char`). */
  function EncodeChar(c: char): (bs: seq<byte>)
    ensures 1 <= |bs| <= 4
    ensures |bs| == 1 <==> c as int < 0x80
    ensures forall i :: 0 < i < |bs| ==> IsContinuation(bs[i])
  {
    var v := c as int;
    if v < 0x80 then [v as byte]
    else if v < 0x800 then [(0xC0 + v / 64) as byte, (0x80 + v % 64) as byte]
    else if v < 0x1_0000 then
      [(0xE0 + v / 4096) as byte, (0x80 + v / 64 % 64) as byte, (0x80 + v % 64) as byte]
    else
      [(0xF0 + v / 262144) as byte, (0x80 + v / 4096 % 64) as byte,
       (0x80 + v / 64 % 64) as byte, (0x80 + v % 64) as byte]
  }

  function Encode(s: string): (bs: seq<byte>)
    ensures |bs| >= |s|
  {
    if s == [] then [] else EncodeChar(s[0]) + Encode(s[1..])
  }

  /** Reads the character at the start of `bs`, with the number of bytes it takes. */
  function DecodeChar(bs: seq<byte>): (r: Option<(char, nat)>)
    ensures r.Some? ==> 1 <= r.value.1 <= |bs|
  {
    if |bs| == 0 then None
    else
      var b0 := bs[0] as int;
      if b0 < 0x80 then Some((b0 as char, 1))
      else if 0xC0 <= b0 < 0xE0 then
        if |bs| < 2 || !IsContinuation(bs[1]) then None
        else
          var v := (b0 - 0xC0) * 64 + (bs[1] as int - 0x80);
          if v < 0x80 then None else Some((v as char, 2))
      else if 0xE0 <= b0 < 0xF0 then
        if |bs| < 3 || !IsContinuation(bs[1]) || !IsContinuation(bs[2]) then None
        else
          var v := (b0 - 0xE0) * 4096 + (bs[1] as int - 0x80) * 64 + (bs[2] as int - 0x80);
          if v < 0x800 || (0xD800 <= v < 0xE000) then None else Some((v as char, 3))
      else if 0xF0 <= b0 < 0xF8 then
        if |bs| < 4 || !IsContinuation(bs[1]) || !IsContinuation(bs[2]) || !IsContinuation(bs[3]) then None
        else
          var v := (b0 - 0xF0) * 262144 + (bs[1] as int - 0x80) * 4096
                   + (bs[2] as int - 0x80) * 64 + (bs[3] as int - 0x80);
          if v < 0x1_0000 || v >= 0x11_0000 then None else Some((v as char, 4))
      else None
  }

  /** Strict decoding: `None` on any byte sequence that is not well-formed UTF-8. */
  function Decode(bs: seq<byte>): (r: Option<string>)
    decreases |bs|
  {
    if bs == [] then Some([])
    else match DecodeChar(bs)
      case None => None
      case Some((c, k)) =>
        match Decode(bs[k..])
        case None => None
        case Some(s) => Some([c] + s)
  }

  lemma DecodeEncodeChar(c: char, rest: seq<byte>)
    ensures DecodeChar(EncodeChar(c) + rest) == Some((c, |EncodeChar(c)|))
  {
    var v := c as int;
    if v < 0x80 {
    } else if v < 0x800 {
      DecodeEncodeTwo(c, rest);
    } else if v < 0x1_0000 {
      DecodeEncodeThree(c, rest);
    } else {
      DecodeEncodeFour(c, rest);
    }
  }

  lemma DecodeEncodeTwo(c: char, rest: seq<byte>)
    requires 0x80 <= c as int < 0x800
    ensures DecodeChar(EncodeChar(c) + rest) == Some((c, 2))
  {
    var v := c as int;
    var bs := EncodeChar(c) + rest;
    SplitTwo(v);
    assert bs[0] as int == 0xC0 + v / 64 && bs[1] as int == 0x80 + v % 64;
  }

  lemma DecodeEncodeThree(c: char, rest: seq<byte>)
    requires 0x800 <= c as int < 0x1_0000
    ensures DecodeChar(EncodeChar(c) + rest) == Some((c, 3))
  {
    var v := c as int;
    var bs := EncodeChar(c) + rest;
    SplitThree(v);
    assert bs[0] as int == 0xE0 + v / 4096 && bs[1] as int == 0x80 + v / 64 % 64 && bs[2] as int == 0x80 + v % 64;
  }

  lemma DecodeEncodeFour(c: char, rest: seq<byte>)
    requires 0x1_0000 <= c as int
    ensures DecodeChar(EncodeChar(c) + rest) == Some((c, 4))
  {
    var v := c as int;
    var bs := EncodeChar(c) + rest;
    SplitFour(v);
    assert bs[0] as int == 0xF0 + v / 262144 && bs[1] as int == 0x80 + v / 4096 % 64;
    assert bs[2] as int == 0x80 + v / 64 % 64 && bs[3] as int == 0x80 + v % 64;
  }

  lemma SplitTwo(v: int)
    requires 0x80 <= v < 0x800
    ensures (v / 64) * 64 + v % 64 == v
  {}

  lemma SplitThree(v: int)
    requires 0x800 <= v < 0x1_0000
    ensures (v / 4096) * 4096 + (v / 64 % 64) * 64 + v % 64 == v
  {
    assert v / 64 == v / 4096 * 64 + v / 64 % 64;
  }

  lemma SplitFour(v: int)
    requires 0x1_0000 <= v < 0x11_0000
    ensures (v / 262144) * 262144 + (v / 4096 % 64) * 4096 + (v / 64 % 64) * 64 + v % 64 == v
  {
    assert v / 64 == v / 4096 * 64 + v / 64 % 64;
    assert v / 4096 == v / 262144 * 64 + v / 4096 % 64;
  }

  lemma DivMod64(hi: int, lo: int)
    requires 0 <= lo < 64
    ensures (hi * 64 + lo) / 64 == hi && (hi * 64 + lo) % 64 == lo
  {
  }

  /** What `DecodeChar` accepts is exactly the encoding of the character it returns. */
  lemma EncodeDecodeChar(bs: seq<byte>)
    requires DecodeChar(bs).Some?
    ensures EncodeChar(DecodeChar(bs).value.0) == bs[..DecodeChar(bs).value.1]
  {
    var b0 := bs[0] as int;
    if b0 >= 0x80 {
      var c1 := bs[1] as int - 0x80;
      if b0 < 0xE0 {
        DivMod64(b0 - 0xC0, c1);
      } else {
        var c2 := bs[2] as int - 0x80;
        if b0 < 0xF0 {
          EncodeDecodeChar3(b0 - 0xE0, c1, c2);
        } else {
          EncodeDecodeChar4(b0 - 0xF0, c1, c2, bs[3] as int - 0x80);
        }
      }
    }
  }

  lemma EncodeDecodeChar3(h: int, c1: int, c2: int)
    requires 0 <= c1 < 64 && 0 <= c2 < 64
    ensures var v := h * 4096 + c1 * 64 + c2;
      v / 4096 == h && v / 64 % 64 == c1 && v % 64 == c2
  {
    var v := h * 4096 + c1 * 64 + c2;
    assert v == (h * 64 + c1) * 64 + c2;
    DivMod64(h * 64 + c1, c2);
    DivMod64(h, c1);
    assert v / 4096 == v / 64 / 64;
  }

  lemma EncodeDecodeChar4(h: int, c1: int, c2: int, c3: int)
    requires 0 <= c1 < 64 && 0 <= c2 < 64 && 0 <= c3 < 64
    ensures var v := h * 262144 + c1 * 4096 + c2 * 64 + c3;
      v / 262144 == h && v / 4096 % 64 == c1 && v / 64 % 64 == c2 && v % 64 == c3
  {
    var v := h * 262144 + c1 * 4096 + c2 * 64 + c3;
    assert v == ((h * 64 + c1) * 64 + c2) * 64 + c3;
    DivMod64((h * 64 + c1) * 64 + c2, c3);
    DivMod64(h * 64 + c1, c2);
    DivMod64(h, c1);
    assert v / 4096 == v / 64 / 64;
    assert v / 262144 == v / 64 / 64 / 64;
  }

  lemma {:induction false} EncodeAppend(a: string, b: string)
    ensures Encode(a + b) == Encode(a) + Encode(b)
  {
    if a == [] {
      assert a + b == b;
    } else {
      assert (a + b)[0] == a[0] && (a + b)[1..] == a[1..] + b;
      EncodeAppend(a[1..], b);
    }
  }

  /** Decoding undoes encoding: a `String` is recovered from its bytes. */
  lemma {:induction false} DecodeEncode(s: string)
    ensures Decode(Encode(s)) == Some(s)
  {
    if s != [] {
      var e := EncodeChar(s[0]);
      assert Encode(s) == e + Encode(s[1..]);
      DecodeEncodeChar(s[0], Encode(s[1..]));
      assert (e + Encode(s[1..]))[|e|..] == Encode(s[1..]);
      DecodeEncode(s[1..]);
      assert [s[0]] + s[1..] == s;
    }
  }

  /** Encoding undoes decoding: only well-formed UTF-8 decodes, and it decodes to itself. */
  lemma {:induction false} EncodeDecode(bs: seq<byte>)
    requires Decode(bs).Some?
    ensures Encode(Decode(bs).value) == bs
    decreases |bs|
  {
    if bs != [] {
      var k := DecodeChar(bs).value.1;
      var c := DecodeChar(bs).value.0;
      DecodeStep(bs);
      EncodeDecodeChar(bs);
      EncodeDecode(bs[k..]);
      EncodeCons(c, Decode(bs[k..]).value);
      Rejoin(bs, k);
    }
  }

  lemma DecodeStep(bs: seq<byte>)
    requires bs != [] && Decode(bs).Some?
    ensures DecodeChar(bs).Some?
    ensures Decode(bs[DecodeChar(bs).value.1..]).Some?
    ensures Decode(bs).value == [DecodeChar(bs).value.0] + Decode(bs[DecodeChar(bs).value.1..]).value
  {}

  lemma EncodeCons(c: char, t: string)
    ensures Encode([c] + t) == EncodeChar(c) + Encode(t)
  {
    assert ([c] + t)[1..] == t;
  }

  /** Length in bytes, as `String::len` counts it. */
  function ByteLength(s: string): nat
  {
    |Encode(s)|
  }

  lemma Rejoin<T>(s: seq<T>, k: nat)
    requires k <= |s|
    ensures s[..k] + s[k..] == s
  {}

  /** ASCII text: one byte per character, with the character's own code. */
  predicate IsAscii(s: string) { forall i :: 0 <= i < |s| ==> s[i] as int < 0x80 }

  lemma {:induction false} EncodeAscii(s: string)
    requires IsAscii(s)
    ensures |Encode(s)| == |s|
    ensures forall i :: 0 <= i < |s| ==> Encode(s)[i] as int == s[i] as int
  {
    if s != [] {
      EncodeAscii(s[1..]);
    }
  }
}
