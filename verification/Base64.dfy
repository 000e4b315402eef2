/** Base64 (section 4 of RFC 4648) as the standard library reads and writes it. */
module Base64 {
  import opened GoStrings

  /** Standard or URL-safe alphabet, with or without padding. */
  datatype Encoding = Encoding(urlSafe: bool, padded: bool)

  const STD := Encoding(false, true)

  function Sextet(e: Encoding, v: int): (c: char)
    requires 0 <= v < 64
    ensures IsPlain(c) && c < '\U{80}' && c != '=' && c != ':' && c != '?' && c != '&'
  {
    if v < 26 then (v + 'A' as int) as char
    else if v < 52 then (v - 26 + 'a' as int) as char
    else if v < 62 then (v - 52 + '0' as int) as char
    else if v == 62 then (if e.urlSafe then '-' else '+') else (if e.urlSafe then '_' else '/')
  }

  /** The value of a character of the alphabet, or -1. */
  function SextetValue(e: Encoding, c: char): (v: int)
    ensures -1 <= v < 64
  {
    if 'A' <= c <= 'Z' then c as int - 'A' as int
    else if 'a' <= c <= 'z' then c as int - 'a' as int + 26
    else if '0' <= c <= '9' then c as int - '0' as int + 52
    else if c == (if e.urlSafe then '-' else '+') then 62
    else if c == (if e.urlSafe then '_' else '/') then 63
    else -1
  }

  lemma SextetRead(e: Encoding, v: int)
    requires 0 <= v < 64
    ensures SextetValue(e, Sextet(e, v)) == v
  {
  }

  function Byte(c: char): int { c as int }

  function Padding(e: Encoding, n: nat): string {
    if !e.padded then "" else if n == 1 then "=" else "=="
  }

  /** Encoding with any alphabet, padded or not. */
  function EncodeWith(e: Encoding, s: Bytes): string
    decreases |s|
  {
    if s == "" then ""
    else if |s| == 1 then
      [Sextet(e, Byte(s[0]) / 4), Sextet(e, Byte(s[0]) % 4 * 16)] + Padding(e, 2)
    else if |s| == 2 then
      [Sextet(e, Byte(s[0]) / 4), Sextet(e, Byte(s[0]) % 4 * 16 + Byte(s[1]) / 16), Sextet(e, Byte(s[1]) % 16 * 4)] + Padding(e, 1)
    else
      [Sextet(e, Byte(s[0]) / 4), Sextet(e, Byte(s[0]) % 4 * 16 + Byte(s[1]) / 16),
       Sextet(e, Byte(s[1]) % 16 * 4 + Byte(s[2]) / 64), Sextet(e, Byte(s[2]) % 64)] + EncodeWith(e, s[3..])
  }

  /** What the producers write: the standard alphabet, padded. */
  function Encode(s: Bytes): string {
    EncodeWith(STD, s)
  }

  /** Line ends are skipped wherever they stand. */
  function DropLineEnds(s: string): string {
    if s == "" then ""
    else if s[0] == '\n' || s[0] == '\r' then DropLineEnds(s[1..])
    else [s[0]] + DropLineEnds(s[1..])
  }

  function ToChar(v: int): char
    requires 0 <= v < 256
  {
    v as char
  }

  function First(a: int, b: int): char
    requires 0 <= a < 64 && 0 <= b < 64
  {
    ToChar(a * 4 + b / 16)
  }

  function Second(b: int, c: int): char
    requires 0 <= b < 64 && 0 <= c < 64
  {
    ToChar(b % 16 * 16 + c / 4)
  }

  function Third(c: int, d: int): char
    requires 0 <= c < 64 && 0 <= d < 64
  {
    ToChar(c % 4 * 64 + d)
  }

  /** The quanta of four characters; the last one may be padded, or short when the
      encoding has no padding. */
  function Quanta(e: Encoding, u: string): Option<string> {
    if u == "" then Some("")
    else if |u| == 1 then None
    else
      var a, b := SextetValue(e, u[0]), SextetValue(e, u[1]);
      if a == -1 || b == -1 then None
      else if |u| == 2 then (if e.padded then None else Some([First(a, b)]))
      else if u[2] == '=' && e.padded then
        (if |u| == 4 && u[3] == '=' then Some([First(a, b)]) else None)
      else
        var c := SextetValue(e, u[2]);
        if c == -1 then None
        else if |u| == 3 then (if e.padded then None else Some([First(a, b), Second(b, c)]))
        else if u[3] == '=' && e.padded then
          (if |u| == 4 then Some([First(a, b), Second(b, c)]) else None)
        else
          var d := SextetValue(e, u[3]);
          if d == -1 then None
          else
            var rest := Quanta(e, u[4..]);
            if rest.None? then None else Some([First(a, b), Second(b, c), Third(c, d)] + rest.value)
  }

  function DecodeString(e: Encoding, s: string): Option<string> {
    Quanta(e, DropLineEnds(s))
  }

  /** Base64Decode: the standard and URL-safe alphabets, padded first. */
  function Base64Decode(s: string): Option<string> {
    var t := TrimSpace(s);
    var r1 := DecodeString(Encoding(false, true), t);
    if r1.Some? then r1
    else
      var r2 := DecodeString(Encoding(true, true), t);
      if r2.Some? then r2
      else
        var r3 := DecodeString(Encoding(false, false), t);
        if r3.Some? then r3 else DecodeString(Encoding(true, false), t)
  }

  /** Characters that encoded text is made of. */
  predicate IsEncodedChar(c: char) {
    IsPlain(c) && c != ':' && c != '?' && c != '&' && c != '('
  }

  lemma {:induction false} EncodedChars(e: Encoding, s: Bytes)
    ensures forall i :: 0 <= i < |EncodeWith(e, s)| ==> IsEncodedChar(EncodeWith(e, s)[i])
    ensures s != "" ==> EncodeWith(e, s) != ""
    decreases |s|
  {
    if |s| >= 3 {
      EncodedChars(e, s[3..]);
    }
  }

  /** Padded text comes in quanta of four; unpadded text is shorter by its padding. */
  lemma {:induction false} EncodedLength(e: Encoding, s: Bytes)
    ensures |EncodeWith(e, s)| == if e.padded then (|s| + 2) / 3 * 4 else (8 * |s| + 5) / 6
    decreases |s|
  {
    hide Sextet;
    if |s| >= 3 {
      EncodedLength(e, s[3..]);
    }
  }

  /** The test vectors of section 10 of RFC 4648, and one that needs the last two
      characters of the alphabet. */
  lemma TestVectors()
    ensures Encode("") == "" && Encode("f") == "Zg==" && Encode("fo") == "Zm8=" && Encode("foo") == "Zm9v"
    ensures Encode("\U{FB}\U{FF}") == "+/8=" && EncodeWith(Encoding(true, false), "\U{FB}\U{FF}") == "-_8"
  {
  }

  lemma {:induction false} NoLineEnds(s: string)
    requires forall i :: 0 <= i < |s| ==> IsPlain(s[i])
    ensures DropLineEnds(s) == s
    decreases |s|
  {
    if s != "" {
      NoLineEnds(s[1..]);
    }
  }

  lemma QuantumBytes(x: int, y: int, z: int)
    requires 0 <= x < 256 && 0 <= y < 256 && 0 <= z < 256
    ensures var a, b, c, d := x / 4, x % 4 * 16 + y / 16, y % 16 * 4 + z / 64, z % 64;
            0 <= b < 64 && 0 <= c < 64 &&
            a * 4 + b / 16 == x && b % 16 * 16 + c / 4 == y && c % 4 * 64 + d == z
  {
  }

  lemma FullQuantum(e: Encoding, x: int, y: int, z: int, rest: string)
    requires 0 <= x < 256 && 0 <= y < 256 && 0 <= z < 256
    requires Quanta(e, rest).Some?
    ensures var u := [Sextet(e, x / 4), Sextet(e, x % 4 * 16 + y / 16), Sextet(e, y % 16 * 4 + z / 64), Sextet(e, z % 64)] + rest;
            Quanta(e, u) == Some([x as char, y as char, z as char] + Quanta(e, rest).value)
  {
    hide SextetValue, Sextet;
    var a, b, c, d := x / 4, x % 4 * 16 + y / 16, y % 16 * 4 + z / 64, z % 64;
    QuantumBytes(x, y, z);
    SextetRead(e, a);
    SextetRead(e, b);
    SextetRead(e, c);
    SextetRead(e, d);
    var u := [Sextet(e, a), Sextet(e, b), Sextet(e, c), Sextet(e, d)] + rest;
    assert u[4..] == rest;
  }

  lemma ShortQuanta(e: Encoding, x: int, y: int)
    requires 0 <= x < 256 && 0 <= y < 256
    ensures Quanta(e, [Sextet(e, x / 4), Sextet(e, x % 4 * 16)] + Padding(e, 2)) == Some([x as char])
    ensures Quanta(e, [Sextet(e, x / 4), Sextet(e, x % 4 * 16 + y / 16), Sextet(e, y % 16 * 4)] + Padding(e, 1))
            == Some([x as char, y as char])
  {
    hide SextetValue, Sextet;
    QuantumBytes(x, y, 0);
    QuantumBytes(x, 0, 0);
    SextetRead(e, x / 4);
    SextetRead(e, x % 4 * 16);
    SextetRead(e, x % 4 * 16 + y / 16);
    SextetRead(e, y % 16 * 4);
  }

  /** Decoding undoes encoding, for each alphabet, padded or not. */
  lemma {:induction false} QuantaOfEncode(e: Encoding, s: Bytes)
    ensures Quanta(e, EncodeWith(e, s)) == Some(s)
    decreases |s|
  {
    hide Quanta, Sextet, Padding;
    if s == "" {
      NoQuanta(e);
    } else if |s| < 3 {
      ShortQuanta(e, Byte(s[0]), if |s| == 2 then Byte(s[1]) else 0);
      assert s == if |s| == 1 then [s[0]] else [s[0], s[1]];
    } else {
      QuantaOfEncode(e, s[3..]);
      FullQuantum(e, Byte(s[0]), Byte(s[1]), Byte(s[2]), EncodeWith(e, s[3..]));
      assert s == [s[0], s[1], s[2]] + s[3..];
    }
  }

  lemma NoQuanta(e: Encoding)
    ensures Quanta(e, "") == Some("")
  {
  }

  lemma SextetsAgree(e: Encoding, f: Encoding, c: char)
    ensures SextetValue(e, c) != -1 && SextetValue(f, c) != -1 ==> SextetValue(e, c) == SextetValue(f, c)
    ensures SextetValue(e, '=') == -1 && SextetValue(f, '=') == -1
  {
  }

  /** Decoders that accept the same text give the same bytes. */
  lemma {:induction false} QuantaAgree(e: Encoding, f: Encoding, u: string)
    requires Quanta(e, u).Some? && Quanta(f, u).Some?
    ensures Quanta(e, u) == Quanta(f, u)
    decreases |u|
  {
    forall c: char {
      SextetsAgree(e, f, c);
    }
    hide SextetValue, First, Second, Third;
    if |u| >= 4 && Quanta(e, u[4..]).Some? && Quanta(f, u[4..]).Some? {
      QuantaAgree(e, f, u[4..]);
    }
  }

  /** Each decoder by itself. */
  lemma DecodeStringOfEncode(e: Encoding, s: Bytes)
    ensures DecodeString(e, EncodeWith(e, s)) == Some(s)
  {
    EncodedChars(e, s);
    NoLineEnds(EncodeWith(e, s));
    QuantaOfEncode(e, s);
  }

  /** The four decoders one after the other read a text exactly when one of them does,
      and then as that one does. */
  lemma DecodesExactly(s: string, e: Encoding)
    ensures DecodeString(e, TrimSpace(s)).Some? ==> Base64Decode(s) == DecodeString(e, TrimSpace(s))
    ensures Base64Decode(s).Some? ==> exists f :: DecodeString(f, TrimSpace(s)) == Base64Decode(s)
  {
    var t := TrimSpace(s);
    var u := DropLineEnds(t);
    hide Quanta, DropLineEnds, TrimSpace;
    forall f: Encoding | Quanta(f, u).Some? && Quanta(e, u).Some? {
      QuantaAgree(e, f, u);
    }
    assert e in [Encoding(false, true), Encoding(true, true), Encoding(false, false), Encoding(true, false)] by {
      EncodingsListed(e);
    }
  }

  lemma EncodingsListed(e: Encoding)
    ensures e in [Encoding(false, true), Encoding(true, true), Encoding(false, false), Encoding(true, false)]
  {
    var all := [Encoding(false, true), Encoding(true, true), Encoding(false, false), Encoding(true, false)];
    assert e == all[(if e.urlSafe then 1 else 0) + if e.padded then 0 else 2];
  }

  lemma {:induction false} DropJoined(a: string, b: string)
    ensures DropLineEnds(a + b) == DropLineEnds(a) + DropLineEnds(b)
    decreases |a|
  {
    if a == "" {
      assert a + b == b;
    } else {
      assert (a + b)[1..] == a[1..] + b;
      DropJoined(a[1..], b);
    }
  }

  /** A line end anywhere in the text changes nothing. */
  lemma LineEndsIgnored(e: Encoding, a: string, b: string)
    ensures DecodeString(e, a + "\n" + b) == DecodeString(e, a + b)
    ensures DecodeString(e, a + "\r\n" + b) == DecodeString(e, a + b)
  {
    hide Quanta;
    var n, r := "\n", "\r\n";
    DropJoined(a, b);
    DropJoined(a + n, b);
    DropJoined(a, n);
    DropJoined(a + r, b);
    DropJoined(a, r);
    assert n[1..] == "" && r[1..] == n;
    assert DropLineEnds(n) == "" && DropLineEnds(r) == "";
    assert DropLineEnds(a) + "" == DropLineEnds(a);
  }

  /** The lenient decoder reads back what any of the four encodings writes. */
  lemma DecodeOfEncode(e: Encoding, s: Bytes)
    ensures Base64Decode(EncodeWith(e, s)) == Some(s)
  {
    EncodedChars(e, s);
    TrimKeepsEdges(EncodeWith(e, s));
    DecodeStringOfEncode(e, s);
    DecodesExactly(EncodeWith(e, s), e);
  }
}
