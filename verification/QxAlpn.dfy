/** The ALPN list of a QX line: each protocol as hexadecimal digits behind its length. */
module QxAlpn {
  import opened GoStrings

  /** A proxy's `alpn`: a list, or text with commas. */
  datatype Alpn = Items(items: seq<string>) | Text(text: string)

  function AlpnItems(a: Alpn): seq<string> {
    match a
    case Items(items) => items
    case Text(text) => Split(text, ',')
  }

  function LowerHex(v: nat): (c: char)
    requires v < 16
    ensures '0' <= c <= '9' || 'a' <= c <= 'f'
  {
    if v < 10 then (v + '0' as int) as char else (v - 10 + 'a' as int) as char
  }

  /** Two digits, as %02x writes a byte. */
  function HexByte(n: nat): (h: string)
    ensures |h| == 2
  {
    [LowerHex(n / 16 % 16), LowerHex(n % 16)]
  }

  function HexText(s: string): (h: string)
    ensures |h| == 2 * |s|
  {
    if s == "" then "" else HexByte(s[0] as int) + HexText(s[1..])
  }

  function Encoded(protocols: seq<string>): string {
    if protocols == [] then ""
    else HexByte(|protocols[0]|) + HexText(protocols[0]) + Encoded(protocols[1..])
  }

  /** Every protocol's length fits in one byte. */
  predicate Fits(protocols: seq<string>) {
    forall i :: 0 <= i < |protocols| ==> |protocols[i]| <= 255
  }

  lemma {:induction false} EncodedSnoc(protocols: seq<string>, p: string)
    ensures Encoded(protocols + [p]) == Encoded(protocols) + (HexByte(|p|) + HexText(p))
    decreases |protocols|
  {
    hide HexByte, HexText;
    if protocols == [] {
      var code := HexByte(|p|) + HexText(p);
      assert [] + [p] == [p] && [p][1..] == [];
      assert code + "" == code && "" + code == code;
    } else {
      assert (protocols + [p])[1..] == protocols[1..] + [p];
      EncodedSnoc(protocols[1..], p);
      Assoc(HexByte(|protocols[0]|) + HexText(protocols[0]), Encoded(protocols[1..]), HexByte(|p|) + HexText(p));
    }
  }

  /** qxEncodeAlpn: None when a protocol is too long. */
  method QxEncodeAlpn(alpn: Alpn) returns (r: Option<string>)
    ensures var ps := NonBlank(AlpnItems(alpn));
            r == if Fits(ps) then Some(Encoded(ps)) else None
  {
    hide TrimSpace, HexByte, HexText, Encoded;
    var items := AlpnItems(alpn);
    var out := "";
    NothingEncoded();
    for i := 0 to |items|
      invariant Fits(NonBlank(items[..i])) && out == Encoded(NonBlank(items[..i]))
    {
      NonBlankSnoc(items[..i], items[i]);
      assert items[..i + 1] == items[..i] + [items[i]];
      var protocol := TrimSpace(items[i]);
      if protocol == "" {
        assert NonBlank(items[..i]) + [] == NonBlank(items[..i]);
        continue;
      }
      if |protocol| > 255 {
        NonBlankHolds(items, i);
        return None;
      }
      EncodedSnoc(NonBlank(items[..i]), protocol);
      out := out + (HexByte(|protocol|) + HexText(protocol));
    }
    assert items[..|items|] == items;
    return Some(out);
  }

  lemma NonBlankHolds(items: seq<string>, i: nat)
    requires i < |items| && |TrimSpace(items[i])| > 255
    ensures !Fits(NonBlank(items))
  {
    hide TrimSpace;
    NonBlankSnoc(items[..i], items[i]);
    NonBlankAppend(items[..i + 1], items[i + 1..]);
    assert items[..i + 1] == items[..i] + [items[i]] && items == items[..i + 1] + items[i + 1..];
    assert NonBlank(items)[|NonBlank(items[..i])|] == TrimSpace(items[i]);
  }

  lemma NothingEncoded()
    ensures Encoded([]) == ""
  {
  }

  lemma {:induction false} NonBlankAppend(xs: seq<string>, ys: seq<string>)
    ensures NonBlank(xs + ys) == NonBlank(xs) + NonBlank(ys)
    decreases |xs|
  {
    hide TrimSpace;
    if xs == [] {
      assert xs + ys == ys && [] + NonBlank(ys) == NonBlank(ys);
    } else {
      assert (xs + ys)[1..] == xs[1..] + ys;
      NonBlankAppend(xs[1..], ys);
      var t := TrimSpace(xs[0]);
      var head := if t == "" then [] else [t];
      assert head + (NonBlank(xs[1..]) + NonBlank(ys)) == head + NonBlank(xs[1..]) + NonBlank(ys);
    }
  }

  // ---- reading it again ----

  predicate HexDigits(h: string) {
    forall i :: 0 <= i < |h| ==> '0' <= h[i] <= '9' || 'a' <= h[i] <= 'f'
  }

  function DigitValue(c: char): nat {
    if '0' <= c <= '9' then c as int - '0' as int else if 'a' <= c <= 'f' then c as int - 'a' as int + 10 else 0
  }

  function UnhexByte(h: string): nat
    requires |h| >= 2
  {
    16 * DigitValue(h[0]) + DigitValue(h[1])
  }

  /** The first `n` bytes that the digits spell. */
  function Unhex(h: string, n: nat): string
    requires |h| >= 2 * n
    decreases n
  {
    if n == 0 then "" else [UnhexByte(h) as char] + Unhex(h[2..], n - 1)
  }

  /** The list behind the digits, as the length prefixes divide it. */
  function Decoded(h: string): Option<seq<string>> {
    if h == "" then Some([])
    else if |h| < 2 || |h| < 2 + 2 * UnhexByte(h) then None
    else
      var n := UnhexByte(h);
      var rest := Decoded(h[2 + 2 * n..]);
      if rest.None? then None else Some([Unhex(h[2..], n)] + rest.value)
  }

  lemma ByteReads(n: nat, x: string)
    requires n < 256
    ensures UnhexByte(HexByte(n) + x) == n && (HexByte(n) + x)[2..] == x
  {
  }

  lemma {:induction false} TextReads(s: Bytes, x: string)
    ensures Unhex(HexText(s) + x, |s|) == s
    decreases |s|
  {
    if s != "" {
      var rest := HexText(s[1..]);
      Assoc(HexByte(s[0] as int), rest, x);
      ByteReads(s[0] as int, rest + x);
      TextReads(s[1..], x);
      assert s == [s[0]] + s[1..];
    }
  }

  lemma {:induction false} EncodedIsHex(protocols: seq<string>)
    ensures HexDigits(Encoded(protocols))
    decreases |protocols|
  {
    if protocols != [] {
      HexTextIsHex(protocols[0]);
      EncodedIsHex(protocols[1..]);
      hide HexText, Encoded;
    }
  }

  lemma {:induction false} HexTextIsHex(s: string)
    ensures HexDigits(HexText(s))
    decreases |s|
  {
    if s != "" {
      HexTextIsHex(s[1..]);
    }
  }

  /** No protocol is lost or run into another: the lengths divide the digits again. */
  lemma {:induction false} DecodedOfEncoded(protocols: seq<Bytes>)
    requires Fits(protocols)
    ensures Decoded(Encoded(protocols)) == Some(protocols)
    decreases |protocols|
  {
    hide HexByte, HexText, Unhex, UnhexByte;
    if protocols != [] {
      var p, rest := protocols[0], Encoded(protocols[1..]);
      var n := |p|;
      Assoc(HexByte(n), HexText(p), rest);
      ByteReads(n, HexText(p) + rest);
      TextReads(p, rest);
      var h := HexByte(n) + (HexText(p) + rest);
      SkipsText(h, HexByte(n), HexText(p), rest);
      assert Fits(protocols[1..]);
      DecodedOfEncoded(protocols[1..]);
      assert protocols == [p] + protocols[1..];
    }
  }

  lemma SkipsText(h: string, a: string, b: string, c: string)
    requires h == a + (b + c)
    ensures h[|a| + |b|..] == c
  {
  }
}
