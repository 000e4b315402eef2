/** SSR links: base64 around a colon-separated payload that holds more base64. */
module Ssr {
  import opened GoStrings
  import opened Numerals
  import opened Base64

  /** The fields an SSR proxy carries into a link. */
  datatype Proxy = Proxy(
    server: Bytes, port: nat, protocol: Bytes, cipher: Bytes, obfs: Bytes,
    password: Bytes, name: Bytes, obfsParam: Bytes, protocolParam: Bytes)

  /** What the parser sets; an absent parameter stays unset. */
  datatype Parsed = Parsed(
    server: string, port: string, protocol: string, cipher: string, obfs: string,
    password: string, name: string, protocolParam: Option<string>, obfsParam: Option<string>)

  // ---- links ----

  /** How a link is written: an encoding for each layer and field, and the name the
      protocol parameter goes by. */
  datatype Style = Style(
    outer: Encoding, password: Encoding, name: Encoding, obfs: Encoding, protocol: Encoding, alias: bool)

  function ProtocolKey(w: Style): string {
    if w.alias then "protocolparam" else "protoparam"
  }

  function Params(w: Style, p: Proxy): string {
    "remarks=" + EncodeWith(w.name, p.name)
    + (if p.obfsParam != "" then "&obfsparam=" + EncodeWith(w.obfs, p.obfsParam) else "")
    + (if p.protocolParam != "" then "&" + ProtocolKey(w) + "=" + EncodeWith(w.protocol, p.protocolParam) else "")
  }

  function Address(w: Style, p: Proxy): seq<string> {
    [Itoa(p.port), p.protocol, p.cipher, p.obfs, EncodeWith(w.password, p.password)]
  }

  function Payload(w: Style, p: Proxy): string {
    p.server + ":" + Join(Address(w, p), ":") + "/?" + Params(w, p)
  }

  const SCHEME := "ssr://"

  function Link(w: Style, p: Proxy): string
    requires IsBytes(Payload(w, p))
  {
    SCHEME + EncodeWith(w.outer, Payload(w, p))
  }

  /** How the producer writes. */
  const PRINTED := Style(STD, STD, STD, STD, STD, false)

  /** ssrURI: the builder's steps. */
  method SsrUri(p: Proxy) returns (uri: string)
    ensures IsBytes(Payload(PRINTED, p)) && uri == Link(PRINTED, p)
    ensures "ssr://" <= uri
  {
    hide EncodeWith, Itoa;
    PayloadBytes(PRINTED, p);
    var payload := p.server + ":" + Itoa(p.port) + ":" + p.protocol + ":" + p.cipher + ":" + p.obfs + ":"
                   + Encode(p.password) + "/?remarks=" + Encode(p.name);
    PayloadShape(p.server, Itoa(p.port), p.protocol, p.cipher, p.obfs, Encode(p.password), Encode(p.name));
    AddressIs(PRINTED, p);
    var front := payload;
    if p.obfsParam != "" {
      payload := payload + ("&obfsparam=" + Encode(p.obfsParam));
    }
    if p.protocolParam != "" {
      payload := payload + ("&protoparam=" + Encode(p.protocolParam));
    }
    AppendedParams(front, p);
    return SCHEME + Encode(payload);
  }

  lemma PayloadShape(server: string, port: string, protocol: string, cipher: string, obfs: string, password: string, name: string)
    ensures server + ":" + port + ":" + protocol + ":" + cipher + ":" + obfs + ":" + password + "/?remarks=" + name
            == server + ":" + (port + ":" + (protocol + ":" + (cipher + ":" + (obfs + ":" + password)))) + "/?" + ("remarks=" + name)
  {
  }

  lemma AppendedParams(front: string, p: Proxy)
    requires front == p.server + ":" + Join(Address(PRINTED, p), ":") + "/?" + ("remarks=" + Encode(p.name))
    ensures var o := if p.obfsParam != "" then front + ("&obfsparam=" + Encode(p.obfsParam)) else front;
            Payload(PRINTED, p) == if p.protocolParam != "" then o + ("&protoparam=" + Encode(p.protocolParam)) else o
  {
    hide EncodeWith, Join, Itoa;
    var x, n := p.server + ":" + Join(Address(PRINTED, p), ":") + "/?", "remarks=" + Encode(p.name);
    var o := if p.obfsParam != "" then "&obfsparam=" + Encode(p.obfsParam) else "";
    var q := if p.protocolParam != "" then "&protoparam=" + Encode(p.protocolParam) else "";
    assert "&" + "protoparam" + "=" == "&protoparam=";
    assert Params(PRINTED, p) == n + o + q;
    Assoc(x, n, o);
    Assoc(x, n + o, q);
    assert front + "" == front && (front + o) + "" == front + o;
  }

  // ---- the parser ----

  /** strings.Index(s, "/?") */
  function QueryIndex(s: string): (k: int)
    ensures -1 <= k && k + 1 < |s| + 1
    ensures k >= 0 ==> k + 1 < |s|
  {
    if |s| < 2 then -1
    else if s[0] == '/' && s[1] == '?' then 0
    else
      var r := QueryIndex(s[1..]);
      if r == -1 then -1 else r + 1
  }

  /** One `key=value` pair of the query, entered unless its value is blank. */
  function EnterPair(pair: string, m: map<string, string>): map<string, string> {
    var k := IndexByte(pair, '=');
    if pair == "" || k == -1 then m
    else
      var val := TrimSpace(pair[k + 1..]);
      if val != "" && val != "(null)" then m[pair[..k] := val] else m
  }

  function EnterPairs(pairs: seq<string>, m: map<string, string>): map<string, string> {
    if pairs == [] then m else EnterPairs(pairs[1..], EnterPair(pairs[0], m))
  }

  function Get(m: map<string, string>, key: string): string {
    if key in m then m[key] else ""
  }

  /** The characters of the regular expression \s. */
  predicate IsRegexSpace(c: char) {
    c == '\t' || c == '\n' || c == '\U{0C}' || c == '\r' || c == ' '
  }

  function StripWhitespace(s: string): string {
    if s == "" then ""
    else if IsRegexSpace(s[0]) then StripWhitespace(s[1..])
    else [s[0]] + StripWhitespace(s[1..])
  }

  /** A decoded parameter, when there is one left after stripping white space. */
  function DecodedParam(encoded: string): Option<string> {
    var d := Base64Decode(encoded);
    if encoded == "" || d.None? || StripWhitespace(d.value) == "" then None
    else Some(StripWhitespace(d.value))
  }

  function NameOf(server: string, remarks: string): string {
    var d := Base64Decode(remarks);
    if remarks == "" || d.None? then server else d.value
  }

  function FromParts(parts: seq<string>, password: string, other: map<string, string>): Parsed
    requires |parts| >= 6
  {
    var n := |parts|;
    var server := Join(parts[..n - 5], ":");
    var proto := if Get(other, "protoparam") != "" then Get(other, "protoparam") else Get(other, "protocolparam");
    Parsed(server, parts[n - 5], parts[n - 4], parts[n - 3], parts[n - 2], password,
           NameOf(server, Get(other, "remarks")), DecodedParam(proto), DecodedParam(Get(other, "obfsparam")))
  }

  /** The payload after the outer base64. */
  function ParsePayload(decoded: string): Option<Parsed> {
    var k := QueryIndex(decoded);
    var rest := if k == -1 then decoded else decoded[..k];
    var query := if k == -1 then "" else decoded[k + 2..];
    var parts := Split(rest, ':');
    if |parts| < 6 then None
    else
      var password := Base64Decode(parts[|parts| - 1]);
      if password.None? then None
      else Some(FromParts(parts, password.value, EnterPairs(Split(query, '&'), map[])))
  }

  function TrimScheme(line: string): string {
    if SCHEME <= line then line[|SCHEME|..] else line
  }

  function ParseLink(line: string): Option<Parsed> {
    var decoded := Base64Decode(TrimScheme(line));
    if decoded.None? then None else ParsePayload(decoded.value)
  }

  /** The Parse function of the SSR parser. */
  method Parse(line: string) returns (r: Option<Parsed>)
    ensures r == ParseLink(line)
  {
    hide Base64Decode, QueryIndex, Split, FromParts, TrimSpace, TrimScheme;
    var decoded := Base64Decode(TrimScheme(line));
    if decoded.None? {
      return None;
    }
    var rest, paramsPart := decoded.value, "";
    var idx := QueryIndex(rest);
    if idx != -1 {
      paramsPart := rest[idx + 2..];
      rest := rest[..idx];
    }
    var parts := Split(rest, ':');
    if |parts| < 6 {
      return None;
    }
    var password := Base64Decode(parts[|parts| - 1]);
    if password.None? {
      return None;
    }
    var other: map<string, string> := map[];
    var pairs := Split(paramsPart, '&');
    assert pairs[0..] == pairs;
    for i := 0 to |pairs|
      invariant EnterPairs(pairs[i..], other) == EnterPairs(pairs, map[])
    {
      var pair := pairs[i];
      assert pairs[i..][1..] == pairs[i + 1..];
      if pair == "" {
        continue;
      }
      var k := IndexByte(pair, '=');
      if k == -1 {
        continue;
      }
      var val := TrimSpace(pair[k + 1..]);
      if val != "" && val != "(null)" {
        other := other[pair[..k] := val];
      }
    }
    return Some(FromParts(parts, password.value, other));
  }

  // ---- reading a printed link ----

  /** What a reader of the link should see: an empty name falls back to the server, and
      the parameters lose their white space. */
  function Expected(p: Proxy): Parsed {
    var proto, obfs := StripWhitespace(p.protocolParam), StripWhitespace(p.obfsParam);
    Parsed(p.server, Itoa(p.port), p.protocol, p.cipher, p.obfs, p.password,
           if p.name == "" then p.server else p.name,
           if proto == "" then None else Some(proto), if obfs == "" then None else Some(obfs))
  }

  /** No "/?" inside. */
  predicate NoQuery(s: string) {
    QueryIndex(s) == -1
  }

  /** The delimiters do not occur where they would be misread. */
  predicate Delimited(p: Proxy) {
    && ':' !in p.protocol && ':' !in p.cipher && ':' !in p.obfs
    && NoQuery(p.server) && NoQuery(p.protocol) && NoQuery(p.cipher) && NoQuery(p.obfs)
  }

  lemma {:induction false} QueryAfter(a: string, x: string)
    requires NoQuery(a) && (a == "" || a[|a| - 1] != '/' || x == "" || x[0] != '?')
    requires x == "" || QueryIndex(x) == 0 || NoQuery(x)
    ensures QueryIndex(a + x) == if x != "" && QueryIndex(x) == 0 then |a| else -1
    decreases |a|
  {
    if a == "" {
      assert a + x == x;
    } else {
      assert (a + x)[1..] == a[1..] + x;
      QueryAfter(a[1..], x);
    }
  }

  lemma {:induction false} NoQueryInside(a: string, b: string, c: string)
    requires NoQuery(a + b + c)
    ensures NoQuery(b)
    decreases |a|, |b|
  {
    if a != "" {
      assert (a + b + c)[1..] == a[1..] + b + c;
      NoQueryInside(a[1..], b, c);
    } else if |b| >= 2 {
      assert (a + b + c)[1..] == a + b[1..] + c;
      NoQueryInside(a, b[1..], c);
    }
  }

  lemma {:induction false} BytesEncode(s: string)
    requires forall i :: 0 <= i < |s| ==> IsEncodedChar(s[i])
    ensures NoQuery(s) && ':' !in s && '&' !in s
    decreases |s|
  {
    if |s| >= 2 {
      BytesEncode(s[1..]);
    }
  }

  lemma {:induction false} SplitConcat(a: string, c: char, b: string)
    ensures Split(a + [c] + b, c) == Split(a, c) + Split(b, c)
    decreases |a|
  {
    var s := a + [c] + b;
    if a == "" {
      assert s[1..] == b && [""] + Split(b, c) == Split("", c) + Split(b, c);
    } else {
      assert s[1..] == a[1..] + [c] + b;
      SplitConcat(a[1..], c, b);
      var ra, rb := Split(a[1..], c), Split(b, c);
      assert [""] + (ra + rb) == ([""] + ra) + rb;
      assert [[a[0]] + ra[0]] + (ra + rb)[1..] == ([[a[0]] + ra[0]] + ra[1..]) + rb;
    }
  }

  // ---- the payload's pieces ----

  lemma {:induction false} EncodeBytes(e: Encoding, s: Bytes)
    ensures IsBytes(EncodeWith(e, s)) && NoQuery(EncodeWith(e, s)) && Trimmed(EncodeWith(e, s))
    ensures ':' !in EncodeWith(e, s) && '&' !in EncodeWith(e, s)
    ensures s == "" <==> EncodeWith(e, s) == ""
    ensures EncodeWith(e, s) != "(null)"
  {
    EncodedChars(e, s);
    BytesEncode(EncodeWith(e, s));
    TrimKeepsEdges(EncodeWith(e, s));
    assert "(null)"[0] == '(';
  }

  lemma {:induction false} ItoaBytes(n: nat)
    ensures IsBytes(Itoa(n)) && NoQuery(Itoa(n)) && ':' !in Itoa(n)
  {
    BytesEncode(Itoa(n));
  }

  lemma BytesConcat(a: string, b: string)
    requires IsBytes(a) && IsBytes(b)
    ensures IsBytes(a + b)
  {
  }

  lemma AddressIs(w: Style, p: Proxy)
    ensures Join(Address(w, p), ":") == Itoa(p.port) + ":" + (p.protocol + ":" + (p.cipher + ":" + (p.obfs + ":" + EncodeWith(w.password, p.password))))
  {
    var e := EncodeWith(w.password, p.password);
    JoinCons(p.obfs, [e], ":");
    JoinCons(p.cipher, [p.obfs, e], ":");
    JoinCons(p.protocol, [p.cipher, p.obfs, e], ":");
    JoinCons(Itoa(p.port), [p.protocol, p.cipher, p.obfs, e], ":");
    assert [p.obfs] + [e] == [p.obfs, e];
    assert [p.cipher] + [p.obfs, e] == [p.cipher, p.obfs, e];
    assert [p.protocol] + [p.cipher, p.obfs, e] == [p.protocol, p.cipher, p.obfs, e];
    assert [Itoa(p.port)] + [p.protocol, p.cipher, p.obfs, e] == Address(w, p);
  }

  lemma AddressBytes(w: Style, p: Proxy)
    ensures IsBytes(Join(Address(w, p), ":"))
  {
    hide EncodeWith, Itoa, IsBytes, Join, Address;
    AddressIs(w, p);
    ItoaBytes(p.port);
    EncodeBytes(w.password, p.password);
    var e := EncodeWith(w.password, p.password);
    BytesJoined(p.obfs, e);
    BytesJoined(p.cipher, p.obfs + ":" + e);
    BytesJoined(p.protocol, p.cipher + ":" + (p.obfs + ":" + e));
    BytesJoined(Itoa(p.port), p.protocol + ":" + (p.cipher + ":" + (p.obfs + ":" + e)));
  }

  lemma BytesJoined(a: string, b: string)
    requires IsBytes(a) && IsBytes(b)
    ensures IsBytes(a + ":" + b)
  {
  }

  lemma ParamsBytes(w: Style, p: Proxy)
    ensures IsBytes(Params(w, p))
  {
    hide EncodeWith;
    EncodeBytes(w.name, p.name);
    EncodeBytes(w.obfs, p.obfsParam);
    EncodeBytes(w.protocol, p.protocolParam);
    assert IsBytes(ProtocolKey(w));
  }

  /** The payload is made of bytes, so the outer encoder can take it. */
  lemma PayloadBytes(w: Style, p: Proxy)
    ensures IsBytes(Payload(w, p))
  {
    hide EncodeWith, Itoa, Join, Address, Params;
    AddressBytes(w, p);
    ParamsBytes(w, p);
    BytesJoined(p.server, Join(Address(w, p), ":"));
    BytesConcat(p.server + ":" + Join(Address(w, p), ":") + "/?", Params(w, p));
  }

  lemma NoQueryColon(a: string, b: string)
    requires NoQuery(a) && NoQuery(b)
    ensures NoQuery(a + ":" + b)
  {
    var x := ":" + b;
    assert x[1..] == b;
    assert NoQuery(x);
    QueryAfter(a, x);
    assert a + x == a + ":" + b;
  }

  /** The text in front of the query. */
  function Front(w: Style, p: Proxy): string {
    p.server + ":" + Join(Address(w, p), ":")
  }

  lemma FrontHasNoQuery(w: Style, p: Proxy)
    requires Delimited(p)
    ensures NoQuery(Front(w, p))
  {
    hide EncodeWith, Itoa, QueryIndex;
    AddressIs(w, p);
    ItoaBytes(p.port);
    EncodeBytes(w.password, p.password);
    NoQueryColon(p.obfs, EncodeWith(w.password, p.password));
    NoQueryColon(p.cipher, p.obfs + ":" + EncodeWith(w.password, p.password));
    NoQueryColon(p.protocol, p.cipher + ":" + (p.obfs + ":" + EncodeWith(w.password, p.password)));
    NoQueryColon(Itoa(p.port), p.protocol + ":" + (p.cipher + ":" + (p.obfs + ":" + EncodeWith(w.password, p.password))));
    NoQueryColon(p.server, Join(Address(w, p), ":"));
  }

  /** The payload is cut at its own "/?". */
  lemma PayloadIsCut(w: Style, p: Proxy)
    requires Delimited(p)
    ensures var d, k := Payload(w, p), |Front(w, p)|;
            QueryIndex(d) == k && d[..k] == Front(w, p) && d[k + 2..] == Params(w, p)
  {
    FrontHasNoQuery(w, p);
    var x := "/?" + Params(w, p);
    assert Payload(w, p) == Front(w, p) + x;
    QueryAfter(Front(w, p), x);
  }

  /** The colon-separated parts are the server's own, then the five after it. */
  lemma FrontSplits(w: Style, p: Proxy)
    requires Delimited(p)
    ensures Split(Front(w, p), ':') == Split(p.server, ':') + Address(w, p)
  {
    hide Split, Encode, Itoa;
    ItoaBytes(p.port);
    EncodeBytes(w.password, p.password);
    SplitConcat(p.server, ':', Join(Address(w, p), ":"));
    forall q | q in Address(w, p) ensures ':' !in q {
    }
    SplitJoin(Address(w, p), ':');
  }

  lemma ServerParts(server: string, parts: seq<string>, address: seq<string>)
    requires parts == Split(server, ':') + address && |address| == 5
    ensures |parts| >= 6 && Join(parts[..|parts| - 5], ":") == server
    ensures parts[|parts| - 5..] == address
  {
    JoinSplit(server, ':');
    assert parts[..|parts| - 5] == Split(server, ':');
  }

  // ---- the query's pairs ----

  /** The pair of an encoded parameter. */
  function PairOf(e: Encoding, key: string, x: Bytes): string {
    key + "=" + EncodeWith(e, x)
  }

  function PairsOf(w: Style, p: Proxy): seq<string> {
    [PairOf(w.name, "remarks", p.name)]
    + (if p.obfsParam != "" then [PairOf(w.obfs, "obfsparam", p.obfsParam)] else [])
    + (if p.protocolParam != "" then [PairOf(w.protocol, ProtocolKey(w), p.protocolParam)] else [])
  }

  lemma PairHasNoAmp(e: Encoding, key: string, x: Bytes)
    requires '&' !in key
    ensures '&' !in PairOf(e, key, x)
  {
    EncodeBytes(e, x);
  }

  lemma PairTexts(w: Style, p: Proxy)
    ensures "remarks=" + EncodeWith(w.name, p.name) == PairOf(w.name, "remarks", p.name)
    ensures "&obfsparam=" + EncodeWith(w.obfs, p.obfsParam) == "&" + PairOf(w.obfs, "obfsparam", p.obfsParam)
    ensures "&" + ProtocolKey(w) + "=" + EncodeWith(w.protocol, p.protocolParam) == "&" + PairOf(w.protocol, ProtocolKey(w), p.protocolParam)
  {
    hide EncodeWith;
    assert "remarks=" == "remarks" + "=";
    assert "&obfsparam=" == "&" + ("obfsparam" + "=");
  }

  lemma JoinUpToThree(r: string, o: string, q: string)
    ensures Join([r], "&") == r
    ensures Join([r, o], "&") == r + ("&" + o)
    ensures Join([r, o, q], "&") == r + ("&" + o) + ("&" + q)
  {
    JoinCons(r, [], "&");
    JoinCons(o, [], "&");
    JoinCons(q, [], "&");
    JoinCons(o, [q], "&");
    JoinCons(r, [o], "&");
    JoinCons(r, [o, q], "&");
    hide Join;
    assert [o] + [q] == [o, q] && [r] + [o] == [r, o] && [r] + [o, q] == [r, o, q];
    assert [r] + [] == [r] && [o] + [] == [o] && [q] + [] == [q];
    Assoc(r, "&", o);
    Assoc(r, "&", o + ("&" + q));
    Assoc(o, "&", q);
    Assoc(r, "&" + o, "&" + q);
    Assoc("&", o, "&" + q);
  }

  lemma ParamsAreJoined(w: Style, p: Proxy)
    ensures Params(w, p) == Join(PairsOf(w, p), "&")
  {
    hide EncodeWith, Join, PairOf;
    var r, o, q := PairOf(w.name, "remarks", p.name), PairOf(w.obfs, "obfsparam", p.obfsParam), PairOf(w.protocol, ProtocolKey(w), p.protocolParam);
    PairTexts(w, p);
    JoinUpToThree(r, o, q);
    JoinUpToThree(r, q, o);
    assert PairsOf(w, p) ==
      if p.obfsParam != "" then (if p.protocolParam != "" then [r, o, q] else [r, o])
      else (if p.protocolParam != "" then [r, q] else [r]);
    assert r + "" == r;
  }

  lemma ParamsSplit(w: Style, p: Proxy)
    ensures Split(Params(w, p), '&') == PairsOf(w, p)
  {
    hide Split, PairOf, Params;
    PairHasNoAmp(w.name, "remarks", p.name);
    PairHasNoAmp(w.obfs, "obfsparam", p.obfsParam);
    PairHasNoAmp(w.protocol, ProtocolKey(w), p.protocolParam);
    ParamsAreJoined(w, p);
    SplitJoin(PairsOf(w, p), '&');
  }

  /** Entering the pair of a nonempty parameter sets its key, an empty one nothing. */
  lemma PairIsEntered(e: Encoding, key: string, x: Bytes, m: map<string, string>)
    requires '=' !in key
    ensures EnterPair(PairOf(e, key, x), m) == if x == "" then m else m[key := EncodeWith(e, x)]
  {
    hide EncodeWith, TrimSpace;
    var pair := PairOf(e, key, x);
    EncodeBytes(e, x);
    assert pair[..|key|] == key && pair[|key|] == '=' && pair[|key| + 1..] == EncodeWith(e, x);
    IndexByteUnique(pair, '=', |key|);
  }

  /** The map a query of these pairs is read into. */
  function Entered(w: Style, p: Proxy): map<string, string> {
    var m1 := if p.name == "" then map[] else map["remarks" := EncodeWith(w.name, p.name)];
    var m2 := if p.obfsParam == "" then m1 else m1["obfsparam" := EncodeWith(w.obfs, p.obfsParam)];
    if p.protocolParam == "" then m2 else m2[ProtocolKey(w) := EncodeWith(w.protocol, p.protocolParam)]
  }

  lemma PairsAreEntered(w: Style, p: Proxy)
    ensures EnterPairs(PairsOf(w, p), map[]) == Entered(w, p)
  {
    hide EncodeWith, EnterPair, PairOf;
    KeysDiffer();
    var pairs := PairsOf(w, p);
    var m1 := if p.name == "" then map[] else map["remarks" := EncodeWith(w.name, p.name)];
    PairIsEntered(w.name, "remarks", p.name, map[]);
    assert EnterPairs(pairs, map[]) == EnterPairs(pairs[1..], m1);
    var m2 := if p.obfsParam == "" then m1 else m1["obfsparam" := EncodeWith(w.obfs, p.obfsParam)];
    PairIsEntered(w.obfs, "obfsparam", p.obfsParam, m1);
    var last := if p.protocolParam != "" then [PairOf(w.protocol, ProtocolKey(w), p.protocolParam)] else [];
    assert if p.obfsParam == "" then pairs[1..] == last else pairs[1..][1..] == last;
    assert EnterPairs(pairs[1..], m1) == EnterPairs(last, m2);
    PairIsEntered(w.protocol, ProtocolKey(w), p.protocolParam, m2);
    assert p.protocolParam != "" ==> last[1..] == [];
    assert EnterPairs(last, m2) == Entered(w, p);
  }

  lemma ParamsAreEntered(w: Style, p: Proxy)
    ensures var m := EnterPairs(PairsOf(w, p), map[]);
            && Get(m, "remarks") == EncodeWith(w.name, p.name) && Get(m, "obfsparam") == EncodeWith(w.obfs, p.obfsParam)
            && Get(m, ProtocolKey(w)) == EncodeWith(w.protocol, p.protocolParam)
            && Get(m, ProtocolKey(w.(alias := !w.alias))) == ""
  {
    hide EncodeWith, EnterPairs, PairsOf;
    KeysDiffer();
    EncodeBytes(w.name, p.name);
    EncodeBytes(w.obfs, p.obfsParam);
    EncodeBytes(w.protocol, p.protocolParam);
    PairsAreEntered(w, p);
  }

  lemma KeysDiffer()
    ensures "remarks" != "obfsparam" && "remarks" != "protoparam" && "obfsparam" != "protoparam"
    ensures "remarks" != "protocolparam" && "obfsparam" != "protocolparam" && "protoparam" != "protocolparam"
    ensures '=' !in "remarks" && '=' !in "obfsparam" && '=' !in "protoparam" && '=' !in "protocolparam"
  {
    assert "remarks"[0] == 'r' && "obfsparam"[0] == 'o' && "protoparam"[0] == 'p' && "protocolparam"[0] == 'p';
    assert |"protoparam"| != |"protocolparam"|;
  }

  // ---- the round trip ----

  lemma ParamIsDecoded(e: Encoding, x: Bytes)
    ensures DecodedParam(EncodeWith(e, x)) == if StripWhitespace(x) == "" then None else Some(StripWhitespace(x))
  {
    hide EncodeWith, Base64Decode;
    DecodeOfEncode(e, x);
    EncodeBytes(e, x);
  }

  /** Reading a link gives back every field through both layers of base64, whichever
      encoding each of them uses. */
  lemma LinkReads(w: Style, p: Proxy)
    requires Delimited(p)
    ensures IsBytes(Payload(w, p)) && "ssr://" <= Link(w, p) && ParseLink(Link(w, p)) == Some(Expected(p))
  {
    hide EncodeWith, Base64Decode, Delimited, Payload, QueryIndex, Split, EnterPairs, DecodedParam, PairsOf, Params, Get;
    PayloadBytes(w, p);
    LinkIsDecoded(w, p);
    PayloadIsCut(w, p);
    FrontSplits(w, p);
    ParamsSplit(w, p);
    ParamsAreEntered(w, p);
    var parts := Split(Front(w, p), ':');
    ServerParts(p.server, parts, Address(w, p));
    var n := |parts|;
    var back := parts[n - 5..];
    assert parts[n - 5] == back[0] && parts[n - 4] == back[1] && parts[n - 3] == back[2] && parts[n - 2] == back[3] && parts[n - 1] == back[4];
    DecodeOfEncode(w.password, p.password);
    DecodeOfEncode(w.name, p.name);
    EncodeBytes(w.name, p.name);
    EncodeBytes(w.protocol, p.protocolParam);
    ParamIsDecoded(w.protocol, p.protocolParam);
    ParamIsDecoded(w.obfs, p.obfsParam);
  }

  lemma LinkIsDecoded(w: Style, p: Proxy)
    requires IsBytes(Payload(w, p))
    ensures Base64Decode(TrimScheme(Link(w, p))) == Some(Payload(w, p))
  {
    hide EncodeWith, Base64Decode, Payload;
    var u := Link(w, p);
    assert SCHEME <= u && u[|SCHEME|..] == EncodeWith(w.outer, Payload(w, p));
    DecodeOfEncode(w.outer, Payload(w, p));
  }

  // ---- the condition is exact ----

  lemma {:induction false} NoQueryBefore(s: string)
    ensures var k := QueryIndex(s); NoQuery(if k == -1 then s else s[..k])
    decreases |s|
  {
    var k := QueryIndex(s);
    if k > 0 {
      NoQueryBefore(s[1..]);
      assert s[..k][1..] == s[1..][..k - 1];
    }
  }

  /** The cut text is the server and the five parts after it, joined again. */
  lemma CutIsJoined(rest: string, parts: seq<string>, server: string)
    requires parts == Split(rest, ':') && |parts| >= 6 && Join(parts[..|parts| - 5], ":") == server
    ensures var n := |parts|;
            rest == server + ":" + (parts[n - 5] + ":" + (parts[n - 4] + ":" + (parts[n - 3] + ":" + (parts[n - 2] + ":" + parts[n - 1]))))
  {
    hide Split;
    JoinSplit(rest, ':');
    var n := |parts|;
    var back := parts[n - 5..];
    assert parts == parts[..n - 5] + back;
    JoinAppend(parts[..n - 5], back, ":");
    assert parts[n - 5] == back[0] && parts[n - 4] == back[1] && parts[n - 3] == back[2] && parts[n - 2] == back[3] && parts[n - 1] == back[4];
    JoinFive(back[0], back[1], back[2], back[3], back[4]);
    assert back == [back[0], back[1], back[2], back[3], back[4]];
  }

  lemma JoinFive(a: string, b: string, c: string, d: string, e: string)
    ensures Join([a, b, c, d, e], ":") == a + ":" + (b + ":" + (c + ":" + (d + ":" + e)))
  {
    JoinCons(d, [e], ":");
    JoinCons(c, [d, e], ":");
    JoinCons(b, [c, d, e], ":");
    JoinCons(a, [b, c, d, e], ":");
    assert [d] + [e] == [d, e] && [c] + [d, e] == [c, d, e];
    assert [b] + [c, d, e] == [b, c, d, e] && [a] + [b, c, d, e] == [a, b, c, d, e];
  }

  lemma NoQueryInParts(server: string, a: string, b: string, c: string, d: string, e: string)
    requires NoQuery(server + ":" + (a + ":" + (b + ":" + (c + ":" + (d + ":" + e)))))
    ensures NoQuery(server) && NoQuery(b) && NoQuery(c) && NoQuery(d)
  {
    hide QueryIndex;
    var x4 := ":" + e;
    var x3 := ":" + (d + ":" + e);
    var x2 := ":" + (c + x3);
    var x1 := ":" + (a + ":" + (b + x2));
    var all := server + ":" + (a + ":" + (b + ":" + (c + ":" + (d + ":" + e))));
    assert all == "" + server + x1;
    NoQueryInside("", server, x1);
    assert all == (server + ":" + a + ":") + b + x2;
    NoQueryInside(server + ":" + a + ":", b, x2);
    assert all == (server + ":" + a + ":" + b + ":") + c + x3;
    NoQueryInside(server + ":" + a + ":" + b + ":", c, x3);
    assert all == (server + ":" + a + ":" + b + ":" + c + ":") + d + x4;
    NoQueryInside(server + ":" + a + ":" + b + ":" + c + ":", d, x4);
  }

  /** A link gives every field back exactly when no delimiter stands where it would be
      misread: no ':' in protocol, cipher and obfs, and no "/?" in these or the server. */
  lemma LinkReadsExactly(w: Style, p: Proxy)
    ensures IsBytes(Payload(w, p)) && (ParseLink(Link(w, p)) == Some(Expected(p)) <==> Delimited(p))
  {
    hide EncodeWith, Base64Decode, Payload, Split, QueryIndex, EnterPairs;
    PayloadBytes(w, p);
    LinkIsDecoded(w, p);
    if Delimited(p) {
      LinkReads(w, p);
    } else if ParsePayload(Payload(w, p)) == Some(Expected(p)) {
      ReadBackIsDelimited(p, Payload(w, p));
    }
  }

  /** Printing and reading back, as the program does the one after the other. */
  method SsrRoundTrip(p: Proxy) returns (r: Option<Parsed>)
    ensures r == Some(Expected(p)) <==> Delimited(p)
  {
    hide ParseLink, Link, Payload, Expected, Delimited;
    var uri := SsrUri(p);
    LinkReadsExactly(PRINTED, p);
    r := Parse(uri);
  }

  lemma ReadBackIsDelimited(p: Proxy, decoded: string)
    requires ParsePayload(decoded) == Some(Expected(p))
    ensures Delimited(p)
  {
    hide Base64Decode, Split, QueryIndex, EnterPairs, NameOf, DecodedParam;
    var k := QueryIndex(decoded);
    var rest := if k == -1 then decoded else decoded[..k];
    var parts := Split(rest, ':');
    NoQueryBefore(decoded);
    CutIsJoined(rest, parts, p.server);
    var n := |parts|;
    NoQueryInParts(p.server, parts[n - 5], parts[n - 4], parts[n - 3], parts[n - 2], parts[n - 1]);
    assert parts[n - 4] in parts && parts[n - 3] in parts && parts[n - 2] in parts;
  }

  /** White space in a parameter is the one thing a link loses. */
  lemma {:induction false} StripKeepsExactly(s: string)
    ensures |StripWhitespace(s)| <= |s|
    ensures StripWhitespace(s) == s <==> forall i :: 0 <= i < |s| ==> s[i] !in " \t\n\r\U{0C}"
    decreases |s|
  {
    if s != "" {
      StripKeepsExactly(s[1..]);
      assert s == [s[0]] + s[1..];
      assert (forall i :: 0 <= i < |s| ==> !IsRegexSpace(s[i]))
             <==> !IsRegexSpace(s[0]) && forall i :: 0 <= i < |s[1..]| ==> !IsRegexSpace(s[1..][i]);
      if !IsRegexSpace(s[0]) && StripWhitespace(s) == s {
        assert StripWhitespace(s)[1..] == StripWhitespace(s[1..]);
      }
    }
  }

  // ---- any query ----

  /** `key=value` texts as the query holds them. */
  function Texts(pairs: seq<(string, string)>): (ts: seq<string>)
    ensures |ts| == |pairs|
  {
    if pairs == [] then [] else [pairs[0].0 + "=" + pairs[0].1] + Texts(pairs[1..])
  }

  predicate ProperPairs(pairs: seq<(string, string)>) {
    forall q :: q in pairs ==> '=' !in q.0 && '&' !in q.0 && '&' !in q.1
  }

  /** The last value of a key that is neither blank nor "(null)". */
  function LastValue(pairs: seq<(string, string)>, key: string): string {
    if pairs == [] then ""
    else
      var later, v := LastValue(pairs[1..], key), TrimSpace(pairs[0].1);
      if later != "" then later
      else if pairs[0].0 == key && v != "" && v != "(null)" then v
      else ""
  }

  lemma {:induction false} TextsEntered(pairs: seq<(string, string)>, m: map<string, string>, key: string)
    requires ProperPairs(pairs)
    ensures Get(EnterPairs(Texts(pairs), m), key) == if LastValue(pairs, key) != "" then LastValue(pairs, key) else Get(m, key)
    decreases |pairs|
  {
    hide TrimSpace;
    if pairs != [] {
      var (k, v) := pairs[0];
      assert pairs[0] in pairs;
      var text := k + "=" + v;
      assert text[..|k|] == k && text[|k|] == '=' && text[|k| + 1..] == v;
      IndexByteUnique(text, '=', |k|);
      assert ([text] + Texts(pairs[1..]))[1..] == Texts(pairs[1..]);
      TextsEntered(pairs[1..], EnterPair(text, m), key);
    }
  }

  lemma {:induction false} TextsHoldNoAmp(pairs: seq<(string, string)>)
    requires ProperPairs(pairs)
    ensures forall t :: t in Texts(pairs) ==> '&' !in t
    decreases |pairs|
  {
    if pairs != [] {
      assert pairs[0] in pairs;
      TextsHoldNoAmp(pairs[1..]);
    }
  }

  /** What any query says of a key: its last value that is not blank and not "(null)". */
  lemma QueryReads(pairs: seq<(string, string)>, key: string)
    requires pairs != [] && ProperPairs(pairs)
    ensures Get(EnterPairs(Split(Join(Texts(pairs), "&"), '&'), map[]), key) == LastValue(pairs, key)
  {
    hide Split, EnterPairs, LastValue;
    TextsHoldNoAmp(pairs);
    SplitJoin(Texts(pairs), '&');
    TextsEntered(pairs, map[], key);
  }

  /** Of the two names for the protocol parameter the first counts, and a name that cannot
      be decoded falls back to the server. */
  lemma PartsRead(parts: seq<string>, password: string, other: map<string, string>)
    requires |parts| >= 6
    ensures var r := FromParts(parts, password, other);
            && (Get(other, "protoparam") != "" ==> r.protocolParam == DecodedParam(Get(other, "protoparam")))
            && (Get(other, "protoparam") == "" ==> r.protocolParam == DecodedParam(Get(other, "protocolparam")))
            && r.obfsParam == DecodedParam(Get(other, "obfsparam"))
            && (Base64Decode(Get(other, "remarks")).None? ==> r.name == Join(parts[..|parts| - 5], ":"))
  {
    hide Base64Decode, DecodedParam, Join;
  }
}
