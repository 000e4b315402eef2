/** Query parameters of transport paths, as the parser and the producer read them, and
    the percent-encoding (section 2.1 of RFC 3986) in between. */
module QueryParam {
  import opened GoStrings
  import opened Numerals

  // ---- percent-encoding ----

  predicate IsUnreserved(c: char) {
    'A' <= c <= 'Z' || 'a' <= c <= 'z' || '0' <= c <= '9' || c in "-_.!~*'()"
  }

  function HexDigit(v: int): char
    requires 0 <= v < 16
  {
    if v < 10 then (v + '0' as int) as char else (v - 10 + 'A' as int) as char
  }

  /** The value of a hexadecimal digit of either case, or -1. */
  function HexValue(c: char): (v: int)
    ensures -1 <= v < 16
  {
    if '0' <= c <= '9' then c as int - '0' as int
    else if 'A' <= c <= 'F' then c as int - 'A' as int + 10
    else if 'a' <= c <= 'f' then c as int - 'a' as int + 10
    else -1
  }

  function EncodeByte(c: char): string
    requires c as int < 256
  {
    if IsUnreserved(c) then [c] else ['%', HexDigit(c as int / 16), HexDigit(c as int % 16)]
  }

  /** encodeURIComponent */
  function Encode(s: Bytes): string {
    if s == "" then "" else EncodeByte(s[0]) + Encode(s[1..])
  }

  method EncodeUriComponent(s: Bytes) returns (r: string)
    ensures r == Encode(s)
  {
    hide Encode;
    r := "";
    assert s[0..] == s;
    for i := 0 to |s|
      invariant r + Encode(s[i..]) == Encode(s)
    {
      EncodeStep(r, s[i..], s[i + 1..]);
      if IsUnreserved(s[i]) {
        r := r + [s[i]];
      } else {
        r := r + ['%', HexDigit(s[i] as int / 16), HexDigit(s[i] as int % 16)];
      }
    }
    assert s[|s|..] == "";
    EncodeNothing(r);
  }

  lemma EncodeStep(r: string, u: Bytes, rest: Bytes)
    requires u != "" && rest == u[1..]
    ensures r + Encode(u) == r + EncodeByte(u[0]) + Encode(rest)
  {
  }

  lemma EncodeNothing(r: string)
    ensures r + Encode("") == r
  {
  }

  /** url.PathUnescape: None on a malformed escape. */
  function Unescape(s: string): Option<string> {
    if s == "" then Some("")
    else if s[0] == '%' then
      if |s| < 3 || HexValue(s[1]) == -1 || HexValue(s[2]) == -1 then None
      else
        var rest := Unescape(s[3..]);
        if rest.None? then None else Some([(HexValue(s[1]) * 16 + HexValue(s[2])) as char] + rest.value)
    else
      var rest := Unescape(s[1..]);
      if rest.None? then None else Some([s[0]] + rest.value)
  }

  lemma HexOfByte(c: char)
    requires c as int < 256
    ensures HexValue(HexDigit(c as int / 16)) * 16 + HexValue(HexDigit(c as int % 16)) == c as int
    ensures HexValue(HexDigit(c as int / 16)) != -1 && HexValue(HexDigit(c as int % 16)) != -1
  {
  }

  /** Decoding undoes encoding. */
  lemma {:induction false} UnescapeOfEncode(s: Bytes)
    ensures Unescape(Encode(s)) == Some(s)
    decreases |s|
  {
    if s != "" {
      UnescapeOfEncode(s[1..]);
      HexOfByte(s[0]);
      var e, rest := EncodeByte(s[0]), Encode(s[1..]);
      assert (e + rest)[|e|..] == rest;
      assert s == [s[0]] + s[1..];
    }
  }

  /** Encoded text holds none of the characters that delimit a query. */
  lemma {:induction false} EncodedIsSafe(s: Bytes)
    ensures forall i :: 0 <= i < |Encode(s)| ==> Encode(s)[i] == '%' || IsUnreserved(Encode(s)[i])
    decreases |s|
  {
    if s != "" {
      EncodedIsSafe(s[1..]);
    }
  }

  /** strings.ReplaceAll(s, "+", "%20") */
  function PlusToSpace(s: string): string {
    if s == "" then ""
    else (if s[0] == '+' then "%20" else [s[0]]) + PlusToSpace(s[1..])
  }

  lemma {:induction false} PlusToSpaceKeeps(s: string)
    requires '+' !in s
    ensures PlusToSpace(s) == s
    decreases |s|
  {
    if s != "" {
      PlusToSpaceKeeps(s[1..]);
    }
  }

  // ---- reading and writing parameters ----

  /** The two packages decode differently: the parser also reads '+' as a space, and
      keeps malformed text where the producer drops it. */
  datatype Dialect = Producer | Parser

  function Decode(d: Dialect, s: string): string {
    match d
    case Producer => (var r := Unescape(s); if r.None? then "" else r.value)
    case Parser => (var t := PlusToSpace(s); var r := Unescape(t); if r.None? then t else r.value)
  }

  function RawKey(part: string): string {
    var k := IndexByte(part, '=');
    if k == -1 then part else part[..k]
  }

  function RawValue(part: string): string {
    var k := IndexByte(part, '=');
    if k == -1 then "" else part[k + 1..]
  }

  predicate Names(d: Dialect, part: string, name: string) {
    part != "" && Decode(d, RawKey(part)) == name
  }

  function ValueOf(d: Dialect, part: string): string {
    if IndexByte(part, '=') == -1 then "" else Decode(d, RawValue(part))
  }

  /** The nonempty parts that do not name the parameter, in order. */
  function Kept(d: Dialect, parts: seq<string>, name: string): seq<string> {
    if parts == [] then []
    else (if parts[0] == "" || Names(d, parts[0], name) then [] else [parts[0]]) + Kept(d, parts[1..], name)
  }

  /** The first value of the parameter that is not empty. */
  function FirstValue(d: Dialect, parts: seq<string>, name: string): string {
    if parts == [] then ""
    else if Names(d, parts[0], name) && ValueOf(d, parts[0]) != "" then ValueOf(d, parts[0])
    else FirstValue(d, parts[1..], name)
  }

  function PathOf(base: string, parts: seq<string>): string {
    if parts == [] then base else base + "?" + Join(parts, "&")
  }

  function Base(path: string): string {
    var q := IndexByte(path, '?');
    if q == -1 then path else path[..q]
  }

  function Parts(path: string): seq<string> {
    var q := IndexByte(path, '?');
    if q == -1 then [] else Split(path[q + 1..], '&')
  }

  /** The path without the parameter. */
  function Clean(d: Dialect, path: string, name: string): string {
    PathOf(Base(path), Kept(d, Parts(path), name))
  }

  function Value(d: Dialect, path: string, name: string): string {
    FirstValue(d, Parts(path), name)
  }

  /** The loop both extractPathQueryParam functions run over the parts. */
  method ExtractPathQueryParam(d: Dialect, path: string, name: string) returns (newPath: string, value: string)
    ensures newPath == Clean(d, path, name) && value == Value(d, path, name)
  {
    var qIdx := IndexByte(path, '?');
    if qIdx == -1 {
      return path, "";
    }
    var base, query := path[..qIdx], path[qIdx + 1..];
    var parts := Split(query, '&');
    var kept: seq<string>;
    kept, value := ReadParts(d, parts, name);
    newPath := base;
    if |kept| > 0 {
      newPath := base + "?" + Join(kept, "&");
    }
  }

  lemma ReadStep(d: Dialect, parts: seq<string>, i: nat, name: string)
    requires i < |parts|
    ensures Kept(d, parts[i..], name)
            == (if parts[i] == "" || Names(d, parts[i], name) then [] else [parts[i]]) + Kept(d, parts[i + 1..], name)
    ensures FirstValue(d, parts[i..], name)
            == if Names(d, parts[i], name) && ValueOf(d, parts[i]) != "" then ValueOf(d, parts[i]) else FirstValue(d, parts[i + 1..], name)
  {
    hide Names, ValueOf;
    NamesIs(d, parts[i], name);
    assert parts[i..][1..] == parts[i + 1..];
  }

  lemma ReadNothing(d: Dialect, parts: seq<string>, name: string, kept: seq<string>)
    ensures Kept(d, parts[|parts|..], name) == [] && FirstValue(d, parts[|parts|..], name) == "" && kept + [] == kept
  {
  }

  method ReadParts(d: Dialect, parts: seq<string>, name: string) returns (kept: seq<string>, value: string)
    ensures kept == Kept(d, parts, name) && value == FirstValue(d, parts, name)
  {
    hide Names, ValueOf, Kept, FirstValue;
    kept, value := [], "";
    assert parts[0..] == parts && [] + Kept(d, parts, name) == Kept(d, parts, name);
    for i := 0 to |parts|
      invariant kept + Kept(d, parts[i..], name) == Kept(d, parts, name)
      invariant (if value != "" then value else FirstValue(d, parts[i..], name)) == FirstValue(d, parts, name)
    {
      var part := parts[i];
      ReadStep(d, parts, i, name);
      assert kept + ([part] + Kept(d, parts[i + 1..], name)) == kept + [part] + Kept(d, parts[i + 1..], name);
      assert kept + ([] + Kept(d, parts[i + 1..], name)) == kept + Kept(d, parts[i + 1..], name);
      NamesIs(d, part, name);
      if part == "" {
        continue;
      }
      if Decode(d, RawKey(part)) != name {
        kept := kept + [part];
        continue;
      }
      var val := ValueOf(d, part);
      if value == "" && val != "" {
        value := val;
      }
    }
    ReadNothing(d, parts, name, kept);
  }

  lemma NamesIs(d: Dialect, part: string, name: string)
    ensures Names(d, part, name) <==> part != "" && Decode(d, RawKey(part)) == name
  {
  }

  /** getPathQueryParam: the first value that is not empty. */
  method GetPathQueryParam(path: string, name: string) returns (value: string)
    ensures value == Value(Parser, path, name)
  {
    var qIdx := IndexByte(path, '?');
    if qIdx == -1 {
      return "";
    }
    var parts := Split(path[qIdx + 1..], '&');
    assert parts[0..] == parts;
    for i := 0 to |parts|
      invariant FirstValue(Parser, parts[i..], name) == FirstValue(Parser, parts, name)
    {
      hide Names, ValueOf;
      var part := parts[i];
      assert parts[i..][1..] == parts[i + 1..];
      NamesIs(Parser, part, name);
      if part == "" {
        continue;
      }
      var val := ValueOf(Parser, part);
      if Decode(Parser, RawKey(part)) == name && val != "" {
        return val;
      }
    }
    return "";
  }

  /** `name=value`, percent-encoded. */
  function NewPart(name: Bytes, value: Bytes): string {
    Encode(name) + "=" + Encode(value)
  }

  /** setPathQueryParam */
  function Set(path: string, name: Bytes, value: Bytes): string {
    var clean := Clean(Producer, if path == "" then "/" else path, name);
    if '?' in clean then clean + "&" + NewPart(name, value) else clean + "?" + NewPart(name, value)
  }

  // ---- laws ----

  /** Parts that a query splits into. */
  predicate ProperParts(parts: seq<string>) {
    forall p :: p in parts ==> p != "" && '&' !in p
  }

  lemma {:induction false} KeptIsProper(d: Dialect, parts: seq<string>, name: string)
    requires forall p :: p in parts ==> '&' !in p
    ensures ProperParts(Kept(d, parts, name))
    ensures forall p :: p in Kept(d, parts, name) ==> p in parts && !Names(d, p, name)
    decreases |parts|
  {
    if parts != [] {
      KeptIsProper(d, parts[1..], name);
    }
  }

  /** Reading a path that was put together from proper parts finds these parts. */
  lemma PartsOfPath(base: string, parts: seq<string>)
    requires '?' !in base && ProperParts(parts)
    ensures Base(PathOf(base, parts)) == base && Parts(PathOf(base, parts)) == parts
  {
    var path := PathOf(base, parts);
    if parts == [] {
      IndexByteIsFirst(base, '?');
    } else {
      assert path[..|base|] == base && path[|base|] == '?';
      IndexByteUnique(path, '?', |base|);
      assert path[|base| + 1..] == Join(parts, "&");
      SplitJoin(parts, '&');
    }
  }

  lemma BaseHasNoQuery(path: string)
    ensures '?' !in Base(path)
  {
    IndexByteIsFirst(path, '?');
  }

  lemma PartsAreSplit(path: string)
    ensures forall p :: p in Parts(path) ==> '&' !in p
  {
  }

  /** Clean paths are built from proper parts that do not name the parameter. */
  lemma CleanParts(d: Dialect, path: string, name: string)
    ensures var clean, kept := Clean(d, path, name), Kept(d, Parts(path), name);
            && Base(clean) == Base(path) && Parts(clean) == kept && ProperParts(kept)
            && (forall p :: p in kept ==> !Names(d, p, name))
            && ('?' in clean <==> kept != [])
  {
    var kept := Kept(d, Parts(path), name);
    BaseHasNoQuery(path);
    PartsAreSplit(path);
    KeptIsProper(d, Parts(path), name);
    PartsOfPath(Base(path), kept);
    if kept != [] {
      assert Clean(d, path, name)[|Base(path)|] == '?';
    }
  }

  lemma {:induction false} KeptOfKept(d: Dialect, parts: seq<string>, name: string)
    requires ProperParts(parts) && forall p :: p in parts ==> !Names(d, p, name)
    ensures Kept(d, parts, name) == parts && FirstValue(d, parts, name) == ""
    decreases |parts|
  {
    if parts != [] {
      assert parts[0] in parts && forall p :: p in parts[1..] ==> p in parts;
      KeptOfKept(d, parts[1..], name);
      assert parts == [parts[0]] + parts[1..];
    }
  }

  /** Extracting from a cleaned path changes nothing. */
  lemma ExtractFromClean(d: Dialect, path: string, name: string)
    ensures var clean := Clean(d, path, name);
            Clean(d, clean, name) == clean && Value(d, clean, name) == ""
  {
    CleanParts(d, path, name);
    KeptOfKept(d, Kept(d, Parts(path), name), name);
  }

  predicate SafeText(s: string) {
    forall i :: 0 <= i < |s| ==> s[i] == '%' || IsUnreserved(s[i])
  }

  lemma PartReads(e1: string, e2: string)
    requires SafeText(e1) && SafeText(e2)
    ensures var p := e1 + "=" + e2;
            && p != "" && '&' !in p && '?' !in p
            && IndexByte(p, '=') == |e1| && RawKey(p) == e1 && RawValue(p) == e2
  {
    var p := e1 + "=" + e2;
    assert p[..|e1|] == e1 && p[|e1|] == '=' && p[|e1| + 1..] == e2;
    IndexByteUnique(p, '=', |e1|);
  }

  lemma NewPartReads(d: Dialect, name: Bytes, value: Bytes)
    ensures var p := NewPart(name, value);
            p != "" && '&' !in p && '?' !in p && Names(d, p, name) && ValueOf(d, p) == value
            && Decode(d, RawKey(p)) == name
  {
    hide Encode, Decode, IsUnreserved, RawKey, RawValue, IndexByte;
    EncodedIsSafe(name);
    EncodedIsSafe(value);
    PartReads(Encode(name), Encode(value));
    DecodeOfEncode(d, name);
    DecodeOfEncode(d, value);
  }

  lemma DecodeOfEncode(d: Dialect, s: Bytes)
    ensures Decode(d, Encode(s)) == s
  {
    hide Encode, Unescape, PlusToSpace;
    UnescapeOfEncode(s);
    EncodedIsSafe(s);
    PlusToSpaceKeeps(Encode(s));
  }

  /** The set path is the clean one with the new part at its end. */
  lemma SetParts(path: string, name: Bytes, value: Bytes)
    ensures var p := if path == "" then "/" else path;
            var kept := Kept(Producer, Parts(p), name);
            && Set(path, name, value) == PathOf(Base(p), kept + [NewPart(name, value)])
            && ProperParts(kept + [NewPart(name, value)]) && '?' !in Base(p)
  {
    hide Encode, NewPart, Kept, Parts, Base, Names;
    var p := if path == "" then "/" else path;
    var kept := Kept(Producer, Parts(p), name);
    CleanParts(Producer, p, name);
    BaseHasNoQuery(p);
    NewPartReads(Producer, name, value);
    if kept == [] {
      assert kept + [NewPart(name, value)] == [NewPart(name, value)];
    } else {
      JoinAppend(kept, [NewPart(name, value)], "&");
    }
  }

  lemma {:induction false} KeptAppend(d: Dialect, parts: seq<string>, last: string, name: string)
    ensures Kept(d, parts + [last], name) == Kept(d, parts, name) + Kept(d, [last], name)
    ensures FirstValue(d, parts + [last], name) ==
            if FirstValue(d, parts, name) != "" then FirstValue(d, parts, name) else FirstValue(d, [last], name)
    decreases |parts|
  {
    hide Names, ValueOf;
    if parts != [] {
      assert (parts + [last])[1..] == parts[1..] + [last];
      KeptAppend(d, parts[1..], last, name);
    } else {
      assert parts + [last] == [last];
    }
  }

  /** Extract after set: the cleaned path and the value. */
  lemma ExtractAfterSet(path: string, name: Bytes, value: Bytes)
    ensures var p := if path == "" then "/" else path;
            && Clean(Producer, Set(path, name, value), name) == Clean(Producer, p, name)
            && Value(Producer, Set(path, name, value), name) == value
  {
    hide Encode, NewPart, Set;
    var p := if path == "" then "/" else path;
    var kept, part := Kept(Producer, Parts(p), name), NewPart(name, value);
    SetParts(path, name, value);
    PartsOfPath(Base(p), kept + [part]);
    CleanParts(Producer, p, name);
    KeptOfKept(Producer, kept, name);
    KeptAppend(Producer, kept, part, name);
    NewPartReads(Producer, name, value);
    assert kept + [] == kept;
    assert Kept(Producer, [part], name) == [];
    assert FirstValue(Producer, [part], name) == value;
  }

  /** Set twice equals the last set. */
  lemma SetTwice(path: string, name: Bytes, first: Bytes, second: Bytes)
    ensures Set(Set(path, name, first), name, second) == Set(path, name, second)
  {
    hide Encode, NewPart, Clean;
    ExtractAfterSet(path, name, first);
  }

  lemma {:induction false} OtherValueKept(d: Dialect, parts: seq<string>, name: string, other: string)
    requires other != name
    ensures FirstValue(d, Kept(d, parts, name), other) == FirstValue(d, parts, other)
    decreases |parts|
  {
    if parts != [] {
      OtherValueKept(d, parts[1..], name, other);
      var rest := Kept(d, parts[1..], name);
      if parts[0] != "" && !Names(d, parts[0], name) {
        assert ([parts[0]] + rest)[1..] == rest;
      } else {
        assert [] + rest == rest;
      }
    }
  }

  /** Setting one parameter leaves the value of every other one alone. */
  lemma SetLeavesOthers(path: string, name: Bytes, value: Bytes, other: string)
    requires other != name
    ensures Value(Producer, Set(path, name, value), other) == Value(Producer, path, other)
  {
    hide Encode, NewPart, Set;
    var p := if path == "" then "/" else path;
    var kept, part := Kept(Producer, Parts(p), name), NewPart(name, value);
    SetParts(path, name, value);
    PartsOfPath(Base(p), kept + [part]);
    KeptAppend(Producer, kept, part, other);
    NewPartReads(Producer, name, value);
    OtherValueKept(Producer, Parts(p), name, other);
    assert Parts("") == Parts("/");
    assert FirstValue(Producer, [part], other) == "";
  }

  // ---- early data ----

  const MAX_SAFE := 9007199254740991

  /** getSafeEarlyDataValue of the option's text: digits within 64 bits, or nothing. */
  function SafeEarlyData(v: string): string {
    var t := TrimSpace(v);
    if v == "" || t == "" || !AllDigits(t) || Atoi(t).None? then "" else v
  }

  /** setWebSocketEarlyDataPath; `size` is the text of max-early-data, empty when unset. */
  function SetEarlyDataPath(path: string, size: Bytes, headerName: string): string {
    if SafeEarlyData(size) == "" then (if size != "" then Clean(Producer, path, "ed") else path)
    else if headerName != "" && headerName != "Sec-WebSocket-Protocol" then Clean(Producer, path, "ed")
    else Set(path, "ed", size)
  }

  predicate IsNumericEarlyData(v: string) {
    v != "" && AllDigits(v) && Digits(v) <= MAX_SAFE
  }

  /** extractEarlyDataFromPath */
  function ExtractEarlyData(path: string): (string, string) {
    var ed := Value(Parser, path, "ed");
    if IsNumericEarlyData(ed) then (Clean(Parser, path, "ed"), ed) else (path, "")
  }

  method ExtractEarlyDataFromPath(path: string) returns (p: string, ed: string)
    ensures (p, ed) == ExtractEarlyData(path)
  {
    ed := GetPathQueryParam(path, "ed");
    if !IsNumericEarlyData(ed) {
      return path, "";
    }
    var value;
    p, value := ExtractPathQueryParam(Parser, path, "ed");
  }

  /** A '+' survives plain decoding, and becomes a space after replacement. */
  lemma {:induction false} PlusSurvives(s: string)
    requires '+' in s
    ensures Unescape(s).Some? ==> '+' in Unescape(s).value
    ensures Unescape(PlusToSpace(s)).Some? ==> ' ' in Unescape(PlusToSpace(s)).value
    decreases |s|
  {
    var t := PlusToSpace(s);
    if s[0] == '+' {
      assert t[3..] == PlusToSpace(s[1..]);
    } else if s[0] == '%' {
      assert t == [s[0]] + PlusToSpace(s[1..]);
      if |s| >= 3 && s[1] != '+' && s[2] != '+' {
        assert t[1..] == PlusToSpace(s[1..]);
        assert PlusToSpace(s[1..]) == [s[1]] + PlusToSpace(s[2..]);
        assert PlusToSpace(s[2..]) == [s[2]] + PlusToSpace(s[3..]);
        assert t[3..] == PlusToSpace(s[3..]);
        assert s == [s[0], s[1], s[2]] + s[3..];
        PlusSurvives(s[3..]);
      } else {
        PlusAfterPercent(s);
      }
    } else {
      assert t[1..] == PlusToSpace(s[1..]);
      assert s == [s[0]] + s[1..];
      PlusSurvives(s[1..]);
    }
  }

  lemma PlusAfterPercent(s: string)
    requires s != "" && s[0] == '%' && (|s| < 3 || s[1] == '+' || s[2] == '+')
    requires '+' in s
    ensures Unescape(s).None? && Unescape(PlusToSpace(s)).None?
  {
    var t := PlusToSpace(s);
    assert t == "%" + PlusToSpace(s[1..]);
    if s[1] == '+' {
      assert PlusToSpace(s[1..]) == "%20" + PlusToSpace(s[2..]);
      assert t[1] == '%';
    } else {
      assert PlusToSpace(s[1..]) == [s[1]] + PlusToSpace(s[2..]);
      assert PlusToSpace(s[2..]) == "%20" + PlusToSpace(s[3..]);
      assert t[2] == '%';
    }
  }

  /** Both packages take the same parts for the early-data parameter. */
  lemma SameEarlyDataKey(key: string)
    ensures Decode(Producer, key) == "ed" <==> Decode(Parser, key) == "ed"
  {
    if '+' in key {
      PlusSurvives(key);
      PlusGrows(key);
    } else {
      PlusToSpaceKeeps(key);
      if Unescape(key).None? {
        PlainUnescape("ed");
        assert key != "ed";
      }
    }
  }

  lemma {:induction false} PlusGrows(s: string)
    ensures |PlusToSpace(s)| >= |s| + if '+' in s then 2 else 0
    decreases |s|
  {
    if s != "" {
      PlusGrows(s[1..]);
      assert s == [s[0]] + s[1..];
    }
  }

  lemma {:induction false} PlainUnescape(s: string)
    requires '%' !in s
    ensures Unescape(s) == Some(s)
    decreases |s|
  {
    if s != "" {
      assert s[0] in s && s == [s[0]] + s[1..];
      PlainUnescape(s[1..]);
    }
  }

  lemma SameEarlyDataParts(part: string)
    ensures Names(Producer, part, "ed") <==> Names(Parser, part, "ed")
  {
    SameEarlyDataKey(RawKey(part));
  }

  lemma ItoaIsByteText(n: nat)
    ensures forall i :: 0 <= i < |Itoa(n)| ==> Itoa(n)[i] as int < 256
  {
  }

  lemma {:induction false} DigitsAreTrimmed(s: string)
    requires AllDigits(s)
    ensures Trimmed(s)
  {
    TrimKeepsEdges(s);
  }

  /** What the parser finds in a path the producer set. */
  lemma ParserReadsSetPath(path: string, value: Bytes)
    ensures var p := if path == "" then "/" else path;
            && Clean(Parser, Set(path, "ed", value), "ed") == Clean(Producer, p, "ed")
            && Value(Parser, Set(path, "ed", value), "ed") == value
  {
    hide Encode, NewPart, Set, Names, Decode;
    var p := if path == "" then "/" else path;
    var kept, part := Kept(Producer, Parts(p), "ed"), NewPart("ed", value);
    SetParts(path, "ed", value);
    PartsOfPath(Base(p), kept + [part]);
    CleanParts(Producer, p, "ed");
    forall q | q in kept ensures !Names(Parser, q, "ed") {
      SameEarlyDataParts(q);
    }
    KeptOfKept(Parser, kept, "ed");
    KeptAppend(Parser, kept, part, "ed");
    NewPartReads(Parser, "ed", value);
    assert kept + [] == kept;
    assert Kept(Parser, [part], "ed") == [];
    assert FirstValue(Parser, [part], "ed") == value;
  }

  /** The size as the option's text. */
  function SizeText(n: nat): Bytes {
    ItoaIsByteText(n);
    Itoa(n)
  }

  /** Early data: under the default header name the parser gets back the cleaned path and
      the size the producer wrote, exactly for sizes up to 2^53 - 1; a larger one stays
      in the path. */
  lemma EarlyDataRoundTrip(path: string, n: nat, headerName: string)
    requires n <= MAX_INT && (headerName == "" || headerName == "Sec-WebSocket-Protocol")
    ensures var set1 := SetEarlyDataPath(path, SizeText(n), headerName);
            ExtractEarlyData(set1) ==
              if n < 0x20_0000_0000_0000 then (Clean(Producer, if path == "" then "/" else path, "ed"), SizeText(n)) else (set1, "")
  {
    hide Set, Clean, Value;
    DigitsAreTrimmed(SizeText(n));
    AtoiOfItoa(n);
    DigitsOfItoa(n);
    ParserReadsSetPath(path, SizeText(n));
  }

  /** On a path that is already clean nothing but the size is added: reading undoes
      setting. */
  lemma EarlyDataUndone(path: string, n: nat, headerName: string)
    requires n < 0x20_0000_0000_0000 && (headerName == "" || headerName == "Sec-WebSocket-Protocol")
    ensures ExtractEarlyData(SetEarlyDataPath(path, SizeText(n), headerName)) == (path, SizeText(n))
            <==> path != "" && Clean(Producer, path, "ed") == path
  {
    EarlyDataRoundTrip(path, n, headerName);
    CleanSlash();
  }

  lemma CleanSlash()
    ensures Clean(Producer, "/", "ed") == "/"
  {
    assert IndexByte("/", '?') == -1;
  }

  // ---- the codes, spelled out ----

  /** Letters, digits and -_.!~*'() stand for themselves; every other byte becomes '%' and
      two upper-case hexadecimal digits. */
  lemma EncodedByte(c: char)
    requires c as int < 256
    ensures if 'a' <= c <= 'z' || 'A' <= c <= 'Z' || '0' <= c <= '9' || c in ['-', '_', '.', '!', '~', '*', '\'', '(', ')']
            then EncodeByte(c) == [c]
            else EncodeByte(c) == ['%', "0123456789ABCDEF"[c as int / 16], "0123456789ABCDEF"[c as int % 16]]
  {
    assert c in "-_.!~*'()" <==> c in ['-', '_', '.', '!', '~', '*', '\'', '(', ')'];
    HexDigitIs(c as int / 16);
    HexDigitIs(c as int % 16);
  }

  lemma HexDigitIs(v: int)
    requires 0 <= v < 16
    ensures HexDigit(v) == "0123456789ABCDEF"[v]
  {
  }

  lemma {:induction false} UnescapeJoined(a: string, b: string)
    requires '%' !in a
    ensures Unescape(a + b) == if Unescape(b).None? then None else Some(a + Unescape(b).value)
    decreases |a|
  {
    if a == "" {
      assert a + b == b;
      assert Unescape(b).Some? ==> a + Unescape(b).value == Unescape(b).value;
    } else {
      assert a[0] in a && forall c :: c in a[1..] ==> c in a;
      assert (a + b)[1..] == a[1..] + b;
      UnescapeJoined(a[1..], b);
      if Unescape(b).Some? {
        assert [a[0]] + (a[1..] + Unescape(b).value) == a + Unescape(b).value;
      }
    }
  }

  lemma {:induction false} PlusJoined(a: string, b: string)
    requires '+' !in a
    ensures PlusToSpace(a + b) == a + PlusToSpace(b)
    decreases |a|
  {
    if a == "" {
      assert a + b == b;
    } else {
      assert (a + b)[1..] == a[1..] + b;
      PlusJoined(a[1..], b);
      assert [a[0]] + (a[1..] + PlusToSpace(b)) == a + PlusToSpace(b);
    }
  }

  /** The parser reads a plus sign as a space; the producer reads it as itself. */
  lemma PlusReads(a: string, b: string)
    requires '+' !in a && '%' !in a && '+' !in b && '%' !in b
    ensures Decode(Parser, a + "+" + b) == a + " " + b
    ensures Decode(Producer, a + "+" + b) == a + "+" + b
  {
    var s, t := "+" + b, "%20" + b;
    assert a + "+" + b == a + s;
    PlusJoined(a, s);
    assert s[1..] == b && t[3..] == b;
    PlusToSpaceKeeps(b);
    UnescapeJoined(b, "");
    assert b + "" == b;
    UnescapeJoined(a, t);
    UnescapeJoined(a, s);
    assert a + (" " + b) == a + " " + b;
    assert HexValue('2') * 16 + HexValue('0') == ' ' as int;
  }

  /** A malformed escape is kept as it is by the parser and dropped by the producer. */
  lemma MalformedReads(s: string)
    requires '+' !in s && Unescape(s).None?
    ensures Decode(Parser, s) == s && Decode(Producer, s) == ""
  {
    PlusToSpaceKeeps(s);
  }

  /** Of several values the first that is not empty counts. */
  lemma {:induction false} FirstCounts(d: Dialect, before: seq<string>, part: string, after: seq<string>, name: string)
    requires forall i :: 0 <= i < |before| ==> !Names(d, before[i], name) || ValueOf(d, before[i]) == ""
    requires Names(d, part, name) && ValueOf(d, part) != ""
    ensures FirstValue(d, before + [part] + after, name) == ValueOf(d, part)
    decreases |before|
  {
    var all := before + [part] + after;
    if before != [] {
      assert all[1..] == before[1..] + [part] + after;
      FirstCounts(d, before[1..], part, after, name);
    }
  }

  /** Without a size nothing is written; a size that is no safe integer, or goes under
      another header name, is taken out of the path. */
  lemma SizeNotWritten(path: string, size: Bytes, headerName: string)
    requires SafeEarlyData(size) == "" || (headerName != "" && headerName != "Sec-WebSocket-Protocol")
    ensures size == "" ==> SetEarlyDataPath(path, size, headerName) == path
    ensures size != "" ==> Value(Producer, SetEarlyDataPath(path, size, headerName), "ed") == ""
  {
    hide Clean, Value, Set;
    ExtractFromClean(Producer, path, "ed");
  }
}
