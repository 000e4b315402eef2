/** QX lines: passwords that contain commas are cut by the field splitter and put
    together again by the line reader. */
module Qx {
  import opened GoStrings
  import opened SurgeHeaders
  import opened SurgeFields
  import opened SurgeRoundTrip
  import opened Numerals
  import opened QxAlpn

  type Param = (string, string)

  // ---- the reader ----

  /** The line types whose password may hold commas. */
  predicate PasswordTakesCommas(typ: string) {
    typ in {"trojan", "shadowsocks", "anytls", "http", "socks5"}
  }

  /** A field that starts a new parameter. */
  predicate IsNextParameter(field: string) {
    IndexByte(field, '=') > 0
  }

  predicate IsPassword(field: string) {
    "password=" <= TrimSpace(field)
  }

  /** How many leading fields belong to the password in front of them. */
  function RunLength(fields: seq<string>): (n: nat)
    ensures n <= |fields|
  {
    if fields == [] || IsNextParameter(TrimSpace(fields[0])) then 0 else 1 + RunLength(fields[1..])
  }

  /** Each string behind a comma. */
  function Tail(xs: seq<string>): string {
    if xs == [] then "" else "," + xs[0] + Tail(xs[1..])
  }

  function MergeRest(fields: seq<string>): seq<string>
    decreases |fields|
  {
    if fields == [] then []
    else if !IsPassword(fields[0]) then [fields[0]] + MergeRest(fields[1..])
    else
      var n := RunLength(fields[1..]);
      [fields[0] + Tail(TrimAll(fields[1..n + 1]))] + MergeRest(fields[n + 1..])
  }

  /** Passwords put together again; the address field is never one. */
  function Merge(fields: seq<string>): seq<string> {
    if fields == [] then [] else [fields[0]] + MergeRest(fields[1..])
  }

  /** Every value but that of `tag` is trimmed before it is applied. */
  function OptionText(key: string, value: string): string {
    if key == "tag" then value else TrimSpace(value)
  }

  function ReadOption(field: string): Param
    requires '=' in field
  {
    var k := IndexByte(field, '=');
    IndexByteIsFirst(field, '=');
    var key := TrimSpace(field[..k]);
    (key, OptionText(key, SkipSpaces(field[k + 1..])))
  }

  /** Fields without '=' are dropped. */
  function Options(fields: seq<string>): seq<Param> {
    if fields == [] then []
    else
      var f := TrimSpace(fields[0]);
      (if '=' in f then [ReadOption(f)] else []) + Options(fields[1..])
  }

  datatype Reading = Panics | Invalid | Line(typ: string, address: string, options: seq<Param>)

  /** A line up to the point where single options are interpreted. */
  function ReadLine(line: string): Reading {
    var eq := IndexByte(line, '=');
    if eq == -1 then Invalid
    else
      var typ, fields := TrimSpace(line[..eq]), Fields(line[eq + 1..]);
      if fields == None then Panics
      else if fields.value == [] then Invalid
      else
        var merged := if PasswordTakesCommas(typ) then Merge(fields.value) else fields.value;
        Line(typ, TrimSpace(merged[0]), Options(merged[1..]))
  }

  // ---- the reader's loops ----

  lemma {:induction false} TailSnoc(xs: seq<string>, x: string)
    ensures Tail(xs + [x]) == Tail(xs) + "," + x
    decreases |xs|
  {
    if xs == [] {
      assert [x][1..] == [] && [] + [x] == [x];
    } else {
      assert (xs + [x])[1..] == xs[1..] + [x];
      TailSnoc(xs[1..], x);
    }
  }

  lemma TrimAllSnoc(xs: seq<string>, x: string)
    ensures TrimAll(xs + [x]) == TrimAll(xs) + [TrimSpace(x)]
  {
  }

  lemma {:induction false} RunLengthIs(fields: seq<string>, n: nat)
    requires n <= |fields|
    requires forall i :: 0 <= i < n ==> !IsNextParameter(TrimSpace(fields[i]))
    requires n == |fields| || IsNextParameter(TrimSpace(fields[n]))
    ensures RunLength(fields) == n
    decreases n
  {
    if n > 0 {
      RunLengthIs(fields[1..], n - 1);
    }
  }

  lemma TailTrimmedSnoc(fields: seq<string>, i: nat, j: nat)
    requires i <= j < |fields|
    ensures Tail(TrimAll(fields[i..j + 1])) == Tail(TrimAll(fields[i..j])) + "," + TrimSpace(fields[j])
  {
    hide TrimSpace;
    assert fields[i..j + 1] == fields[i..j] + [fields[j]];
    TrimAllSnoc(fields[i..j], fields[j]);
    TailSnoc(TrimAll(fields[i..j]), TrimSpace(fields[j]));
  }

  lemma NoTailTrimmed(xs: seq<string>)
    requires xs == []
    ensures Tail(TrimAll(xs)) == ""
  {
  }

  /** The fields after a password field that it swallows, joined to it. */
  method TakePassword(fields: seq<string>, i: nat) returns (f: string, j: nat)
    requires i < |fields|
    ensures j == i + 1 + RunLength(fields[i + 1..])
    ensures f == fields[i] + Tail(TrimAll(fields[i + 1..j]))
  {
    hide TrimSpace, Tail, TrimAll, IsNextParameter;
    f, j := fields[i], i + 1;
    NoTailTrimmed(fields[i + 1..j]);
    assert f + "" == f;
    while j < |fields| && !IsNextParameter(TrimSpace(fields[j]))
      invariant i + 1 <= j <= |fields|
      invariant forall k :: i + 1 <= k < j ==> !IsNextParameter(TrimSpace(fields[k]))
      invariant f == fields[i] + Tail(TrimAll(fields[i + 1..j]))
    {
      TailTrimmedSnoc(fields, i + 1, j);
      Assoc(fields[i], Tail(TrimAll(fields[i + 1..j])), ",");
      Assoc(fields[i], Tail(TrimAll(fields[i + 1..j])) + ",", TrimSpace(fields[j]));
      f := f + "," + TrimSpace(fields[j]);
      j := j + 1;
    }
    RunLengthIs(fields[i + 1..], j - i - 1);
  }

  lemma MergeRestStep(fields: seq<string>, i: nat, j: nat)
    requires i < |fields| && j == i + 1 + RunLength(fields[i + 1..])
    ensures MergeRest(fields[i..]) ==
            if IsPassword(fields[i]) then [fields[i] + Tail(TrimAll(fields[i + 1..j]))] + MergeRest(fields[j..])
            else [fields[i]] + MergeRest(fields[i + 1..])
  {
    var rest := fields[i..];
    var n := RunLength(fields[i + 1..]);
    hide RunLength, IsPassword, Tail, TrimAll;
    assert rest[1..] == fields[i + 1..] && rest[1..n + 1] == fields[i + 1..j] && rest[n + 1..] == fields[j..];
  }

  lemma MergeEnds(fields: seq<string>, i: nat, out: seq<string>)
    requires i == |fields|
    ensures out + MergeRest(fields[i..]) == out
  {
    assert fields[i..] == [] && out + [] == out;
  }

  method MergePasswordCommaFields(fields: seq<string>) returns (out: seq<string>)
    ensures out == Merge(fields)
  {
    hide RunLength, IsPassword, TrimAll, Tail, MergeRest;
    out := [];
    var i := 0;
    while i < |fields|
      invariant 0 <= i <= |fields|
      invariant if i == 0 then out == [] else Merge(fields) == out + MergeRest(fields[i..])
    {
      if i == 0 || !IsPassword(fields[i]) {
        MergeRestStep(fields, i, i + 1 + RunLength(fields[i + 1..]));
        assert i > 0 ==> (out + [fields[i]]) + MergeRest(fields[i + 1..]) == out + ([fields[i]] + MergeRest(fields[i + 1..]));
        out := out + [fields[i]];
        i := i + 1;
      } else {
        var f, j := TakePassword(fields, i);
        MergeRestStep(fields, i, j);
        assert (out + [f]) + MergeRest(fields[j..]) == out + ([f] + MergeRest(fields[j..]));
        out := out + [f];
        i := j;
      }
    }
    MergeEnds(fields, i, out);
  }

  lemma {:induction false} OptionsSnoc(fields: seq<string>, field: string)
    ensures var f := TrimSpace(field);
            Options(fields + [field]) == Options(fields) + if '=' in f then [ReadOption(f)] else []
    decreases |fields|
  {
    hide ReadOption, TrimSpace;
    if fields == [] {
      assert [field][1..] == [] && [] + [field] == [field];
    } else {
      assert (fields + [field])[1..] == fields[1..] + [field];
      OptionsSnoc(fields[1..], field);
      var f, g := TrimSpace(fields[0]), TrimSpace(field);
      var head := if '=' in f then [ReadOption(f)] else [];
      var last := if '=' in g then [ReadOption(g)] else [];
      assert head + (Options(fields[1..]) + last) == head + Options(fields[1..]) + last;
    }
  }

  /** The option loop, and the trimming in front of each option's own rule. */
  method ReadOptions(fields: seq<string>) returns (options: seq<Param>)
    ensures options == Options(fields)
  {
    hide TrimSpace;
    options := [];
    for i := 0 to |fields|
      invariant options == Options(fields[..i])
    {
      OptionsSnoc(fields[..i], fields[i]);
      assert fields[..i + 1] == fields[..i] + [fields[i]];
      var f := TrimSpace(fields[i]);
      var k := IndexByte(f, '=');
      IndexByteIsFirst(f, '=');
      if k == -1 {
        continue;
      }
      var key, value := TrimSpace(f[..k]), SkipSpaces(f[k + 1..]);
      if key != "tag" {
        value := TrimSpace(value);
      }
      options := options + [(key, value)];
    }
    assert fields[..|fields|] == fields;
  }

  // ---- the printer ----

  function Assignment(p: Param): string {
    p.0 + "=" + p.1
  }

  function Assignments(ps: seq<Param>): (fs: seq<string>)
    ensures |fs| == |ps| && forall i :: 0 <= i < |ps| ==> fs[i] == Assignment(ps[i])
  {
    if ps == [] then [] else [Assignment(ps[0])] + Assignments(ps[1..])
  }

  /** `type=address,key=value,...,password=...,key=value,...` */
  function PrintLine(typ: string, address: string, before: seq<Param>, password: string, after: seq<Param>): string {
    typ + "=" + (address + (Tail(Assignments(before)) + (",password=" + password + Tail(Assignments(after)))))
  }

  /** A trojan proxy as far as a QX line prints it; the values are already text. */
  datatype Trojan = Trojan(
    server: string, port: nat, password: string, name: string,
    network: Option<string>, tls: bool, path: Option<string>, host: Option<string>,
    pubkey: Option<string>, tlsAlpn: Option<string>, alpn: Option<Alpn>,
    noTicket: Option<string>, noReuse: Option<string>,
    fingerprint: Option<string>, nameCertVerify: Option<string>, skipCertVerify: Option<bool>,
    sni: Option<string>, tfo: Option<string>, udp: Option<string>, testUrl: Option<string>)

  function IfPresent(ps: seq<Param>, key: string, value: Option<string>): seq<Param> {
    if value.None? then ps else ps + [(key, value.value)]
  }

  function TrojanTransport(t: Trojan): seq<Param> {
    if t.network == Some("ws") then
      IfPresent(IfPresent([("obfs", if t.tls then "wss" else "ws")], "obfs-uri", t.path), "obfs-host", t.host)
    else if t.tls then [("over-tls", "true")]
    else []
  }

  /** A raw tls-alpn wins; otherwise the alpn list is encoded, unless nothing is in it. */
  function AlpnText(t: Trojan): Option<string> {
    if t.tlsAlpn.Some? then t.tlsAlpn
    else if t.alpn.None? then None
    else
      var e := Encoded(NonBlank(AlpnItems(t.alpn.value)));
      if e == "" then None else Some(e)
  }

  /** A protocol of the list that would be encoded is too long. */
  predicate AlpnFails(t: Trojan) {
    t.tlsAlpn.None? && t.alpn.Some? && !Fits(NonBlank(AlpnItems(t.alpn.value)))
  }

  /** name-cert-verify, or else whether the certificate is checked. */
  function Verification(t: Trojan): Option<string> {
    if t.nameCertVerify.Some? then t.nameCertVerify
    else if t.skipCertVerify.None? then None
    else Some(if t.skipCertVerify.value then "false" else "true")
  }

  function TlsBlock(ps: seq<Param>, t: Trojan): seq<Param> {
    var a := IfPresent(IfPresent(ps, "tls-pubkey-sha256", t.pubkey), "tls-alpn", AlpnText(t));
    var b := IfPresent(IfPresent(a, "tls-no-session-ticket", t.noTicket), "tls-no-session-reuse", t.noReuse);
    IfPresent(IfPresent(b, "tls-cert-sha256", t.fingerprint), "tls-verification", Verification(t))
  }

  function Common(ps: seq<Param>, t: Trojan): seq<Param> {
    IfPresent(IfPresent(IfPresent(ps, "fast-open", t.tfo), "udp-relay", t.udp), "server_check_url", t.testUrl) + [("tag", t.name)]
  }

  /** What follows the password. */
  function TrojanParams(t: Trojan): seq<Param> {
    var transport := TrojanTransport(t);
    Common(if t.tls then IfPresent(TlsBlock(transport, t), "tls-host", t.sni) else transport, t)
  }

  function TrojanAddress(t: Trojan): string {
    t.server + ":" + Itoa(t.port)
  }

  lemma {:induction false} TailAppend(xs: seq<string>, ys: seq<string>)
    ensures Tail(xs + ys) == Tail(xs) + Tail(ys)
    decreases |xs|
  {
    if xs == [] {
      assert [] + ys == ys;
    } else {
      assert (xs + ys)[1..] == xs[1..] + ys;
      TailAppend(xs[1..], ys);
      assert "," + xs[0] + (Tail(xs[1..]) + Tail(ys)) == "," + xs[0] + Tail(xs[1..]) + Tail(ys);
    }
  }

  lemma AssignmentsAppend(xs: seq<Param>, ys: seq<Param>)
    ensures Assignments(xs + ys) == Assignments(xs) + Assignments(ys)
    ensures Tail(Assignments(xs + ys)) == Tail(Assignments(xs)) + Tail(Assignments(ys))
  {
    hide Assignment, Assignments, Tail;
    var a, b := Assignments(xs + ys), Assignments(xs) + Assignments(ys);
    forall i | 0 <= i < |a|
      ensures a[i] == b[i]
    {
      assert (xs + ys)[i] == if i < |xs| then xs[i] else ys[i - |xs|];
    }
    assert a == b;
    TailAppend(Assignments(xs), Assignments(ys));
  }

  /** The string builder behind a line printer. */
  class Builder {
    var text: string
    ghost var params: seq<Param>
    ghost const start: string

    ghost predicate Valid()
      reads this
    {
      text == start + Tail(Assignments(params))
    }

    constructor (start: string)
      ensures Valid() && this.start == start && params == []
    {
      text, params, this.start := start, [], start;
      new;
      assert start + "" == start;
    }

    method Append(key: string, value: string)
      requires Valid()
      modifies this
      ensures Valid() && params == old(params) + [(key, value)]
    {
      AssignmentsAppend(params, [(key, value)]);
      assert Assignments([(key, value)]) == [Assignment((key, value))];
      text := text + ("," + key + "=" + value);
      params := params + [(key, value)];
      TailOne(key, value);
      assert text == start + (Tail(Assignments(old(params))) + Tail(Assignments([(key, value)])));
    }

    method AppendIfPresent(key: string, value: Option<string>)
      requires Valid()
      modifies this
      ensures Valid() && params == IfPresent(old(params), key, value)
    {
      if value.Some? {
        Append(key, value.value);
      }
    }
  }

  lemma TailOne(key: string, value: string)
    ensures Tail([Assignment((key, value))]) == "," + key + "=" + value
  {
    var xs := [Assignment((key, value))];
    assert xs[1..] == [];
  }

  method AppendTlsAlpn(result: Builder, t: Trojan) returns (ok: bool)
    requires result.Valid()
    modifies result
    ensures result.Valid() && (ok <==> !AlpnFails(t))
    ensures result.params == if ok then IfPresent(old(result.params), "tls-alpn", AlpnText(t)) else old(result.params)
  {
    hide Tail, Assignments, Encoded, NonBlank;
    if t.tlsAlpn.Some? {
      result.Append("tls-alpn", t.tlsAlpn.value);
      return true;
    }
    if t.alpn.Some? {
      var encoded := QxEncodeAlpn(t.alpn.value);
      if encoded.None? {
        return false;
      }
      if encoded.value != "" {
        result.Append("tls-alpn", encoded.value);
      }
    }
    return true;
  }

  /** false when the ALPN list cannot be encoded. */
  method AppendTlsBlock(result: Builder, t: Trojan) returns (ok: bool)
    requires result.Valid()
    modifies result
    ensures result.Valid() && (ok <==> !AlpnFails(t))
    ensures ok ==> result.params == TlsBlock(old(result.params), t)
  {
    hide IfPresent, Tail, Assignments, AlpnText, AlpnFails;
    result.AppendIfPresent("tls-pubkey-sha256", t.pubkey);
    ok := AppendTlsAlpn(result, t);
    if !ok {
      return;
    }
    result.AppendIfPresent("tls-no-session-ticket", t.noTicket);
    result.AppendIfPresent("tls-no-session-reuse", t.noReuse);
    result.AppendIfPresent("tls-cert-sha256", t.fingerprint);
    var value := t.nameCertVerify;
    if value.None? && t.skipCertVerify.Some? {
      value := Some(if t.skipCertVerify.value then "false" else "true");
    }
    result.AppendIfPresent("tls-verification", value);
  }

  method QxTrojan(t: Trojan) returns (line: Option<string>)
    ensures line.None? <==> (t.network.Some? && t.network.value != "ws" && t.network.value != "tcp") || (t.tls && AlpnFails(t))
    ensures line.Some? ==> line.value == PrintLine("trojan", TrojanAddress(t), [], t.password, TrojanParams(t))
  {
    hide TrojanAddress, Tail, Assignments, IfPresent, TlsBlock, PrintLine, AlpnFails;
    var result := new Builder("trojan" + "=" + TrojanAddress(t) + (",password=" + t.password));
    if t.network.Some? {
      if t.network.value == "ws" {
        result.Append("obfs", if t.tls then "wss" else "ws");
        assert result.params == [("obfs", if t.tls then "wss" else "ws")];
        result.AppendIfPresent("obfs-uri", t.path);
        result.AppendIfPresent("obfs-host", t.host);
      } else if t.network.value != "tcp" {
        return None;
      }
    }
    if t.network != Some("ws") && t.tls {
      result.Append("over-tls", "true");
    }
    assert result.params == TrojanTransport(t);
    if t.tls {
      var ok := AppendTlsBlock(result, t);
      if !ok {
        return None;
      }
      result.AppendIfPresent("tls-host", t.sni);
    }
    result.AppendIfPresent("fast-open", t.tfo);
    result.AppendIfPresent("udp-relay", t.udp);
    result.AppendIfPresent("server_check_url", t.testUrl);
    result.Append("tag", t.name);
    PrintedStart("trojan", TrojanAddress(t), t.password, TrojanParams(t));
    return Some(result.text);
  }

  lemma StartShape(typ: string, address: string, p: string, t: string)
    ensures typ + "=" + (address + ("" + (p + t))) == typ + "=" + address + p + t
  {
  }

  lemma PrintedStart(typ: string, address: string, password: string, after: seq<Param>)
    ensures PrintLine(typ, address, [], password, after)
            == typ + "=" + address + (",password=" + password) + Tail(Assignments(after))
  {
    hide Assignments, Tail;
    assert Assignments([]) == [];
    NoTail();
    StartShape(typ, address, ",password=" + password, Tail(Assignments(after)));
  }

  // ---- one field cut ----

  predicate IsTail(tail: string) {
    tail == "" || tail[0] == ','
  }

  /** Text over which the scan for the comma simply walks. */
  predicate SimpleText(w: string) {
    forall i :: 0 <= i < |w| ==> w[i] != ',' && !IsQuote(w[i]) && w[i] != '['
  }

  predicate Special(key: string) {
    key == "headers" || key == "ws-headers" || key == "alpn"
  }

  /** A field without commas whose '=', if any, follows an ordinary key and precedes
      simple text. */
  predicate SimpleField(f: string) {
    && ',' !in f
    && ('=' in f ==>
          var k := IndexByte(f, '=');
          k >= 0 && !Special(OptionKey(SkipSpaces(f[..k]))) && SimpleText(f[k + 1..]))
  }

  lemma {:induction false} PlainOver(w: string, tail: string)
    requires SimpleText(w) && IsTail(tail)
    ensures PlainLength(w + tail) == |w|
    decreases |w|
  {
    if w == "" {
      assert w + tail == tail;
    } else {
      assert (w + tail)[1..] == w[1..] + tail;
      PlainOver(w[1..], tail);
    }
  }

  lemma {:induction false} SkipOver(f: string, tail: string)
    requires tail == "" || !IsSurgeSpace(tail[0])
    ensures SkipSpaces(f + tail) == SkipSpaces(f) + tail
    decreases |f|
  {
    if f == "" {
      assert f + tail == tail;
    } else {
      assert (f + tail)[1..] == f[1..] + tail;
      SkipOver(f[1..], tail);
    }
  }

  lemma {:induction false} SkipKeeps(f: string, c: char)
    ensures c !in f ==> c !in SkipSpaces(f)
    decreases |f|
  {
    if f != "" && IsSurgeSpace(f[0]) {
      SkipKeeps(f[1..], c);
      assert f == [f[0]] + f[1..];
    }
  }

  lemma {:induction false} SkipSimple(w: string)
    requires SimpleText(w)
    ensures SimpleText(SkipSpaces(w))
    decreases |w|
  {
    if w != "" && IsSurgeSpace(w[0]) {
      SkipSimple(w[1..]);
    }
  }

  /** A field without '='. */
  lemma BareFieldLength(f: string, tail: string)
    requires ',' !in f && '=' !in f && IsTail(tail)
    ensures FieldLength(f + tail) == |f|
  {
    hide SkipSpaces, KeyLength, ValueLength, OptionKey;
    var s := SkipSpaces(f);
    SkipOver(f, tail);
    SkipKeeps(f, ',');
    SkipKeeps(f, '=');
    KeyLengthIs(s, tail);
    assert (s + tail)[|s|..] == tail;
    assert PlainPart(f + tail) == tail;
    PlainOver("", tail);
    assert "" + tail == tail;
  }

  lemma AssignedShape(key: string, w: string, tail: string)
    ensures key + "=" + w + tail == key + ("=" + (w + tail))
    ensures var v := key + ("=" + (w + tail));
            v[..|key|] == key && v[|key|] == '=' && v[|key| + 1..] == w + tail
  {
  }

  lemma PlainPartAssigned(u: string, k: nat)
    requires k == KeyLength(SkipSpaces(u)) < |SkipSpaces(u)| && SkipSpaces(u)[k] == '='
    requires !Special(OptionKey(SkipSpaces(u)[..k]))
    ensures PlainPart(u) == SkipSpaces(SkipSpaces(u)[k + 1..])
  {
    var y := SkipSpaces(SkipSpaces(u)[k + 1..]);
    assert y[0..] == y;
  }

  lemma AssignedPlainPart(key: string, w: string, tail: string)
    requires ',' !in key && '=' !in key && !Special(OptionKey(SkipSpaces(key))) && IsTail(tail)
    ensures PlainPart(key + "=" + w + tail) == SkipSpaces(w) + tail
  {
    hide SkipSpaces, KeyLength, OptionKey, PlainPart, Special;
    var x := "=" + (w + tail);
    var s := SkipSpaces(key);
    AssignedShape(key, w, tail);
    AssignedShape(s, w, tail);
    SkipOver(key, x);
    SkipKeeps(key, ',');
    SkipKeeps(key, '=');
    KeyLengthIs(s, x);
    PlainPartAssigned(key + x, |s|);
    SkipOver(w, tail);
  }

  /** A field `key=text`. */
  lemma AssignedFieldLength(key: string, w: string, tail: string)
    requires ',' !in key && '=' !in key && !Special(OptionKey(SkipSpaces(key))) && SimpleText(w) && IsTail(tail)
    ensures FieldLength(key + "=" + w + tail) == |key| + 1 + |w|
  {
    hide SkipSpaces, OptionKey, PlainLength, SimpleText, PlainPart, Special;
    AssignedPlainPart(key, w, tail);
    SkipSimple(w);
    PlainOver(SkipSpaces(w), tail);
  }

  lemma SimpleFieldLength(f: string, tail: string)
    requires SimpleField(f) && IsTail(tail)
    ensures FieldLength(f + tail) == |f|
  {
    hide FieldLength, OptionKey;
    if '=' in f {
      var k := IndexByte(f, '=');
      IndexByteIsFirst(f, '=');
      assert f == f[..k] + "=" + f[k + 1..];
      AssignedFieldLength(f[..k], f[k + 1..], tail);
    } else {
      BareFieldLength(f, tail);
    }
  }

  // ---- the whole line cut ----

  lemma CutField(f: string, x: string)
    requires FieldLength(f + ("," + x)) == |f|
    ensures Fields(f + ("," + x)) == if Fields(x) == None then None else Some([TrimSpace(f)] + Fields(x).value)
  {
    hide FieldLength;
    var u := f + ("," + x);
    assert u[..|f|] == f && u[|f| + 1..] == x;
    var rest := RawFields(x);
    if rest.Some? {
      assert TrimAll([f] + rest.value) == [TrimSpace(f)] + TrimAll(rest.value);
    }
  }

  lemma LastField(f: string)
    requires f != "" && FieldLength(f) == |f|
    ensures Fields(f) == Some([TrimSpace(f)])
  {
    hide FieldLength;
    assert f[..|f|] == f;
    assert RawFields("") == Some([]);
    assert [f] + [] == [f];
    assert RawFields(f) == Some([f]);
    assert TrimAll([f]) == [TrimSpace(f)];
  }

  lemma TrimAllCons(f: string, xs: seq<string>)
    ensures TrimAll([f] + xs) == [TrimSpace(f)] + TrimAll(xs)
  {
  }

  lemma TailIs(xs: seq<string>)
    requires xs != []
    ensures Tail(xs) == "," + (xs[0] + Tail(xs[1..]))
  {
  }

  /** Simple fields behind commas are cut back into themselves. */
  lemma {:induction false} FieldsOfTail(f: string, xs: seq<string>)
    requires SimpleField(f) && forall x :: x in xs ==> SimpleField(x)
    requires if xs == [] then f != "" else xs[|xs| - 1] != ""
    ensures Fields(f + Tail(xs)) == Some(TrimAll([f] + xs))
    decreases |xs|
  {
    hide Fields, SimpleField, FieldLength, TrimSpace, TrimAll;
    TrimAllCons(f, xs);
    if xs == [] {
      assert f + Tail(xs) == f;
      SimpleFieldLength(f, "");
      assert f + "" == f;
      LastField(f);
      assert [TrimSpace(f)] + TrimAll(xs) == [TrimSpace(f)];
    } else {
      assert xs[0] in xs && forall x :: x in xs[1..] ==> x in xs;
      var more := xs[0] + Tail(xs[1..]);
      TailIs(xs);
      hide Tail;
      SimpleFieldLength(f, "," + more);
      CutField(f, more);
      FieldsOfTail(xs[0], xs[1..]);
      assert xs == [xs[0]] + xs[1..];
    }
  }

  // ---- what is printed ----

  /** A key that names an ordinary option. */
  predicate PlainKey(key: string) {
    && key != "" && key != "password" && !Special(ToLower(key))
    && forall i :: 0 <= i < |key| ==> IsPlain(key[i]) && key[i] != ',' && key[i] != '='
  }

  predicate SimpleParam(p: Param) {
    PlainKey(p.0) && SimpleText(p.1)
  }

  predicate SimpleParams(ps: seq<Param>) {
    forall i :: 0 <= i < |ps| ==> SimpleParam(ps[i])
  }

  /** What a printed parameter is read back as: itself, unless its value is padded. */
  function ReadBack(p: Param): Param {
    (p.0, OptionText(p.0, SkipSpaces(TrimRight(p.1))))
  }

  /** A parameter with a trimmed value is read back as it is. */
  lemma TrimmedReadsBack(p: Param)
    requires Trimmed(p.1)
    ensures ReadBack(p) == p
  {
    hide TrimSpace, TrimRight, SkipSpaces;
    TrimmedHasNoEdges(p.1);
    NoBlankInFront(p.1);
  }

  function ReadBacks(ps: seq<Param>): (rs: seq<Param>)
    ensures |rs| == |ps| && forall i :: 0 <= i < |ps| ==> rs[i] == ReadBack(ps[i])
  {
    if ps == [] then [] else [ReadBack(ps[0])] + ReadBacks(ps[1..])
  }

  /** `key=value` trimmed and read. */
  lemma AssignmentReads(key: string, w: string)
    requires key != "" && forall i :: 0 <= i < |key| ==> IsPlain(key[i]) && key[i] != '='
    ensures var f := TrimSpace(key + "=" + w);
            f == key + "=" + TrimRight(w) && IndexByte(f, '=') == |key| && ReadOption(f) == ReadBack((key, w))
  {
    hide SkipSpaces;
    var f := key + "=" + TrimRight(w);
    TrimLeftKeeps(key + "=" + w);
    TrimRightStops(key, '=', w);
    assert key + ['='] + w == key + "=" + w && key + ['='] + TrimRight(w) == f;
    assert f[..|key|] == key && f[|key| + 1..] == TrimRight(w);
    IndexByteUnique(f, '=', |key|);
    TrimKeepsEdges(key);
  }

  lemma ParamReads(p: Param)
    requires SimpleParam(p)
    ensures SimpleField(Assignment(p)) && Assignment(p) != ""
    ensures var f := TrimSpace(Assignment(p));
            Trimmed(f) && IsNextParameter(f) && !IsPassword(f) && '=' in f && ReadOption(f) == ReadBack(p)
  {
    hide SkipSpaces, TrimSpace, ReadOption, TrimRight, SimpleText;
    var a := Assignment(p);
    AssignmentReads(p.0, p.1);
    TrimTwice(a);
    IndexByteIsFirst(TrimSpace(a), '=');
    NotThePassword(p.0, TrimRight(p.1));
    ParamIsSimple(p);
  }

  lemma NotThePassword(key: string, w: string)
    requires '=' !in key
    ensures "password=" <= key + "=" + w ==> key == "password"
  {
    var s := key + "=" + w;
    assert s[|key|] == '=' && s[..|key|] == key;
    IndexByteUnique(s, '=', |key|);
    if "password=" <= s {
      assert s[..9] == "password=";
      assert s[..8] == "password" && s[8] == '=';
      IndexByteUnique(s, '=', 8);
    }
  }

  lemma ParamIsSimple(p: Param)
    requires SimpleParam(p)
    ensures SimpleField(Assignment(p))
  {
    var key, a := p.0, Assignment(p);
    assert a[|key|] == '=' && a[..|key|] == key && a[|key| + 1..] == p.1;
    IndexByteUnique(a, '=', |key|);
    TrimKeepsEdges(key);
    assert SkipSpaces(key) == key;
  }

  // ---- the password ----

  /** A password the splitter walks over: no quotes and no '[' in its first piece, and
      later pieces that are simple fields. */
  predicate SimplePassword(password: string) {
    var ps := Split(password, ',');
    SimpleText(ps[0]) && forall i :: 1 <= i < |ps| ==> SimpleField(ps[i])
  }

  /** The guard: every piece is trimmed, and none but the first starts a parameter. */
  predicate Carried(password: string) {
    var ps := Split(password, ',');
    Trimmed(ps[0]) && forall i :: 1 <= i < |ps| ==> Trimmed(ps[i]) && !IsNextParameter(ps[i])
  }

  lemma {:induction false} JoinIsTail(a: string, xs: seq<string>)
    ensures Join([a] + xs, ",") == a + Tail(xs)
    decreases |xs|
  {
    JoinCons(a, xs, ",");
    if xs != [] {
      JoinIsTail(xs[0], xs[1..]);
      assert [xs[0]] + xs[1..] == xs;
      assert a + "," + (xs[0] + Tail(xs[1..])) == a + ("," + xs[0] + Tail(xs[1..]));
    } else {
      assert a + "" == a;
    }
  }

  lemma PasswordPieces(password: string)
    ensures var ps := Split(password, ','); password == ps[0] + Tail(ps[1..])
  {
    var ps := Split(password, ',');
    JoinSplit(password, ',');
    JoinIsTail(ps[0], ps[1..]);
    assert [ps[0]] + ps[1..] == ps;
  }

  /** Cutting a string's pieces down gives the same text only when nothing was cut. */
  lemma {:induction false} TailShrinks(xs: seq<string>, n: nat)
    requires n <= |xs|
    ensures |Tail(TrimAll(xs[..n]))| <= |Tail(xs)|
    ensures |Tail(TrimAll(xs[..n]))| == |Tail(xs)| ==> n == |xs| && forall x :: x in xs ==> Trimmed(x)
    decreases |xs|
  {
    hide TrimSpace, TrimAll;
    if n == 0 {
      assert xs[..0] == [];
    } else {
      assert xs == [xs[0]] + xs[1..] && xs[..n] == [xs[0]] + xs[1..][..n - 1];
      TrimAllCons(xs[0], xs[1..][..n - 1]);
      var rest := TrimAll(xs[1..][..n - 1]);
      assert ([TrimSpace(xs[0])] + rest)[1..] == rest;
      TrimShrinks(xs[0]);
      TailShrinks(xs[1..], n - 1);
    }
  }

  lemma {:induction false} SkipShrinks(f: string)
    ensures |SkipSpaces(f)| <= |f| && (|SkipSpaces(f)| == |f| ==> SkipSpaces(f) == f)
    decreases |f|
  {
    if f != "" && IsSurgeSpace(f[0]) {
      SkipShrinks(f[1..]);
    }
  }

  lemma AllTrimmed(xs: seq<string>)
    requires forall x :: x in xs ==> Trimmed(x)
    ensures TrimAll(xs) == xs
  {
    hide TrimSpace;
    assert forall i :: 0 <= i < |xs| ==> xs[i] in xs;
  }

  /** The value read for the password: its first piece and those that stay with it. */
  function PasswordRead(ps: seq<string>): string
    requires ps != []
  {
    TrimSpace(SkipSpaces(TrimRight(ps[0])) + Tail(TrimAll(ps[1..][..RunLength(TrimAll(ps[1..]))])))
  }

  lemma CarriedPieces(password: string)
    ensures var ps := Split(password, ',');
            Carried(password) <==>
            && Trimmed(ps[0])
            && forall x :: x in ps[1..] ==> Trimmed(x) && !IsNextParameter(x)
  {
    hide SkipSpaces, TrimRight, TrimSpace, IsNextParameter;
    var ps := Split(password, ',');
    assert forall i :: 1 <= i < |ps| ==> ps[i] == ps[1..][i - 1];
  }

  lemma AllTake(xs: seq<string>)
    ensures (forall x :: x in xs ==> Trimmed(x)) && RunLength(TrimAll(xs)) == |xs| <==>
            forall x :: x in xs ==> Trimmed(x) && !IsNextParameter(x)
  {
    hide TrimSpace, IsNextParameter, TrimAll;
    if forall x :: x in xs ==> Trimmed(x) {
      AllTrimmed(xs);
      if forall x :: x in xs ==> !IsNextParameter(x) {
        RunLengthIs(xs, |xs|);
      }
      if RunLength(xs) == |xs| {
        RunLengthAll(xs);
        forall x | x in xs
          ensures !IsNextParameter(x)
        {
          var i :| 0 <= i < |xs| && xs[i] == x;
        }
      }
    }
  }

  /** White space in front of a text is white space in front of the text with a tail. */
  lemma LeadingStays(a: string, t: string)
    requires IsTail(t)
    ensures LeadingSpace(a + t) == LeadingSpace(a)
  {
  }

  lemma NoLeadingSpace(a: string)
    ensures TrimLeft(a) == a <==> LeadingSpace(a) == 0
  {
    hide LeadingSpace;
    if LeadingSpace(a) != 0 {
      TrimLeftShrinks(a[LeadingSpace(a)..]);
    }
  }

  /** A trimmed piece with trimmed pieces behind it is trimmed. */
  lemma TrimmedWithTail(a: string, xs: seq<string>)
    requires Trimmed(a) && forall x :: x in xs ==> Trimmed(x)
    ensures Trimmed(a + Tail(xs))
  {
    hide TrimSpace, TrimLeft, TrimRight, Tail, LeadingSpace;
    TrimmedHasNoEdges(a);
    TailIsTail(xs);
    NoLeadingSpace(a);
    LeadingStays(a, Tail(xs));
    NoLeadingSpace(a + Tail(xs));
    TrimRightDone(a);
    MergedIsTrimmed(a, xs);
    TrimSpaceIs(a + Tail(xs));
  }

  lemma TrimSpaceIs(s: string)
    ensures TrimSpace(s) == TrimRight(TrimLeft(s))
  {
  }

  /** If nothing is cut from the whole text, its first piece is trimmed. */
  lemma FirstIsTrimmed(a: string, t: string)
    requires IsTail(t) && Trimmed(a + t) && TrimRight(a) == a
    ensures Trimmed(a)
  {
    hide TrimSpace, TrimLeft, TrimRight, LeadingSpace;
    TrimmedHasNoEdges(a + t);
    NoLeadingSpace(a + t);
    LeadingStays(a, t);
    NoLeadingSpace(a);
    TrimSpaceIs(a);
  }

  /** That value is the password exactly when the guard holds. */
  lemma PasswordReadExactly(password: string)
    ensures PasswordRead(Split(password, ',')) == password <==> Carried(password)
  {
    hide SkipSpaces, TrimRight, TrimSpace, TrimAll, Tail, IsNextParameter, Carried, RunLength;
    var ps := Split(password, ',');
    var xs := ps[1..];
    var n := RunLength(TrimAll(xs));
    PasswordPieces(password);
    CarriedPieces(password);
    AllTake(xs);
    if Carried(password) {
      AllTrimmed(xs);
      assert xs[..|xs|] == xs;
      TrimmedHasNoEdges(ps[0]);
      NoBlankInFront(ps[0]);
      TrimmedWithTail(ps[0], xs);
    } else if PasswordRead(ps) == password {
      NothingWasCut(ps, n);
    }
  }

  lemma NothingWasCut(ps: seq<string>, n: nat)
    requires ps != [] && n == RunLength(TrimAll(ps[1..])) <= |ps[1..]|
    requires PasswordRead(ps) == ps[0] + Tail(ps[1..])
    ensures Trimmed(ps[0]) && n == |ps[1..]| && forall x :: x in ps[1..] ==> Trimmed(x)
  {
    hide SkipSpaces, TrimRight, TrimSpace, TrimAll, Tail, IsNextParameter, RunLength;
    var xs := ps[1..];
    TrimShrinks(SkipSpaces(TrimRight(ps[0])) + Tail(TrimAll(xs[..n])));
    TrimAllPrefix(xs, n);
    TailShrinks(xs, n);
    TrimRightShrinks(ps[0]);
    SkipShrinks(TrimRight(ps[0]));
    AllTrimmed(xs);
    TailIsTail(xs);
    FirstIsTrimmed(ps[0], Tail(xs));
  }

  lemma {:induction false} RunLengthAll(xs: seq<string>)
    requires RunLength(xs) == |xs|
    ensures forall i :: 0 <= i < |xs| ==> !IsNextParameter(TrimSpace(xs[i]))
    decreases |xs|
  {
    if xs != [] {
      RunLengthAll(xs[1..]);
      assert forall i :: 1 <= i < |xs| ==> xs[i] == xs[1..][i - 1];
    }
  }

  // ---- the whole line read back ----

  lemma {:induction false} MergeOver(fields: seq<string>, rest: seq<string>)
    requires forall f :: f in fields ==> !IsPassword(f)
    ensures MergeRest(fields + rest) == fields + MergeRest(rest)
    decreases |fields|
  {
    hide IsPassword;
    if fields == [] {
      assert fields + rest == rest && [] + MergeRest(rest) == MergeRest(rest);
    } else {
      assert fields[0] in fields && (fields + rest)[1..] == fields[1..] + rest;
      MergeOver(fields[1..], rest);
      assert fields == [fields[0]] + fields[1..];
      assert [fields[0]] + (fields[1..] + MergeRest(rest)) == fields + MergeRest(rest);
    }
  }

  lemma {:induction false} RunLengthStops(fields: seq<string>, rest: seq<string>)
    requires rest != [] && IsNextParameter(TrimSpace(rest[0]))
    ensures RunLength(fields + rest) == RunLength(fields)
    decreases |fields|
  {
    hide TrimSpace, IsNextParameter;
    if fields == [] {
      assert fields + rest == rest;
    } else {
      assert (fields + rest)[1..] == fields[1..] + rest;
      RunLengthStops(fields[1..], rest);
    }
  }

  lemma {:induction false} OptionsAppend(fields: seq<string>, rest: seq<string>)
    ensures Options(fields + rest) == Options(fields) + Options(rest)
    decreases |fields|
  {
    hide TrimSpace, ReadOption;
    if fields == [] {
      assert fields + rest == rest && [] + Options(rest) == Options(rest);
    } else {
      assert (fields + rest)[1..] == fields[1..] + rest;
      OptionsAppend(fields[1..], rest);
      var f := TrimSpace(fields[0]);
      var head := if '=' in f then [ReadOption(f)] else [];
      assert head + (Options(fields[1..]) + Options(rest)) == head + Options(fields[1..]) + Options(rest);
    }
  }

  /** Printed parameters, trimmed by the splitter. */
  function Cut(ps: seq<Param>): (fs: seq<string>) {
    TrimAll(Assignments(ps))
  }

  lemma {:induction false} CutReads(ps: seq<Param>)
    requires SimpleParams(ps)
    ensures Options(Cut(ps)) == ReadBacks(ps)
    ensures forall f :: f in Cut(ps) ==> !IsPassword(f)
    decreases |ps|
  {
    hide TrimSpace, ReadOption, ReadBack, Assignment, SimpleParam, TrimAll;
    if ps != [] {
      ParamReads(ps[0]);
      CutReads(ps[1..]);
      TrimAllCons(Assignment(ps[0]), Assignments(ps[1..]));
      var f := TrimSpace(Assignment(ps[0]));
      assert Cut(ps) == [f] + Cut(ps[1..]);
      assert ([f] + Cut(ps[1..]))[1..] == Cut(ps[1..]);
    } else {
      assert TrimAll([]) == [];
    }
  }

  /** The fields of a printed line, before trimming. */
  function LineFields(before: seq<Param>, ps: seq<string>, after: seq<Param>): seq<string>
    requires ps != []
  {
    Assignments(before) + ([Assignment(("password", ps[0]))] + (ps[1..] + Assignments(after)))
  }

  lemma PrintedFields(typ: string, address: string, before: seq<Param>, password: string, after: seq<Param>)
    ensures PrintLine(typ, address, before, password, after)
            == typ + "=" + (address + Tail(LineFields(before, Split(password, ','), after)))
  {
    hide Tail, Assignments;
    var ps := Split(password, ',');
    PasswordPieces(password);
    var w, t := ps[1..] + Assignments(after), Assignments(after);
    var p := Assignment(("password", ps[0]));
    TailAppend(Assignments(before), [p] + w);
    TailCons(p, w);
    TailAppend(ps[1..], t);
    PasswordShape(ps[0], Tail(ps[1..]), Tail(t));
  }

  lemma TailCons(x: string, xs: seq<string>)
    ensures Tail([x] + xs) == "," + x + Tail(xs)
  {
    assert ([x] + xs)[1..] == xs;
  }

  lemma PasswordShape(p: string, t: string, u: string)
    ensures "," + ("password" + "=" + p) + (t + u) == ",password=" + (p + t) + u
  {
    assert ",password=" == "," + "password" + "=";
  }

  lemma PasswordFieldIsSimple(p: string)
    requires SimpleText(p)
    ensures SimpleField(Assignment(("password", p)))
  {
    PasswordKey();
    hide SkipSpaces, OptionKey, SimpleText;
    var a := Assignment(("password", p));
    TypeShape("password", p);
    IndexByteUnique(a, '=', 8);
    assert ',' !in p by { TextHasNoComma(p); }
  }

  lemma TextHasNoComma(w: string)
    requires SimpleText(w)
    ensures ',' !in w
  {
  }

  lemma PasswordKey()
    ensures SkipSpaces("password") == "password" && !Special(OptionKey("password"))
  {
    TrimKeepsEdges("password");
    assert ToLower("password")[0] == 'p';
  }

  /** Every field of the line is simple, and the line does not end in a comma. */
  lemma LineFieldsSimple(before: seq<Param>, password: string, after: seq<Param>)
    requires SimpleParams(before) && SimpleParams(after) && after != [] && SimplePassword(password)
    ensures var fs := LineFields(before, Split(password, ','), after);
            (forall f :: f in fs ==> SimpleField(f)) && fs != [] && fs[|fs| - 1] != ""
  {
    hide SimpleField, SimpleParam, SimpleText, Assignment;
    var ps := Split(password, ',');
    var fs := LineFields(before, ps, after);
    forall i | 0 <= i < |before|
      ensures SimpleField(Assignments(before)[i])
    {
      ParamReads(before[i]);
    }
    forall i | 0 <= i < |after|
      ensures SimpleField(Assignments(after)[i]) && Assignments(after)[i] != ""
    {
      ParamReads(after[i]);
    }
    PasswordFieldIsSimple(ps[0]);
    assert fs[|fs| - 1] == Assignments(after)[|after| - 1];
  }

  lemma TrimAllAppend(xs: seq<string>, ys: seq<string>)
    ensures TrimAll(xs + ys) == TrimAll(xs) + TrimAll(ys)
  {
    hide TrimSpace;
  }

  lemma TrimAllTwice(xs: seq<string>)
    ensures forall x :: x in TrimAll(xs) ==> Trimmed(x)
  {
    forall i | 0 <= i < |xs|
      ensures Trimmed(TrimAll(xs)[i])
    {
      TrimTwice(xs[i]);
    }
  }

  lemma CommaShape(v: string, t: string, x: string)
    ensures v + (t + "," + x) == (v + t) + [','] + x
  {
  }

  /** The merged password field is trimmed already. */
  lemma MergedIsTrimmed(v: string, xs: seq<string>)
    requires TrailingSpace(v) == 0 && forall x :: x in xs ==> Trimmed(x)
    ensures TrimRight(v + Tail(xs)) == v + Tail(xs)
  {
    hide Tail, TrailingSpace, TrimRight, TrimSpace;
    if xs != [] {
      var n := |xs| - 1;
      assert xs == xs[..n] + [xs[n]] && xs[n] in xs;
      TailSnoc(xs[..n], xs[n]);
      TrimmedHasNoEdges(xs[n]);
      TrimRightStops(v + Tail(xs[..n]), ',', xs[n]);
      CommaShape(v, Tail(xs[..n]), xs[n]);
    } else {
      NoTail();
      assert v + "" == v;
      TrimRightStays(v);
    }
  }

  lemma NoTail()
    ensures Tail([]) == ""
  {
  }

  lemma TrimRightStays(v: string)
    requires TrailingSpace(v) == 0
    ensures TrimRight(v) == v
  {
  }

  /** What the merged password field is read as. */
  lemma MergedReads(p: string, xs: seq<string>)
    requires forall x :: x in xs ==> Trimmed(x)
    ensures var f := TrimSpace(Assignment(("password", p))) + Tail(xs);
            '=' in TrimSpace(f) && ReadOption(TrimSpace(f)) == ("password", TrimSpace(SkipSpaces(TrimRight(p)) + Tail(xs)))
  {
    hide SkipSpaces, TrimRight, TrimSpace, Tail, ReadOption, TrailingSpace;
    var v := TrimRight(p);
    AssignmentReads("password", p);
    assert TrimSpace(Assignment(("password", p))) == "password" + "=" + v;
    AssignmentReads("password", v + Tail(xs));
    Assoc("password" + "=", v, Tail(xs));
    TrimRightDone(p);
    MergedIsTrimmed(v, xs);
    TailIsTail(xs);
    SkipOver(v, Tail(xs));
    MergedHolds(v + Tail(xs));
  }

  lemma MergedHolds(w: string)
    ensures '=' in "password" + "=" + w
  {
    assert ("password" + "=" + w)[8] == '=';
  }

  lemma TailIsTail(xs: seq<string>)
    ensures IsTail(Tail(xs))
  {
  }

  lemma CutPasswordIsPassword(p: string)
    ensures IsPassword(TrimSpace(Assignment(("password", p))))
  {
    hide SkipSpaces, TrimRight, ReadOption;
    AssignmentReads("password", p);
    TrimTwice(Assignment(("password", p)));
    var s := "password" + "=" + TrimRight(p);
    assert s[..9] == "password=";
  }

  /** The merged fields behind the address: the password with the pieces that stay with
      it, then the pieces that do not, then the parameters. */
  lemma MergedLine(before: seq<Param>, ps: seq<string>, after: seq<Param>)
    requires SimpleParams(before) && SimpleParams(after) && after != [] && ps != []
    ensures var xs := TrimAll(ps[1..]);
            var n := RunLength(xs);
            MergeRest(TrimAll(LineFields(before, ps, after)))
            == Cut(before) + ([TrimSpace(Assignment(("password", ps[0]))) + Tail(xs[..n])] + MergeRest(xs[n..] + Cut(after)))
  {
    hide IsPassword, Tail, TrimAll, Assignment, Assignments, SimpleParam, TrimSpace, IsNextParameter, RunLength, MergeRest;
    var p, xs := Assignment(("password", ps[0])), TrimAll(ps[1..]);
    var n := RunLength(xs);
    var mid := ps[1..] + Assignments(after);
    TrimAllAppend(Assignments(before), [p] + mid);
    TrimAllCons(p, mid);
    TrimAllAppend(ps[1..], Assignments(after));
    CutReads(before);
    MergeOver(Cut(before), [TrimSpace(p)] + (xs + Cut(after)));
    CutPasswordIsPassword(ps[0]);
    CutStartsParameter(after);
    RunLengthStops(xs, Cut(after));
    TrimAllTwice(ps[1..]);
    assert forall x :: x in xs[..n] ==> x in xs;
    AllTrimmed(xs[..n]);
    MergeHead(TrimSpace(p), xs, Cut(after), n);
  }

  lemma MergeHead(f: string, xs: seq<string>, rest: seq<string>, n: nat)
    requires IsPassword(f) && n == RunLength(xs + rest) <= |xs| && TrimAll(xs[..n]) == xs[..n]
    ensures MergeRest([f] + (xs + rest)) == [f + Tail(xs[..n])] + MergeRest(xs[n..] + rest)
  {
    hide IsPassword, Tail, TrimAll, RunLength;
    var fs := [f] + (xs + rest);
    assert fs[1..] == xs + rest && fs[1..n + 1] == xs[..n] && fs[n + 1..] == xs[n..] + rest;
  }

  lemma CutStartsParameter(ps: seq<Param>)
    requires SimpleParams(ps) && ps != []
    ensures Cut(ps) != [] && IsNextParameter(TrimSpace(Cut(ps)[0]))
  {
    hide SimpleParam, IsPassword, ReadOption, ReadBack, Assignment, TrimSpace;
    ParamReads(ps[0]);
  }

  /** The options read from a printed line: the parameters in front, the password with
      the pieces that stay with it, and whatever the rest gives. */
  lemma LineOptions(before: seq<Param>, ps: seq<string>, after: seq<Param>)
    requires SimpleParams(before) && SimpleParams(after) && after != [] && ps != []
    ensures var xs := TrimAll(ps[1..]);
            Options(MergeRest(TrimAll(LineFields(before, ps, after))))
            == ReadBacks(before) + ([("password", PasswordRead(ps))] + Options(MergeRest(xs[RunLength(xs)..] + Cut(after))))
  {
    hide IsPassword, Tail, Assignment, SimpleParam, TrimSpace, RunLength, MergeRest, Cut, LineFields, SkipSpaces, ReadOption;
    var xs := TrimAll(ps[1..]);
    var n := RunLength(xs);
    MergedLine(before, ps, after);
    CutReads(before);
    var f := TrimSpace(Assignment(("password", ps[0]))) + Tail(xs[..n]);
    var rest := MergeRest(xs[n..] + Cut(after));
    OptionsAppend(Cut(before), [f] + rest);
    OptionsAppend([f], rest);
    TrimAllTwice(ps[1..]);
    assert forall x :: x in xs[..n] ==> x in xs;
    MergedReads(ps[0], xs[..n]);
    assert [f][1..] == [];
    assert Options([f]) == [ReadOption(TrimSpace(f))] + [];
    TrimAllPrefix(ps[1..], n);
  }

  lemma TrimAllPrefix(xs: seq<string>, n: nat)
    requires n <= |xs|
    ensures TrimAll(xs[..n]) == TrimAll(xs)[..n]
  {
    hide TrimSpace;
  }

  lemma TypeIsPlain(typ: string)
    requires PasswordTakesCommas(typ)
    ensures '=' !in typ && Trimmed(typ)
  {
    hide TrimSpace;
    match typ
    case "trojan" => TrimKeepsEdges("trojan");
    case "shadowsocks" => TrimKeepsEdges("shadowsocks");
    case "anytls" => TrimKeepsEdges("anytls");
    case "http" => TrimKeepsEdges("http");
    case _ => TrimKeepsEdges("socks5");
  }

  /** The options a printed line should be read back as. */
  function Expected(before: seq<Param>, password: string, after: seq<Param>): seq<Param> {
    ReadBacks(before) + ([("password", password)] + ReadBacks(after))
  }

  lemma TypeShape(typ: string, x: string)
    ensures var s := typ + "=" + x; s[|typ|] == '=' && s[..|typ|] == typ && s[|typ| + 1..] == x
  {
  }

  lemma ReadsLine(typ: string, address: string, fs: seq<string>)
    requires PasswordTakesCommas(typ) && SimpleField(address)
    requires (forall f :: f in fs ==> SimpleField(f)) && fs != [] && fs[|fs| - 1] != ""
    ensures ReadLine(typ + "=" + (address + Tail(fs))) == Line(typ, TrimSpace(address), Options(MergeRest(TrimAll(fs))))
  {
    hide Fields, SimpleField, TrimSpace, TrimAll, MergeRest, Options, Tail;
    var line := typ + "=" + (address + Tail(fs));
    TypeIsPlain(typ);
    hide PasswordTakesCommas;
    TypeShape(typ, address + Tail(fs));
    IndexByteUnique(line, '=', |typ|);
    FieldsOfTail(address, fs);
    TrimAllCons(address, fs);
    assert ([TrimSpace(address)] + TrimAll(fs))[1..] == TrimAll(fs);
    TrimTwice(address);
  }

  /** A password with commas survives printing, splitting and merging, with every other
      parameter read as its own field, exactly when the guard holds. */
  lemma PasswordSurvivesExactly(typ: string, address: string, before: seq<Param>, password: string, after: seq<Param>)
    requires typ in {"trojan", "shadowsocks", "anytls", "http", "socks5"} && ',' !in address && '=' !in address
    requires SimpleParams(before) && SimpleParams(after) && after != [] && SimplePassword(password)
    ensures ReadLine(PrintLine(typ, address, before, password, after))
            == Line(typ, TrimSpace(address), Expected(before, password, after))
            <==> Carried(password)
  {
    assert PasswordTakesCommas(typ);
    hide ReadLine, PrintLine, SimpleField, TrimSpace, MergeRest, Options, Tail, LineFields, Carried, PasswordRead,
         PasswordTakesCommas, SimplePassword, SimpleParam, Cut, RunLength, TrimAll;
    var ps := Split(password, ',');
    var fs := LineFields(before, ps, after);
    PrintedFields(typ, address, before, password, after);
    LineFieldsSimple(before, password, after);
    AddressIsSimple(address);
    ReadsLine(typ, address, fs);
    LineOptions(before, ps, after);
    PasswordReadExactly(password);
    var xs := TrimAll(ps[1..]);
    var n := RunLength(xs);
    var options := Options(MergeRest(TrimAll(fs)));
    assert options[|before|] == ("password", PasswordRead(ps));
    assert Expected(before, password, after)[|before|] == ("password", password);
    if Carried(password) {
      CarriedWhole(password);
      assert xs[n..] == [] && [] + Cut(after) == Cut(after);
      CutReads(after);
      MergeOver(Cut(after), []);
      MergesNothing(Cut(after));
    }
  }

  lemma MergesNothing(fields: seq<string>)
    ensures fields + MergeRest([]) == fields && fields + [] == fields
  {
  }

  lemma AddressIsSimple(address: string)
    requires ',' !in address && '=' !in address
    ensures SimpleField(address)
  {
  }

  lemma CarriedWhole(password: string)
    requires Carried(password)
    ensures var xs := TrimAll(Split(password, ',')[1..]); RunLength(xs) == |xs|
  {
    hide TrimAll, TrimSpace, IsNextParameter, SkipSpaces, TrimRight;
    var ps := Split(password, ',');
    var xs := ps[1..];
    assert forall i :: 0 <= i < |xs| ==> xs[i] == ps[i + 1];
    AllTrimmed(xs);
    RunLengthIs(xs, |xs|);
  }

  /** Trimmed pieces without '=', quotes and '[' meet the guard. */
  lemma PlainPasswordCarried(password: string)
    requires forall p :: p in Split(password, ',') ==> Trimmed(p) && SimpleText(p) && '=' !in p
    ensures SimplePassword(password) && Carried(password)
  {
    hide SkipSpaces;
    var ps := Split(password, ',');
    forall i | 0 <= i < |ps|
      ensures SimpleField(ps[i]) && !IsNextParameter(ps[i]) && Trimmed(ps[i])
    {
      assert ps[i] in ps;
      IndexByteIsFirst(ps[i], '=');
    }
    assert ps[0] in ps;
    TrimmedHasNoEdges(ps[0]);
    NoBlankInFront(ps[0]);
  }

  lemma NoBlankInFront(v: string)
    requires Trimmed(v)
    ensures SkipSpaces(v) == v
  {
    if v != "" {
      FirstIsNoSpace(v);
    }
  }

  // ---- the trojan printer ----

  predicate SimpleValue(value: Option<string>) {
    value.Some? ==> SimpleText(value.value)
  }

  /** The keys the printers write: lower-case letters, digits, '-' and '_'. */
  predicate PrinterKey(key: string) {
    key != "" && key != "password" && !Special(key) && forall i :: 0 <= i < |key| ==> 'a' <= key[i] <= 'z' || '0' <= key[i] <= '9' || key[i] == '-' || key[i] == '_'
  }

  lemma PrinterKeyIsPlain(key: string)
    requires PrinterKey(key)
    ensures PlainKey(key)
  {
    assert ToLower(key) == key;
  }

  lemma IfPresentSimple(ps: seq<Param>, key: string, value: Option<string>)
    requires SimpleParams(ps) && PrinterKey(key) && SimpleValue(value)
    ensures SimpleParams(IfPresent(ps, key, value))
  {
    hide PlainKey, SimpleText;
    PrinterKeyIsPlain(key);
  }

  /** A trojan proxy whose printed values hold no comma, quote or '['. */
  predicate SimpleTrojan(t: Trojan) {
    && ',' !in t.server && '=' !in t.server && SimpleText(t.name)
    && SimpleValue(t.path) && SimpleValue(t.host) && SimpleValue(t.pubkey) && SimpleValue(t.tlsAlpn)
    && SimpleValue(t.noTicket) && SimpleValue(t.noReuse) && SimpleValue(t.fingerprint) && SimpleValue(t.nameCertVerify)
    && SimpleValue(t.sni) && SimpleValue(t.tfo) && SimpleValue(t.udp) && SimpleValue(t.testUrl)
  }

  lemma TransportSimple(t: Trojan)
    requires SimpleTrojan(t)
    ensures SimpleParams(TrojanTransport(t))
  {
    hide SimpleParams, IfPresent;
    NoParams();
    IfPresentSimple([], "obfs", Some(if t.tls then "wss" else "ws"));
    IfPresentSimple([], "over-tls", Some("true"));
    OneParam("obfs", if t.tls then "wss" else "ws");
    OneParam("over-tls", "true");
    var a := [("obfs", if t.tls then "wss" else "ws")];
    IfPresentSimple(a, "obfs-uri", t.path);
    IfPresentSimple(IfPresent(a, "obfs-uri", t.path), "obfs-host", t.host);
  }

  lemma NoParams()
    ensures SimpleParams([])
  {
  }

  lemma OneParam(key: string, value: string)
    ensures IfPresent([], key, Some(value)) == [(key, value)]
  {
  }

  /** Two optional parameters in a row. */
  lemma TwoSimple(ps: seq<Param>, key1: string, value1: Option<string>, key2: string, value2: Option<string>)
    requires SimpleParams(ps) && SimpleValue(value1) && SimpleValue(value2)
    requires PrinterKey(key1) && PrinterKey(key2)
    ensures SimpleParams(IfPresent(IfPresent(ps, key1, value1), key2, value2))
  {
    hide SimpleParams, IfPresent, SimpleValue, PrinterKey;
    IfPresentSimple(ps, key1, value1);
    IfPresentSimple(IfPresent(ps, key1, value1), key2, value2);
  }

  lemma AlpnSimple(t: Trojan)
    requires SimpleTrojan(t)
    ensures SimpleValue(AlpnText(t)) && SimpleValue(Verification(t))
  {
    hide Encoded, NonBlank;
    if t.tlsAlpn.None? && t.alpn.Some? {
      EncodedIsHex(NonBlank(AlpnItems(t.alpn.value)));
    }
  }

  lemma PubkeyAndAlpnKeys()
    ensures PrinterKey("tls-pubkey-sha256") && PrinterKey("tls-alpn")
  {
  }

  lemma SessionKeys()
    ensures PrinterKey("tls-no-session-ticket") && PrinterKey("tls-no-session-reuse")
  {
  }

  lemma CertificateKeys()
    ensures PrinterKey("tls-cert-sha256") && PrinterKey("tls-verification")
  {
  }

  lemma TlsBlockSimple(ps: seq<Param>, t: Trojan)
    requires SimpleParams(ps) && SimpleTrojan(t)
    ensures SimpleParams(TlsBlock(ps, t))
  {
    PubkeyAndAlpnKeys();
    SessionKeys();
    CertificateKeys();
    hide SimpleParams, IfPresent, SimpleValue, AlpnText, Verification, PrinterKey;
    AlpnSimple(t);
    TwoSimple(ps, "tls-pubkey-sha256", t.pubkey, "tls-alpn", AlpnText(t));
    var a := IfPresent(IfPresent(ps, "tls-pubkey-sha256", t.pubkey), "tls-alpn", AlpnText(t));
    TwoSimple(a, "tls-no-session-ticket", t.noTicket, "tls-no-session-reuse", t.noReuse);
    var b := IfPresent(IfPresent(a, "tls-no-session-ticket", t.noTicket), "tls-no-session-reuse", t.noReuse);
    TwoSimple(b, "tls-cert-sha256", t.fingerprint, "tls-verification", Verification(t));
  }

  lemma CommonSimple(ps: seq<Param>, t: Trojan)
    requires SimpleParams(ps) && SimpleTrojan(t)
    ensures SimpleParams(Common(ps, t)) && Common(ps, t) != []
  {
    hide SimpleParams, IfPresent, SimpleValue;
    var a := IfPresent(ps, "fast-open", t.tfo);
    IfPresentSimple(ps, "fast-open", t.tfo);
    IfPresentSimple(a, "udp-relay", t.udp);
    var b := IfPresent(a, "udp-relay", t.udp);
    IfPresentSimple(b, "server_check_url", t.testUrl);
    var c := IfPresent(b, "server_check_url", t.testUrl);
    assert SimpleValue(Some(t.name)) by { TextIsSimple(t.name); }
    IfPresentSimple(c, "tag", Some(t.name));
    AddParam(c, "tag", t.name);
  }

  lemma TextIsSimple(w: string)
    requires SimpleText(w)
    ensures SimpleValue(Some(w))
  {
  }

  lemma AddParam(ps: seq<Param>, key: string, value: string)
    ensures IfPresent(ps, key, Some(value)) == ps + [(key, value)]
  {
  }

  lemma TrojanSimple(t: Trojan)
    requires SimpleTrojan(t)
    ensures SimpleParams(TrojanParams(t)) && TrojanParams(t) != []
    ensures ',' !in TrojanAddress(t) && '=' !in TrojanAddress(t)
  {
    hide SimpleParams, IfPresent, SimpleValue, TlsBlock, Common, TrojanTransport;
    var transport := TrojanTransport(t);
    TransportSimple(t);
    TlsBlockSimple(transport, t);
    IfPresentSimple(TlsBlock(transport, t), "tls-host", t.sni) by { SniSimple(t); }
    CommonSimple(if t.tls then IfPresent(TlsBlock(transport, t), "tls-host", t.sni) else transport, t);
    DigitsOfItoa(t.port);
  }

  lemma SniSimple(t: Trojan)
    requires SimpleTrojan(t)
    ensures SimpleValue(t.sni)
  {
  }

  /** A printed trojan line gives every field back exactly when its password meets the
      guard. */
  lemma TrojanRoundTrip(t: Trojan)
    requires SimpleTrojan(t) && SimplePassword(t.password)
    ensures ReadLine(PrintLine("trojan", TrojanAddress(t), [], t.password, TrojanParams(t)))
            == Line("trojan", TrimSpace(TrojanAddress(t)), Expected([], t.password, TrojanParams(t)))
            <==> Carried(t.password)
  {
    hide ReadLine, PrintLine, Carried, Expected, TrojanParams, TrojanAddress, SimplePassword, SimpleTrojan, TrimSpace;
    TrojanSimple(t);
    PasswordSurvivesExactly("trojan", TrojanAddress(t), [], t.password, TrojanParams(t));
  }
}
