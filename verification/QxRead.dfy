/** Reading QX trojan lines all the way to a proxy, and back from what was printed. */
module QxRead {
  import opened GoStrings
  import opened Numerals
  import opened SurgeHeaders
  import opened SurgeFields
  import SurgeScanner
  import opened SurgeRoundTrip
  import opened QxAlpn
  import opened Qx

  /** parseQXLine up to its option loop. */
  method ParseQxLine(line: string) returns (r: Reading)
    ensures r == ReadLine(line)
  {
    hide Fields, Merge, Options, TrimSpace;
    var eq := IndexByte(line, '=');
    if eq == -1 {
      return Invalid;
    }
    var typ := TrimSpace(line[..eq]);
    var fields := SurgeScanner.SplitSurgeFields(line[eq + 1..]);
    if fields.None? {
      return Panics;
    }
    var merged := fields.value;
    if |merged| == 0 {
      return Invalid;
    }
    if PasswordTakesCommas(typ) {
      merged := MergePasswordCommaFields(merged);
    }
    MergedHasAddress(fields.value);
    var options := ReadOptions(merged[1..]);
    return Line(typ, TrimSpace(merged[0]), options);
  }

  lemma MergedHasAddress(fields: seq<string>)
    requires fields != []
    ensures Merge(fields) != []
  {
  }

  // ---- the proxy ----

  datatype Node = Node(
    server: string, port: nat, password: Option<string>, name: Option<string>,
    network: Option<string>, tls: Option<bool>, path: Option<string>, host: Option<string>,
    pubkey: Option<string>, tlsAlpn: Option<string>, noTicket: Option<bool>, noReuse: Option<bool>,
    fingerprint: Option<string>, nameCertVerify: Option<string>, skipCertVerify: Option<bool>,
    sni: Option<string>, tfo: Option<bool>, udp: Option<bool>, testUrl: Option<string>,
    publicKey: Option<string>, shortId: Option<string>)

  /** The proxy so far, the obfs options that are applied last, and whether an option was
      refused. */
  datatype State = State(node: Node, obfsType: string, obfsHost: string, obfsPath: string, refused: bool)

  function ReadBool(v: string): Option<bool> {
    if v == "true" then Some(true) else if v == "false" then Some(false) else None
  }

  /** stripQXQuotes */
  function StripQuotes(s: string): string {
    if |s| >= 2 && s[0] == '"' && s[|s| - 1] == '"' then s[1..|s| - 1] else s
  }

  /** A flag that is neither true nor false leaves the field as it was. */
  function Flag(v: string, before: Option<bool>): Option<bool> {
    if ReadBool(v).Some? then ReadBool(v) else before
  }

  /** applyQXOption for trojan lines; keys of other types change nothing. */
  function ApplyOption(s: State, key: string, v: string): State {
    var n := s.node;
    if key == "password" then s.(node := n.(password := Some(v)))
    else if key == "over-tls" then s.(node := n.(tls := Flag(v, n.tls)))
    else if key == "tls-host" then s.(node := n.(sni := Some(StripQuotes(v))))
    else if key == "tls-verification" then
      var w := TrimSpace(v);
      if w == "true" || w == "false" then s.(node := n.(skipCertVerify := Some(w != "true"))) else s.(node := n.(nameCertVerify := Some(w)))
    else if key == "tls-cert-sha256" then s.(node := n.(fingerprint := Some(TrimSpace(v))))
    else if key == "tls-pubkey-sha256" then s.(node := n.(pubkey := Some(v)))
    else if key == "tls-alpn" then s.(node := n.(tlsAlpn := Some(v)))
    else if key == "tls-no-session-ticket" then s.(node := n.(noTicket := Flag(v, n.noTicket)))
    else if key == "tls-no-session-reuse" then s.(node := n.(noReuse := Flag(v, n.noReuse)))
    else if key == "udp-relay" then s.(node := n.(udp := Flag(v, n.udp)))
    else if key == "fast-open" then s.(node := n.(tfo := Flag(v, n.tfo)))
    else if key == "server_check_url" then s.(node := n.(testUrl := Some(v)))
    else if key == "reality-base64-pubkey" then s.(node := n.(publicKey := Some(v)))
    else if key == "reality-hex-shortid" then s.(node := n.(shortId := Some(v)))
    else if key == "udp-over-tcp" then s.(refused := true)
    else if key == "obfs" then (if v == "wss" || v == "ws" || v == "over-tls" || v == "http" then s.(obfsType := v) else s)
    else if key == "obfs-host" then s.(obfsHost := StripQuotes(v))
    else if key == "obfs-uri" then s.(obfsPath := v)
    else if key == "tag" then s.(node := n.(name := Some(v)))
    else s
  }

  function ApplyAll(s: State, options: seq<Param>): State
    decreases |options|
  {
    if options == [] then s else ApplyAll(ApplyOption(s, options[0].0, options[0].1), options[1..])
  }

  function NonEmpty(v: string): Option<string> {
    if v == "" then None else Some(v)
  }

  function OrEmpty(v: Option<string>): string {
    if v.None? then "" else v.value
  }

  /** applyQXHandleObfs */
  function HandleObfs(s: State): Node {
    var n := s.node;
    if s.obfsType == "ws" || s.obfsType == "wss" then
      n.(network := Some("ws"), tls := if s.obfsType == "wss" then Some(true) else n.tls,
         path := NonEmpty(s.obfsPath), host := NonEmpty(s.obfsHost))
    else if s.obfsType == "over-tls" then
      n.(tls := Some(true), sni := if s.obfsHost != "" && n.sni.None? then Some(s.obfsHost) else n.sni)
    else if s.obfsType == "http" then
      n.(network := Some("http"), path := NonEmpty(s.obfsPath), host := NonEmpty(s.obfsHost))
    else n
  }

  function LastIndexByte(s: string, c: char): (k: int)
    ensures -1 <= k < |s|
    ensures if k == -1 then c !in s else s[k] == c && c !in s[k + 1..]
    decreases |s|
  {
    if s == "" then -1
    else
      var n := |s| - 1;
      if s[n] == c then n
      else
        var k := LastIndexByte(s[..n], c);
        assert s == s[..n] + [s[n]];
        assert k >= 0 ==> s[k + 1..] == s[..n][k + 1..] + [s[n]];
        k
  }

  /** parseQXAddress */
  function ReadAddress(field: string): Option<(string, nat)> {
    var k := LastIndexByte(field, ':');
    if k <= 0 || k == |field| - 1 || !AllDigits(field[k + 1..]) || Atoi(field[k + 1..]).None? then None
    else
      var port := Atoi(field[k + 1..]).value;
      if 0 <= port <= 65535 then Some((field[..k], port)) else None
  }

  function Blank(server: string, port: nat): Node {
    Node(server, port, None, None, None, None, None, None, None, None, None,
         None, None, None, None, None, None, None, None, None, None)
  }

  function Start(server: string, port: nat): State {
    State(Blank(server, port), "", "", "", false)
  }

  /** A trojan line as a proxy; None is the reader's error. */
  function TrojanOf(r: Reading): Option<Node> {
    if !r.Line? || r.typ != "trojan" then None
    else
      var a := ReadAddress(r.address);
      if a.None? then None
      else
        var s := ApplyAll(Start(a.value.0, a.value.1), r.options);
        if s.refused then None else Some(HandleObfs(s))
  }

  lemma {:induction false} RefusedForGood(s: State, options: seq<Param>)
    requires s.refused
    ensures ApplyAll(s, options).refused
    decreases |options|
  {
    if options != [] {
      RefusedForGood(ApplyOption(s, options[0].0, options[0].1), options[1..]);
    }
  }

  lemma {:induction false} ApplyAppend(s: State, xs: seq<Param>, ys: seq<Param>)
    ensures ApplyAll(s, xs + ys) == ApplyAll(ApplyAll(s, xs), ys)
    decreases |xs|
  {
    hide ApplyOption;
    if xs == [] {
      assert xs + ys == ys;
    } else {
      assert (xs + ys)[1..] == xs[1..] + ys;
      ApplyAppend(ApplyOption(s, xs[0].0, xs[0].1), xs[1..], ys);
    }
  }

  lemma ApplyOne(s: State, key: string, v: string)
    ensures ApplyAll(s, [(key, v)]) == ApplyOption(s, key, v)
  {
    assert [(key, v)][1..] == [];
  }

  /** The whole reading of a trojan line: address, options one by one, obfs last. */
  method ReadTrojan(line: string) returns (r: Option<Node>)
    ensures r == TrojanOf(ReadLine(line))
  {
    hide ReadLine, ApplyOption, HandleObfs, ReadAddress;
    var parsed := ParseQxLine(line);
    if !parsed.Line? || parsed.typ != "trojan" {
      return None;
    }
    var a := ReadAddress(parsed.address);
    if a.None? {
      return None;
    }
    var s := Start(a.value.0, a.value.1);
    ghost var start := s;
    var options := parsed.options;
    for i := 0 to |options|
      invariant s == ApplyAll(start, options[..i]) && !s.refused
    {
      assert options[..i + 1] == options[..i] + [options[i]];
      ApplyAppend(start, options[..i], [options[i]]);
      ApplyOne(s, options[i].0, options[i].1);
      s := ApplyOption(s, options[i].0, options[i].1);
      if s.refused {
        ApplyAppend(start, options[..i + 1], options[i + 1..]);
        assert options[..i + 1] + options[i + 1..] == options;
        RefusedForGood(s, options[i + 1..]);
        return None;
      }
    }
    assert options[..|options|] == options;
    return Some(HandleObfs(s));
  }

  // ---- reading back a printed trojan ----

  /** A flag as it is printed. */
  predicate IsFlag(v: Option<string>) {
    v.Some? ==> v.value == "true" || v.value == "false"
  }

  function FlagOf(v: Option<string>): Option<bool> {
    if v.None? then None else ReadBool(v.value)
  }

  predicate TrimmedValue(v: Option<string>) {
    v.Some? ==> Trimmed(v.value)
  }

  /** A trojan whose texts are trimmed, whose flags are flags, and whose certificate name
      does not read like one. */
  predicate Readable(t: Trojan) {
    && SimpleTrojan(t) && SimplePassword(t.password) && Carried(t.password)
    && t.server != "" && Trimmed(t.server) && t.port <= 65535 && Trimmed(t.name)
    && TrimmedValue(t.path) && TrimmedValue(t.host) && TrimmedValue(t.pubkey) && TrimmedValue(t.tlsAlpn)
    && TrimmedValue(t.fingerprint) && TrimmedValue(t.nameCertVerify) && TrimmedValue(t.sni) && TrimmedValue(t.testUrl)
    && IsFlag(t.noTicket) && IsFlag(t.noReuse) && IsFlag(t.tfo) && IsFlag(t.udp)
    && VerifiesAName(t)
  }

  predicate VerifiesAName(t: Trojan) {
    t.nameCertVerify.Some? ==> t.nameCertVerify.value != "true" && t.nameCertVerify.value != "false"
  }

  function WhenTls<T>(t: Trojan, v: Option<T>): Option<T> {
    if t.tls then v else None
  }

  /** What is read: plain tcp goes without a network, and TLS options go with TLS. */
  function NodeOf(t: Trojan): Node {
    var ws := t.network == Some("ws");
    Node(t.server, t.port, Some(t.password), Some(t.name),
         if ws then Some("ws") else None,
         if t.tls then Some(true) else None,
         if ws && t.path.Some? then NonEmpty(t.path.value) else None,
         if ws && t.host.Some? then NonEmpty(t.host.value) else None,
         WhenTls(t, t.pubkey), WhenTls(t, AlpnText(t)), WhenTls(t, FlagOf(t.noTicket)), WhenTls(t, FlagOf(t.noReuse)),
         WhenTls(t, t.fingerprint), WhenTls(t, t.nameCertVerify),
         WhenTls(t, if t.nameCertVerify.Some? then None else t.skipCertVerify),
         WhenTls(t, t.sni), FlagOf(t.tfo), FlagOf(t.udp), t.testUrl, None, None)
  }

  function Put(s: State, key: string, v: Option<string>): State {
    if v.None? then s else ApplyOption(s, key, v.value)
  }

  /** One optional parameter more. */
  lemma PresentPut(s: State, ps: seq<Param>, key: string, v: Option<string>)
    ensures ApplyAll(s, IfPresent(ps, key, v)) == Put(ApplyAll(s, ps), key, v)
  {
    hide ApplyOption;
    if v.Some? {
      ApplyAppend(s, ps, [(key, v.value)]);
      ApplyOne(ApplyAll(s, ps), key, v.value);
    }
  }

  lemma TextOptions(s: State, v: string)
    ensures ApplyOption(s, "password", v) == s.(node := s.node.(password := Some(v)))
    ensures ApplyOption(s, "tls-pubkey-sha256", v) == s.(node := s.node.(pubkey := Some(v)))
    ensures ApplyOption(s, "tls-alpn", v) == s.(node := s.node.(tlsAlpn := Some(v)))
  {
    hide StripQuotes, TrimSpace, Flag;
  }

  lemma PlainOptions(s: State, v: string)
    ensures ApplyOption(s, "server_check_url", v) == s.(node := s.node.(testUrl := Some(v)))
    ensures ApplyOption(s, "tag", v) == s.(node := s.node.(name := Some(v)))
    ensures ApplyOption(s, "obfs-uri", v) == s.(obfsPath := v)
  {
    hide StripQuotes, TrimSpace, Flag;
  }

  lemma FlagOptions(s: State, v: string)
    requires ReadBool(v).Some?
    ensures ApplyOption(s, "over-tls", v) == s.(node := s.node.(tls := ReadBool(v)))
    ensures ApplyOption(s, "tls-no-session-ticket", v) == s.(node := s.node.(noTicket := ReadBool(v)))
    ensures ApplyOption(s, "tls-no-session-reuse", v) == s.(node := s.node.(noReuse := ReadBool(v)))
    ensures ApplyOption(s, "udp-relay", v) == s.(node := s.node.(udp := ReadBool(v)))
    ensures ApplyOption(s, "fast-open", v) == s.(node := s.node.(tfo := ReadBool(v)))
  {
    hide StripQuotes, TrimSpace;
  }

  lemma CertificateOptions(s: State, v: string)
    requires Trimmed(v)
    ensures ApplyOption(s, "tls-cert-sha256", v) == s.(node := s.node.(fingerprint := Some(v)))
    ensures ApplyOption(s, "tls-verification", v)
            == if v == "true" then s.(node := s.node.(skipCertVerify := Some(false)))
               else if v == "false" then s.(node := s.node.(skipCertVerify := Some(true)))
               else s.(node := s.node.(nameCertVerify := Some(v)))
  {
    hide StripQuotes, TrimSpace, Flag;
  }

  lemma HostOptions(s: State, v: string)
    requires SimpleText(v)
    ensures ApplyOption(s, "tls-host", v) == s.(node := s.node.(sni := Some(v)))
    ensures ApplyOption(s, "obfs-host", v) == s.(obfsHost := v)
    ensures ApplyOption(s, "obfs", "ws") == s.(obfsType := "ws")
    ensures ApplyOption(s, "obfs", "wss") == s.(obfsType := "wss")
  {
    hide TrimSpace, Flag;
  }

  lemma TransportApplied(s: State, t: Trojan)
    requires Readable(t) && s.obfsPath == "" && s.obfsHost == "" && s.obfsType == ""
    ensures ApplyAll(s, TrojanTransport(t))
            == if t.network == Some("ws") then
                 s.(obfsType := if t.tls then "wss" else "ws", obfsPath := OrEmpty(t.path), obfsHost := OrEmpty(t.host))
               else if t.tls then s.(node := s.node.(tls := Some(true)))
               else s
  {
    hide ApplyOption, Carried, SimplePassword, Trimmed;
    var obfs := if t.tls then "wss" else "ws";
    if t.network == Some("ws") {
      var a := [("obfs", obfs)];
      ApplyOne(s, "obfs", obfs);
      HostOptions(s, "");
      PresentPut(s, a, "obfs-uri", t.path);
      var b := IfPresent(a, "obfs-uri", t.path);
      PlainOptions(ApplyAll(s, a), OrEmpty(t.path));
      PresentPut(s, b, "obfs-host", t.host);
      HostOptions(ApplyAll(s, b), OrEmpty(t.host));
    } else if t.tls {
      ApplyOne(s, "over-tls", "true");
      FlagOptions(s, "true");
    }
  }

  function WithTls(n: Node, t: Trojan): Node {
    n.(pubkey := t.pubkey, tlsAlpn := AlpnText(t), noTicket := FlagOf(t.noTicket), noReuse := FlagOf(t.noReuse),
       fingerprint := t.fingerprint, nameCertVerify := t.nameCertVerify,
       skipCertVerify := if t.nameCertVerify.Some? then None else t.skipCertVerify)
  }

  /** Nothing from the TLS options yet. */
  predicate NoTlsYet(n: Node) {
    && n.pubkey.None? && n.tlsAlpn.None? && n.noTicket.None? && n.noReuse.None?
    && n.fingerprint.None? && n.nameCertVerify.None? && n.skipCertVerify.None?
  }

  lemma PutTexts(s: State, a: Option<string>, b: Option<string>)
    requires s.node.pubkey.None? && s.node.tlsAlpn.None?
    ensures Put(Put(s, "tls-pubkey-sha256", a), "tls-alpn", b) == s.(node := s.node.(pubkey := a, tlsAlpn := b))
  {
    hide ApplyOption;
    TextOptions(s, OrEmpty(a));
    TextOptions(Put(s, "tls-pubkey-sha256", a), OrEmpty(b));
  }

  lemma PutSessions(s: State, a: Option<string>, b: Option<string>)
    requires s.node.noTicket.None? && s.node.noReuse.None? && IsFlag(a) && IsFlag(b)
    ensures Put(Put(s, "tls-no-session-ticket", a), "tls-no-session-reuse", b)
            == s.(node := s.node.(noTicket := FlagOf(a), noReuse := FlagOf(b)))
  {
    hide ApplyOption;
    if a.Some? {
      FlagOptions(s, a.value);
    }
    if b.Some? {
      FlagOptions(Put(s, "tls-no-session-ticket", a), b.value);
    }
  }

  lemma PutCertificate(s: State, t: Trojan)
    requires s.node.fingerprint.None? && s.node.nameCertVerify.None? && s.node.skipCertVerify.None?
    requires TrimmedValue(t.fingerprint) && TrimmedValue(t.nameCertVerify) && VerifiesAName(t)
    ensures Put(Put(s, "tls-cert-sha256", t.fingerprint), "tls-verification", Verification(t))
            == s.(node := s.node.(fingerprint := t.fingerprint, nameCertVerify := t.nameCertVerify,
                                  skipCertVerify := if t.nameCertVerify.Some? then None else t.skipCertVerify))
  {
    hide ApplyOption, Trimmed;
    if t.fingerprint.Some? {
      CertificateOptions(s, t.fingerprint.value);
    }
    if Verification(t).Some? {
      VerificationTrimmed(t);
      CertificateOptions(Put(s, "tls-cert-sha256", t.fingerprint), Verification(t).value);
    }
  }

  lemma BoolsTrimmed()
    ensures Trimmed("true") && Trimmed("false")
  {
    TrimKeepsEdges("true");
    TrimKeepsEdges("false");
  }

  lemma VerificationTrimmed(t: Trojan)
    requires TrimmedValue(t.nameCertVerify)
    ensures TrimmedValue(Verification(t))
  {
    BoolsTrimmed();
    hide Trimmed;
  }

  lemma TlsApplied(s: State, ps: seq<Param>, t: Trojan)
    requires Readable(t) && NoTlsYet(ApplyAll(s, ps).node)
    ensures ApplyAll(s, TlsBlock(ps, t)) == ApplyAll(s, ps).(node := WithTls(ApplyAll(s, ps).node, t))
  {
    hide ApplyAll, ApplyOption, IfPresent, Put, Carried, SimplePassword, Trimmed, SimpleTrojan, AlpnText, Verification;
    var s0 := ApplyAll(s, ps);
    var a := IfPresent(ps, "tls-pubkey-sha256", t.pubkey);
    var b := IfPresent(a, "tls-alpn", AlpnText(t));
    var c := IfPresent(b, "tls-no-session-ticket", t.noTicket);
    var d := IfPresent(c, "tls-no-session-reuse", t.noReuse);
    var e := IfPresent(d, "tls-cert-sha256", t.fingerprint);
    PresentPut(s, ps, "tls-pubkey-sha256", t.pubkey);
    PresentPut(s, a, "tls-alpn", AlpnText(t));
    PresentPut(s, b, "tls-no-session-ticket", t.noTicket);
    PresentPut(s, c, "tls-no-session-reuse", t.noReuse);
    PresentPut(s, d, "tls-cert-sha256", t.fingerprint);
    PresentPut(s, e, "tls-verification", Verification(t));
    PutTexts(s0, t.pubkey, AlpnText(t));
    PutSessions(ApplyAll(s, b), t.noTicket, t.noReuse);
    PutCertificate(ApplyAll(s, d), t);
  }

  lemma PutFlags(s: State, a: Option<string>, b: Option<string>)
    requires s.node.tfo.None? && s.node.udp.None? && IsFlag(a) && IsFlag(b)
    ensures Put(Put(s, "fast-open", a), "udp-relay", b) == s.(node := s.node.(tfo := FlagOf(a), udp := FlagOf(b)))
  {
    hide ApplyOption;
    if a.Some? {
      FlagOptions(s, a.value);
    }
    if b.Some? {
      FlagOptions(Put(s, "fast-open", a), b.value);
    }
  }

  lemma PutNames(s: State, a: Option<string>, b: string)
    requires s.node.testUrl.None?
    ensures Put(Put(s, "server_check_url", a), "tag", Some(b)) == s.(node := s.node.(testUrl := a, name := Some(b)))
  {
    hide ApplyOption;
    PlainOptions(s, OrEmpty(a));
    PlainOptions(Put(s, "server_check_url", a), b);
  }

  lemma CommonApplied(s: State, ps: seq<Param>, t: Trojan)
    requires IsFlag(t.tfo) && IsFlag(t.udp)
    requires var n := ApplyAll(s, ps).node; n.tfo.None? && n.udp.None? && n.testUrl.None?
    ensures var s0 := ApplyAll(s, ps);
            ApplyAll(s, Common(ps, t))
            == s0.(node := s0.node.(tfo := FlagOf(t.tfo), udp := FlagOf(t.udp), testUrl := t.testUrl, name := Some(t.name)))
  {
    hide ApplyAll, ApplyOption, Put;
    var a := IfPresent(ps, "fast-open", t.tfo);
    var b := IfPresent(a, "udp-relay", t.udp);
    var c := IfPresent(b, "server_check_url", t.testUrl);
    AddParam(c, "tag", t.name);
    hide IfPresent;
    PresentPut(s, ps, "fast-open", t.tfo);
    PresentPut(s, a, "udp-relay", t.udp);
    PresentPut(s, b, "server_check_url", t.testUrl);
    PresentPut(s, c, "tag", Some(t.name));
    PutFlags(ApplyAll(s, ps), t.tfo, t.udp);
    PutNames(ApplyAll(s, b), t.testUrl, t.name);
  }

  // ---- nothing of a trimmed value is cut ----

  predicate AllTrimmed(ps: seq<Param>) {
    forall p :: p in ps ==> Trimmed(p.1)
  }

  lemma {:induction false} TrimmedReadBacks(ps: seq<Param>)
    requires AllTrimmed(ps)
    ensures ReadBacks(ps) == ps
    decreases |ps|
  {
    hide ReadBack, Trimmed;
    forall i | 0 <= i < |ps|
      ensures ReadBacks(ps)[i] == ps[i]
    {
      TrimmedReadsBack(ps[i]);
    }
  }

  lemma PresentTrimmed(ps: seq<Param>, key: string, v: Option<string>)
    requires AllTrimmed(ps) && TrimmedValue(v)
    ensures AllTrimmed(IfPresent(ps, key, v))
  {
    hide Trimmed;
  }

  lemma TransportTrimmed(t: Trojan)
    requires Readable(t)
    ensures AllTrimmed(TrojanTransport(t))
  {
    TrimKeepsEdges("ws");
    TrimKeepsEdges("wss");
    BoolsTrimmed();
    hide Trimmed, Carried, SimplePassword, SimpleTrojan;
    if t.network == Some("ws") {
      var a := [("obfs", if t.tls then "wss" else "ws")];
      PresentTrimmed(a, "obfs-uri", t.path);
      PresentTrimmed(IfPresent(a, "obfs-uri", t.path), "obfs-host", t.host);
    }
  }

  lemma HexIsTrimmed(s: string)
    requires HexDigits(s)
    ensures Trimmed(s)
  {
    TrimKeepsEdges(s);
  }

  lemma AlpnTrimmed(t: Trojan)
    requires TrimmedValue(t.tlsAlpn)
    ensures TrimmedValue(AlpnText(t))
  {
    hide Trimmed, Encoded, NonBlank;
    if t.tlsAlpn.None? && t.alpn.Some? {
      var protocols := NonBlank(AlpnItems(t.alpn.value));
      EncodedIsHex(protocols);
      HexIsTrimmed(Encoded(protocols));
    }
  }

  lemma TlsTrimmed(ps: seq<Param>, t: Trojan)
    requires Readable(t) && AllTrimmed(ps)
    ensures AllTrimmed(TlsBlock(ps, t))
  {
    AlpnTrimmed(t);
    VerificationTrimmed(t);
    FlagsTrimmed(t);
    hide Trimmed, Carried, SimplePassword, SimpleTrojan, AlpnText, Verification, AllTrimmed, IfPresent, TrimmedValue;
    var a := IfPresent(ps, "tls-pubkey-sha256", t.pubkey);
    PresentTrimmed(ps, "tls-pubkey-sha256", t.pubkey);
    PresentTrimmed(a, "tls-alpn", AlpnText(t));
    var b := IfPresent(a, "tls-alpn", AlpnText(t));
    PresentTrimmed(b, "tls-no-session-ticket", t.noTicket);
    var c := IfPresent(b, "tls-no-session-ticket", t.noTicket);
    PresentTrimmed(c, "tls-no-session-reuse", t.noReuse);
    var d := IfPresent(c, "tls-no-session-reuse", t.noReuse);
    PresentTrimmed(d, "tls-cert-sha256", t.fingerprint);
    PresentTrimmed(IfPresent(d, "tls-cert-sha256", t.fingerprint), "tls-verification", Verification(t));
  }

  lemma FlagsTrimmed(t: Trojan)
    requires Readable(t)
    ensures TrimmedValue(t.noTicket) && TrimmedValue(t.noReuse) && TrimmedValue(t.tfo) && TrimmedValue(t.udp)
  {
    BoolsTrimmed();
    hide Trimmed, Carried, SimplePassword, SimpleTrojan;
  }

  lemma CommonTrimmed(ps: seq<Param>, t: Trojan)
    requires Readable(t) && AllTrimmed(ps)
    ensures AllTrimmed(Common(ps, t))
  {
    FlagsTrimmed(t);
    hide Trimmed, Carried, SimplePassword, SimpleTrojan;
    var a := IfPresent(ps, "fast-open", t.tfo);
    PresentTrimmed(ps, "fast-open", t.tfo);
    PresentTrimmed(a, "udp-relay", t.udp);
    PresentTrimmed(IfPresent(a, "udp-relay", t.udp), "server_check_url", t.testUrl);
  }

  lemma ParamsTrimmed(t: Trojan)
    requires Readable(t)
    ensures AllTrimmed(TrojanParams(t))
  {
    hide Trimmed, Carried, SimplePassword, SimpleTrojan, AllTrimmed, IfPresent, TlsBlock, Common, TrojanTransport;
    var transport := TrojanTransport(t);
    TransportTrimmed(t);
    TlsTrimmed(transport, t);
    PresentTrimmed(TlsBlock(transport, t), "tls-host", t.sni);
    CommonTrimmed(if t.tls then IfPresent(TlsBlock(transport, t), "tls-host", t.sni) else transport, t);
  }

  // ---- the address ----

  lemma LeadingBeforeColon(a: string, b: string)
    requires a != ""
    ensures LeadingSpace(a) == 0 ==> LeadingSpace(a + ":" + b) == 0
  {
    var s := a + ":" + b;
    assert s[0] == a[0];
    assert |s| > 1 ==> s[1] == if |a| > 1 then a[1] else ':';
    assert |a| > 2 ==> s[2] == a[2];
    assert |a| == 2 ==> s[2] == ':';
  }

  lemma AddressTrimmed(a: string, digits: string)
    requires a != "" && Trimmed(a) && digits != "" && AllDigits(digits)
    ensures Trimmed(a + ":" + digits)
  {
    var s := a + ":" + digits;
    TrimmedHasNoEdges(a);
    TrimLeftDone(a);
    LeadingBeforeColon(a, digits);
    assert TrimLeft(s) == s by { hide LeadingSpace; }
    hide TrimLeft, LeadingSpace, TrimRight, TrailingSpace;
    TrimRightStops(a + ":" + digits[..|digits| - 1], digits[|digits| - 1], "");
    assert a + ":" + digits[..|digits| - 1] + [digits[|digits| - 1]] + "" == s;
    NothingRight();
    assert s + "" == s;
  }

  lemma NothingRight()
    ensures TrimRight("") == ""
  {
  }

  lemma {:induction false} LastColon(a: string, digits: string)
    requires AllDigits(digits)
    ensures LastIndexByte(a + ":" + digits, ':') == |a|
    decreases |digits|
  {
    var s := a + ":" + digits;
    var n := |digits| - 1;
    if digits == "" {
      assert s == a + ":";
    } else {
      assert s[|s| - 1] == digits[n] && s[..|s| - 1] == a + ":" + digits[..n];
      LastColon(a, digits[..n]);
    }
  }

  lemma AddressReads(server: string, port: nat)
    requires server != "" && Trimmed(server) && port <= 65535
    ensures TrimSpace(server + ":" + Itoa(port)) == server + ":" + Itoa(port)
    ensures ReadAddress(server + ":" + Itoa(port)) == Some((server, port))
  {
    hide TrimSpace, Itoa, LastIndexByte, Atoi;
    var s := server + ":" + Itoa(port);
    AddressTrimmed(server, Itoa(port));
    LastColon(server, Itoa(port));
    AtoiOfItoa(port);
    assert s[|server| + 1..] == Itoa(port) && s[..|server|] == server;
  }

  // ---- the whole way back ----

  /** The state between the transport and the common options. */
  function Middle(s: State, t: Trojan): State {
    if t.tls then
      var w := WithTls(s.node, t);
      s.(node := if t.sni.Some? then w.(sni := t.sni) else w)
    else s
  }

  lemma MiddleApplied(s: State, a: seq<Param>, t: Trojan)
    requires Readable(t) && NoTlsYet(ApplyAll(s, a).node)
    ensures ApplyAll(s, if t.tls then IfPresent(TlsBlock(a, t), "tls-host", t.sni) else a) == Middle(ApplyAll(s, a), t)
  {
    hide ApplyAll, ApplyOption, IfPresent, Carried, SimplePassword, Trimmed, AlpnText, Verification, TlsBlock, WithTls;
    if t.tls {
      var b := TlsBlock(a, t);
      TlsApplied(s, a, t);
      PresentPut(s, b, "tls-host", t.sni);
      if t.sni.Some? {
        HostOptions(ApplyAll(s, b), t.sni.value);
      }
    }
  }

  /** Everything but obfs, which is applied at the end. */
  function AfterParams(s: State, t: Trojan): State {
    var m := Middle(s, t);
    m.(node := m.node.(tfo := FlagOf(t.tfo), udp := FlagOf(t.udp), testUrl := t.testUrl, name := Some(t.name)))
  }

  /** What every trojan line starts from once its password is applied. */
  function Opening(t: Trojan): State {
    State(Blank(t.server, t.port).(password := Some(t.password)), "", "", "", false)
  }

  predicate NoCommonYet(n: Node) {
    n.tfo.None? && n.udp.None? && n.testUrl.None?
  }

  lemma TransportLeaves(t: Trojan)
    requires Readable(t)
    ensures var n := ApplyAll(Opening(t), TrojanTransport(t)).node; NoTlsYet(n) && NoCommonYet(n)
  {
    hide ApplyAll, TrojanTransport, Readable;
    TransportApplied(Opening(t), t);
  }

  lemma MiddleLeaves(s: State, t: Trojan)
    requires NoCommonYet(s.node)
    ensures NoCommonYet(Middle(s, t).node)
  {
  }

  lemma ReadableFlags(t: Trojan)
    requires Readable(t)
    ensures IsFlag(t.tfo) && IsFlag(t.udp)
  {
  }

  lemma ParamsApplied(t: Trojan)
    requires Readable(t)
    ensures ApplyAll(Opening(t), TrojanParams(t)) == AfterParams(ApplyAll(Opening(t), TrojanTransport(t)), t)
  {
    hide Opening, Readable, ApplyAll, IfPresent, TlsBlock, Common, TrojanTransport, Middle, NoTlsYet, IsFlag, FlagOf;
    var s, a := Opening(t), TrojanTransport(t);
    TransportLeaves(t);
    MiddleApplied(s, a, t);
    MiddleLeaves(ApplyAll(s, a), t);
    ReadableFlags(t);
    CommonApplied(s, if t.tls then IfPresent(TlsBlock(a, t), "tls-host", t.sni) else a, t);
  }

  lemma TlsObfsCompletes(s: State, t: Trojan)
    requires t.tls
    requires s == if t.network == Some("ws") then Opening(t).(obfsType := "wss", obfsPath := OrEmpty(t.path), obfsHost := OrEmpty(t.host))
                  else Opening(t).(node := Opening(t).node.(tls := Some(true)))
    ensures var r := AfterParams(s, t); !r.refused && HandleObfs(r) == NodeOf(t)
  {
    hide AlpnText, FlagOf;
  }

  lemma PlainObfsCompletes(s: State, t: Trojan)
    requires !t.tls
    requires s == if t.network == Some("ws") then Opening(t).(obfsType := "ws", obfsPath := OrEmpty(t.path), obfsHost := OrEmpty(t.host))
                  else Opening(t)
    ensures var r := AfterParams(s, t); !r.refused && HandleObfs(r) == NodeOf(t)
  {
    hide AlpnText, FlagOf;
  }

  /** obfs, applied to what the other options left, completes the proxy. */
  lemma ObfsCompletes(t: Trojan)
    requires Readable(t)
    ensures var r := AfterParams(ApplyAll(Opening(t), TrojanTransport(t)), t); !r.refused && HandleObfs(r) == NodeOf(t)
  {
    hide ApplyAll, Readable, AfterParams, HandleObfs, NodeOf, TrojanTransport;
    var s := ApplyAll(Opening(t), TrojanTransport(t));
    TransportApplied(Opening(t), t);
    if t.tls {
      TlsObfsCompletes(s, t);
    } else {
      PlainObfsCompletes(s, t);
    }
  }

  /** A printed trojan line is read all the way back to its proxy. */
  lemma TrojanReads(t: Trojan)
    requires Readable(t)
    ensures TrojanOf(ReadLine(PrintLine("trojan", TrojanAddress(t), [], t.password, TrojanParams(t)))) == Some(NodeOf(t))
  {
    hide ReadLine, PrintLine, Carried, TrojanParams, TrojanTransport, SimplePassword, SimpleTrojan, TrimSpace, ReadAddress,
         ApplyOption, AfterParams, HandleObfs, NodeOf, Itoa;
    var ps := TrojanParams(t);
    TrojanRoundTrip(t);
    AddressReads(t.server, t.port);
    ParamsTrimmed(t);
    TrimmedReadBacks(ps);
    var s := Start(t.server, t.port);
    assert Expected([], t.password, ps) == [("password", t.password)] + ps;
    ApplyAppend(s, [("password", t.password)], ps);
    ApplyOne(s, "password", t.password);
    TextOptions(s, t.password);
    ParamsApplied(t);
    ObfsCompletes(t);
  }

  // ---- the types whose password takes no commas ----

  lemma {:induction false} DroppedPieces(xs: seq<string>)
    requires forall x :: x in xs ==> '=' !in x
    ensures Options(TrimAll(xs)) == []
    decreases |xs|
  {
    hide TrimSpace, ReadOption;
    if xs != [] {
      assert xs[0] in xs && forall x :: x in xs[1..] ==> x in xs;
      TrimKeepsOut(xs[0], '=');
      TrimTwice(xs[0]);
      DroppedPieces(xs[1..]);
      assert TrimAll(xs)[1..] == TrimAll(xs[1..]);
    }
  }

  lemma OtherTypes(typ: string)
    requires typ in {"vmess", "vless", "hysteria2"}
    ensures '=' !in typ && Trimmed(typ) && !PasswordTakesCommas(typ)
  {
    hide TrimSpace;
    match typ
    case "vmess" => TrimKeepsEdges("vmess");
    case "vless" => TrimKeepsEdges("vless");
    case _ => TrimKeepsEdges("hysteria2");
  }

  lemma CutPasswordReads(p: string)
    ensures Options(TrimAll([Assignment(("password", p))])) == [ReadBack(("password", p))]
  {
    hide TrimSpace, ReadOption, TrimRight;
    AssignmentReads("password", p);
    var f := TrimSpace(Assignment(("password", p)));
    TrimTwice(Assignment(("password", p)));
    assert f[8] == '=';
    var fs: seq<string> := [f];
    assert TrimAll([Assignment(("password", p))]) == fs;
    assert fs[1..] == [];
  }

  /** Lines of the other types keep the first piece of a password and drop the pieces
      behind its commas that hold no '='. */
  lemma PasswordIsCut(typ: string, address: string, before: seq<Param>, password: string, after: seq<Param>)
    requires typ in {"vmess", "vless", "hysteria2"} && ',' !in address && '=' !in address
    requires SimpleParams(before) && SimpleParams(after) && after != [] && SimplePassword(password)
    requires forall x :: x in Split(password, ',')[1..] ==> '=' !in x
    ensures ReadLine(PrintLine(typ, address, before, password, after))
            == Line(typ, TrimSpace(address),
                    ReadBacks(before) + ([ReadBack(("password", Split(password, ',')[0]))] + ReadBacks(after)))
  {
    hide Fields, SimpleField, TrimSpace, TrimAll, Options, Tail, PrintLine, PasswordTakesCommas, SimplePassword,
         SimpleParam, Assignment, Assignments, ReadBack;
    var ps := Split(password, ',');
    var fs := LineFields(before, ps, after);
    var text := address + Tail(fs);
    PrintedFields(typ, address, before, password, after);
    LineFieldsSimple(before, password, after);
    AddressIsSimple(address);
    OtherTypes(typ);
    TypeShape(typ, text);
    IndexByteUnique(typ + "=" + text, '=', |typ|);
    FieldsOfTail(address, fs);
    TrimAllCons(address, fs);
    assert ([TrimSpace(address)] + TrimAll(fs))[1..] == TrimAll(fs);
    TrimTwice(address);
    OptionsOfPieces(before, ps, after);
  }

  lemma OptionsOfPieces(before: seq<Param>, ps: seq<string>, after: seq<Param>)
    requires SimpleParams(before) && SimpleParams(after) && ps != []
    requires forall x :: x in ps[1..] ==> '=' !in x
    ensures Options(TrimAll(LineFields(before, ps, after)))
            == ReadBacks(before) + ([ReadBack(("password", ps[0]))] + ReadBacks(after))
  {
    hide TrimAll, Options, SimpleParam, Assignment, Assignments, ReadBack;
    var p := Assignment(("password", ps[0]));
    var mid := ps[1..] + Assignments(after);
    TrimAllAppend(Assignments(before), [p] + mid);
    TrimAllAppend([p], mid);
    TrimAllAppend(ps[1..], Assignments(after));
    CutReads(before);
    CutReads(after);
    OptionsAppend(Cut(before), TrimAll([p]) + TrimAll(mid));
    OptionsAppend(TrimAll([p]), TrimAll(mid));
    OptionsAppend(TrimAll(ps[1..]), Cut(after));
    CutPasswordReads(ps[0]);
    DroppedPieces(ps[1..]);
    assert [] + ReadBacks(after) == ReadBacks(after);
  }
}
