/** WebSocket options whose early-data size hides in the path: taking it out, and writing
    it back when a link is printed. */
module EarlyData {
  import opened GoStrings
  import opened Numerals
  import opened QueryParam

  const DEFAULT_HEADER := "Sec-WebSocket-Protocol"

  /** `max-early-data`: a number or a text. */
  datatype MaxData = Number(n: int) | Text(text: Bytes)

  /** The options that concern early data. */
  datatype WsOpts = WsOpts(
    path: Option<string>, headerName: Option<string>, maxEarlyData: Option<MaxData>,
    upgrade: bool, fastOpen: bool, upgradeEd: Option<string>)

  function PathText(o: WsOpts): string {
    if o.path.None? then "" else o.path.value
  }

  function EdOf(o: WsOpts): string {
    Value(Producer, PathText(o), "ed")
  }

  function Cleaned(o: WsOpts): string {
    Clean(Producer, PathText(o), "ed")
  }

  /** parseSafeIntegerValue of a text. */
  function SafeInteger(v: string): Option<int> {
    var t := TrimSpace(v);
    if t == "" || !AllDigits(t) then None else Atoi(t)
  }

  /** What normalising makes of the options. */
  function Normalized(o: WsOpts): WsOpts {
    var ed := EdOf(o);
    if o.upgrade then
      var m := if ed == "" then o
               else o.(path := Some(Cleaned(o)), fastOpen := true,
                       upgradeEd := if o.upgradeEd.None? || o.upgradeEd.value == "" then Some(ed) else o.upgradeEd);
      m.(headerName := None, maxEarlyData := None)
    else if ed == "" then o
    else
      o.(path := Some(Cleaned(o)),
         headerName := if o.headerName.None? then Some(DEFAULT_HEADER) else o.headerName,
         maxEarlyData := if o.maxEarlyData.None? && SafeInteger(ed).Some? then Some(Number(SafeInteger(ed).value)) else o.maxEarlyData)
  }

  /** The option map that is edited in place. */
  class TransportOptions {
    var opts: WsOpts

    constructor (opts: WsOpts)
      ensures this.opts == opts
    {
      this.opts := opts;
    }

    method NormalizeWebSocketEarlyDataPath()
      modifies this
      ensures opts == Normalized(old(opts))
    {
      var path := PathText(opts);
      var clean, ed := ExtractPathQueryParam(Producer, path, "ed");
      var hasED := ed != "";
      if opts.upgrade {
        if hasED {
          opts := opts.(path := Some(clean));
          opts := opts.(fastOpen := true);
          if opts.upgradeEd.None? || opts.upgradeEd.value == "" {
            opts := opts.(upgradeEd := Some(ed));
          }
        }
        opts := opts.(headerName := None);
        opts := opts.(maxEarlyData := None);
        return;
      }
      if !hasED {
        return;
      }
      opts := opts.(path := Some(clean));
      if opts.headerName.None? {
        opts := opts.(headerName := Some(DEFAULT_HEADER));
      }
      if opts.maxEarlyData.None? {
        var n := SafeInteger(ed);
        if n.Some? {
          opts := opts.(maxEarlyData := Some(Number(n.value)));
        }
      }
    }
  }

  /** Normalising twice is normalising once. */
  lemma NormalizedTwice(o: WsOpts)
    ensures Normalized(Normalized(o)) == Normalized(o)
  {
    hide Clean, Value, SafeInteger;
    ExtractFromClean(Producer, PathText(o), "ed");
  }

  // ---- writing the size back ----

  lemma {:induction false} SplitBytes(s: string, c: char)
    requires IsBytes(s)
    ensures forall p :: p in Split(s, c) ==> IsBytes(p)
    decreases |s|
  {
    if s != "" {
      SplitBytes(s[1..], c);
      var rest := Split(s[1..], c);
      assert rest[0] in rest && forall p :: p in rest[1..] ==> p in rest;
      assert IsBytes([s[0]] + rest[0]);
    }
  }

  lemma {:induction false} UnescapeBytes(s: string)
    requires IsBytes(s)
    ensures Unescape(s).Some? ==> IsBytes(Unescape(s).value)
    decreases |s|
  {
    if s != "" {
      if s[0] == '%' && |s| >= 3 {
        UnescapeBytes(s[3..]);
      } else {
        UnescapeBytes(s[1..]);
      }
    }
  }

  lemma {:induction false} FirstValueBytes(parts: seq<string>, name: string)
    requires forall p :: p in parts ==> IsBytes(p)
    ensures IsBytes(FirstValue(Producer, parts, name))
    decreases |parts|
  {
    hide Unescape;
    if parts != [] {
      assert parts[0] in parts && forall p :: p in parts[1..] ==> p in parts;
      FirstValueBytes(parts[1..], name);
      if IndexByte(parts[0], '=') != -1 {
        UnescapeBytes(RawValue(parts[0]));
      }
    }
  }

  /** A value read from a byte string is one. */
  lemma ValueBytes(path: string, name: string)
    requires IsBytes(path)
    ensures IsBytes(Value(Producer, path, name))
  {
    hide FirstValue;
    var q := IndexByte(path, '?');
    if q != -1 {
      SplitBytes(path[q + 1..], '&');
    }
    FirstValueBytes(Parts(path), name);
  }

  lemma {:induction false} JoinBytes(parts: seq<string>, sep: string)
    requires IsBytes(sep) && forall p :: p in parts ==> IsBytes(p)
    ensures IsBytes(Join(parts, sep))
    decreases |parts|
  {
    if |parts| > 0 {
      assert parts[0] in parts && forall p :: p in parts[1..] ==> p in parts;
      JoinBytes(parts[1..], sep);
    }
  }

  lemma {:induction false} KeptBytes(parts: seq<string>, name: string)
    requires forall p :: p in parts ==> IsBytes(p)
    ensures forall p :: p in Kept(Producer, parts, name) ==> IsBytes(p)
    decreases |parts|
  {
    hide Names;
    if parts != [] {
      assert parts[0] in parts && forall p :: p in parts[1..] ==> p in parts;
      KeptBytes(parts[1..], name);
    }
  }

  /** Cleaning a byte string gives one. */
  lemma CleanBytes(path: string, name: string)
    requires IsBytes(path)
    ensures IsBytes(Clean(Producer, path, name))
  {
    hide Kept, Join;
    var q := IndexByte(path, '?');
    if q != -1 {
      SplitBytes(path[q + 1..], '&');
    }
    KeptBytes(Parts(path), name);
    JoinBytes(Kept(Producer, Parts(path), name), "&");
  }

  function MaxText(m: Option<MaxData>): Bytes {
    match m
    case None => ""
    case Some(Text(t)) => t
    case Some(Number(n)) => if n < 0 then "-" + SizeText(0 - n) else SizeText(n)
  }

  function HeaderText(o: WsOpts): string {
    if o.headerName.None? then "" else o.headerName.value
  }

  /** setHttpUpgradeEarlyDataPath: the stored size, the one in the path, or 2560. */
  function SetUpgradePath(path: string, fastOpen: bool, stored: string): string
    requires IsBytes(path) && IsBytes(stored)
  {
    if !fastOpen then path
    else
      ValueBytes(path, "ed");
      var inPath := Value(Producer, path, "ed");
      Set(path, "ed", if SafeEarlyData(stored) != "" then stored else if inPath != "" then inPath else "2560")
  }

  /** The path a link is printed with, from freshly normalised options. */
  function Written(o: WsOpts): string
    requires IsBytes(PathText(o)) && (o.upgradeEd.Some? ==> IsBytes(o.upgradeEd.value))
  {
    if o.upgrade then SetUpgradePath(PathText(o), o.fastOpen, if o.upgradeEd.None? then "" else o.upgradeEd.value)
    else SetEarlyDataPath(PathText(o), MaxText(o.maxEarlyData), HeaderText(o))
  }

  /** Options as they come from a link: only the path says anything. */
  predicate FromLink(o: WsOpts) {
    o.headerName.None? && o.maxEarlyData.None? && o.upgradeEd.None? && IsBytes(PathText(o)) && EdOf(o) != ""
  }

  /** A path that was set reads back as the cleaned path and the value. */
  lemma SetReads(c: string, ed: Bytes)
    requires Clean(Producer, c, "ed") == c
    ensures var w := Set(c, "ed", ed);
            Value(Producer, w, "ed") == ed && Clean(Producer, w, "ed") == if c == "" then "/" else c
  {
    hide Clean, Value, Set;
    ExtractAfterSet(c, "ed", ed);
    CleanSlash();
  }

  lemma SafeIntegerOfNumeral(n: nat)
    requires n <= MAX_INT
    ensures SafeInteger(Itoa(n)) == Some(n) && SafeEarlyData(Itoa(n)) == Itoa(n)
  {
    DigitsAreTrimmed(Itoa(n));
    AtoiOfItoa(n);
  }

  lemma SafeIntegerIs(v: string)
    ensures SafeInteger(v).Some? <==> SafeEarlyData(v) != ""
    ensures SafeInteger(v).Some? ==> 0 <= SafeInteger(v).value <= MAX_INT
  {
    if v == "" {
      assert TrimSpace(v) == "";
    }
  }

  lemma HeaderRewrite(o: WsOpts)
    requires FromLink(o) && !o.upgrade && IsBytes(Cleaned(o)) && IsBytes(EdOf(o))
    ensures var m := Normalized(o);
            IsBytes(Cleaned(o)) && m.path == Some(Cleaned(o)) && m.upgradeEd.None?
            && (Normalized(o.(path := Some(Written(m)))) == m <==> Cleaned(o) != "" && SafeEarlyData(EdOf(o)) != "")
  {
    hide Clean, Value, Set, SafeInteger, SafeEarlyData;
    var ed, c, m := EdOf(o), Cleaned(o), Normalized(o);
    ExtractFromClean(Producer, PathText(o), "ed");
    SafeIntegerIs(ed);
    if SafeInteger(ed).Some? {
      var n: nat := SafeInteger(ed).value;
      SafeIntegerOfNumeral(n);
      SetReads(c, SizeText(n));
      assert Written(m) == Set(c, "ed", SizeText(n));
    } else {
      NothingSafe();
      assert Written(m) == c;
    }
  }

  /** Early data in the header: writing the normalised options and normalising the result
      gives the same options exactly when the size is a safe integer and something is left
      of the path without it. */
  lemma HeaderRewriteExactly(o: WsOpts)
    requires FromLink(o) && !o.upgrade
    ensures var m := Normalized(o);
            IsBytes(Cleaned(o)) && m.path == Some(Cleaned(o)) && m.upgradeEd.None?
            && (Normalized(o.(path := Some(Written(m)))) == m <==> Cleaned(o) != "" && SafeEarlyData(EdOf(o)) != "")
  {
    hide Written, Normalized, Clean, Value, SafeEarlyData;
    CleanBytes(PathText(o), "ed");
    ValueBytes(PathText(o), "ed");
    HeaderRewrite(o);
  }

  lemma NothingSafe()
    ensures SafeEarlyData("") == ""
  {
  }

  lemma DefaultSizeIsSafe()
    ensures SafeEarlyData("2560") == "2560"
  {
    hide SafeEarlyData;
    SafeIntegerOfNumeral(2560);
    Text2560();
  }

  lemma Text2560()
    ensures Itoa(2560) == "2560"
  {
    assert Itoa(2) == "2" && Itoa(25) == "25" && Itoa(256) == "256";
  }

  /** Fresh options of an HTTP upgrade, normalised. */
  function Upgraded(path: string, ed: string): WsOpts {
    WsOpts(Some(path), None, None, true, true, Some(ed))
  }

  lemma UpgradeNormalized(o: WsOpts)
    requires o.upgrade && o.upgradeEd.None? && EdOf(o) != ""
    ensures Normalized(o) == Upgraded(Cleaned(o), EdOf(o))
  {
  }

  /** What is written for an HTTP upgrade. */
  lemma UpgradeWritten(path: string, ed: string)
    requires IsBytes(path) && IsBytes(ed) && Value(Producer, path, "ed") == ""
    ensures Written(Upgraded(path, ed)) == Set(path, "ed", if SafeEarlyData(ed) != "" then ed else "2560")
  {
    hide Clean, Value, Set, SafeEarlyData;
  }

  lemma UpgradeRewrite(o: WsOpts)
    requires FromLink(o) && o.upgrade && IsBytes(Cleaned(o)) && IsBytes(EdOf(o))
    ensures var m := Normalized(o);
            IsBytes(EdOf(o)) && IsBytes(Cleaned(o)) && m.path == Some(Cleaned(o)) && m.upgradeEd == Some(EdOf(o))
            && (Normalized(o.(path := Some(Written(m)))) == m <==> Cleaned(o) != "" && SafeEarlyData(EdOf(o)) != "")
  {
    hide Clean, Value, Set, SafeEarlyData, Written, Normalized;
    var ed, c := EdOf(o), Cleaned(o);
    UpgradeNormalized(o);
    ExtractFromClean(Producer, PathText(o), "ed");
    UpgradeWritten(c, ed);
    DefaultSizeIsSafe();
    var size := if SafeEarlyData(ed) != "" then ed else "2560";
    SizeIsNotEmpty(ed);
    SetReads(c, size);
    var again := o.(path := Some(Set(c, "ed", size)));
    UpgradeNormalized(again);
    assert Normalized(again) == Upgraded(if c == "" then "/" else c, size);
  }

  /** Early data in an HTTP upgrade: the same condition; any other size turns into 2560. */
  lemma UpgradeRewriteExactly(o: WsOpts)
    requires FromLink(o) && o.upgrade
    ensures var m := Normalized(o);
            IsBytes(EdOf(o)) && IsBytes(Cleaned(o)) && m.path == Some(Cleaned(o)) && m.upgradeEd == Some(EdOf(o))
            && (Normalized(o.(path := Some(Written(m)))) == m <==> Cleaned(o) != "" && SafeEarlyData(EdOf(o)) != "")
  {
    hide Written, Normalized, Clean, Value, SafeEarlyData;
    CleanBytes(PathText(o), "ed");
    ValueBytes(PathText(o), "ed");
    UpgradeRewrite(o);
  }

  lemma SizeIsNotEmpty(v: string)
    ensures SafeEarlyData(v) != "" ==> v != ""
  {
  }

  // ---- what normalising takes out ----

  /** Options whose path was given the size `n`. */
  predicate HoldsSize(o: WsOpts, c: Bytes, n: nat) {
    n <= MAX_INT && c != "" && Clean(Producer, c, "ed") == c && o.path == Some(Set(c, "ed", Itoa(n)))
  }

  /** The size goes where it belongs, under the standard header name, and what the options
      already say about either is kept. */
  lemma SizeTakenOut(o: WsOpts, c: Bytes, n: nat)
    requires HoldsSize(o, c, n) && !o.upgrade
    ensures Normalized(o).path == Some(c)
    ensures Normalized(o).headerName == if o.headerName.Some? then o.headerName else Some("Sec-WebSocket-Protocol")
    ensures Normalized(o).maxEarlyData == if o.maxEarlyData.Some? then o.maxEarlyData else Some(Number(n))
    ensures Normalized(o).upgradeEd == o.upgradeEd && Normalized(o).fastOpen == o.fastOpen
  {
    hide Clean, Value, Set, SafeInteger, SafeEarlyData;
    SetReads(c, Itoa(n));
    SafeIntegerOfNumeral(n);
  }

  /** In an upgrade the size becomes the upgrade's own, unless it has one, and nothing about
      a header is left. */
  lemma UpgradeTakenOut(o: WsOpts, c: Bytes, n: nat)
    requires HoldsSize(o, c, n) && o.upgrade
    ensures Normalized(o).path == Some(c) && Normalized(o).fastOpen
    ensures Normalized(o).headerName.None? && Normalized(o).maxEarlyData.None?
    ensures Normalized(o).upgradeEd == if o.upgradeEd.Some? && o.upgradeEd.value != "" then o.upgradeEd else Some(Itoa(n))
  {
    hide Clean, Value, Set, SafeInteger, SafeEarlyData;
    SetReads(c, Itoa(n));
  }

  /** What an upgrade is written with: its own size when that is safe, or else the one its
      path already has. */
  lemma UpgradeSize(path: Bytes, stored: Bytes)
    ensures var size := Value(Producer, SetUpgradePath(path, true, stored), "ed");
            && (SafeEarlyData(stored) != "" ==> size == stored)
            && (SafeEarlyData(stored) == "" && Value(Producer, path, "ed") != "" ==> size == Value(Producer, path, "ed"))
            && (SafeEarlyData(stored) == "" && Value(Producer, path, "ed") == "" ==> size == "2560")
    ensures SetUpgradePath(path, false, stored) == path
  {
    hide Clean, Value, Set, SafeEarlyData;
    ValueBytes(path, "ed");
    var inPath := Value(Producer, path, "ed");
    ExtractAfterSet(path, "ed", if SafeEarlyData(stored) != "" then stored else if inPath != "" then inPath else "2560");
  }
}
