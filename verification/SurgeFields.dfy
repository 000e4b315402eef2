/** Cutting a Surge, Loon or QX line into its comma-separated fields. */
module SurgeFields {
  import opened GoStrings
  import opened SurgeHeaders

  /** Characters in front of the first '=' or ','. */
  function KeyLength(u: string): (n: nat)
    ensures n <= |u|
    ensures forall i :: 0 <= i < n ==> u[i] != '=' && u[i] != ','
    ensures n == |u| || u[n] == '=' || u[n] == ','
  {
    if u == "" || u[0] == '=' || u[0] == ',' then 0 else 1 + KeyLength(u[1..])
  }

  /** Characters up to and including the ']' that closes a bracket group, or the rest
      of the text; one more than the text has when a quote inside stays open. */
  function BracketLength(u: string): (n: nat)
    ensures n <= |u| + 1
  {
    if u == "" then 0
    else if u[0] == ']' then 1
    else if IsQuote(u[0]) then
      var k := IndexByte(u[1..], u[0]);
      if k == -1 then |u| + 1 else k + 2 + BracketLength(u[k + 2..])
    else 1 + BracketLength(u[1..])
  }

  /** Characters in front of the next comma outside quotes and bracket groups; one
      more than the text has when a quote inside a bracket group stays open. */
  function PlainLength(u: string): (n: nat)
    ensures n <= |u| + 1
    ensures n < |u| ==> u[n] == ','
  {
    if u == "" || u[0] == ',' then 0
    else if IsQuote(u[0]) then
      var k := IndexByte(u[1..], u[0]);
      if k == -1 then |u| else k + 2 + PlainLength(u[k + 2..])
    else if u[0] == '[' then
      var b := 1 + BracketLength(u[1..]);
      if b > |u| then b else b + PlainLength(u[b..])
    else 1 + PlainLength(u[1..])
  }

  function AlpnLength(u: string): (n: nat)
    ensures n <= |u|
  {
    if u != "" && IsQuote(u[0]) then
      var k := IndexByte(u[1..], u[0]);
      if k == -1 then |u| else k + 2
    else 0
  }

  /** The part of an option's value that the option's own reader takes. */
  function ValueLength(key: string, u: string): (n: nat)
    ensures n <= |u|
  {
    if key == "headers" then HeadersLength(u, ';')
    else if key == "ws-headers" then HeadersLength(u, '|')
    else if key == "alpn" then AlpnLength(u)
    else 0
  }

  function OptionKey(k: string): string {
    ToLower(TrimSpace(k))
  }

  /** What is left of `u` once the spaces, the key and the option's own reader have
      taken their parts: the plain scan for the comma starts here. */
  function PlainPart(u: string): (w: string)
    ensures |w| <= |u|
  {
    var v := SkipSpaces(u);
    var k := KeyLength(v);
    if k < |v| && v[k] == '=' then
      var y := SkipSpaces(v[k + 1..]);
      y[ValueLength(OptionKey(v[..k]), y)..]
    else v[k..]
  }

  /** Length of the first field of `u`; one more than |u| when the scan overruns. */
  function FieldLength(u: string): (n: nat)
    ensures n <= |u| + 1
  {
    |u| - |PlainPart(u)| + PlainLength(PlainPart(u))
  }

  predicate IsSuffix(w: string, u: string) {
    |w| <= |u| && w == u[|u| - |w|..]
  }

  lemma SuffixOfSuffix(u: string, v: string, k: nat)
    requires IsSuffix(v, u) && k <= |v|
    ensures IsSuffix(v[k..], u)
  {
  }

  lemma AfterSpacesIsSuffix(u: string, w: string, e: nat)
    requires IsSuffix(w, u) && e <= |SkipSpaces(w)|
    ensures IsSuffix(SkipSpaces(w)[e..], u)
  {
    SkipSpacesSuffix(w);
    SuffixOfSuffix(u, w, |w| - |SkipSpaces(w)|);
    SuffixOfSuffix(u, SkipSpaces(w), e);
  }

  lemma PlainPartIsSuffix(u: string)
    ensures IsSuffix(PlainPart(u), u)
  {
    hide SkipSpaces, KeyLength, ValueLength, OptionKey, IsSuffix;
    var v := SkipSpaces(u);
    var k := KeyLength(v);
    WholeIsSuffix(u);
    AfterSpacesIsSuffix(u, u, k);
    AfterSpacesIsSuffix(u, u, 0);
    if k < |v| && v[k] == '=' {
      assert v[0..] == v;
      SuffixOfSuffix(u, v, k + 1);
      AfterSpacesIsSuffix(u, v[k + 1..], ValueLength(OptionKey(v[..k]), SkipSpaces(v[k + 1..])));
    }
  }

  lemma WholeIsSuffix(u: string)
    ensures IsSuffix(u, u)
  {
  }

  /** A field that ends before the text does ends at a comma. */
  lemma FieldStopsAtComma(u: string)
    ensures FieldLength(u) < |u| ==> u[FieldLength(u)] == ','
  {
    hide PlainPart;
    PlainPartIsSuffix(u);
    var w := PlainPart(u);
    if FieldLength(u) < |u| {
      assert w[PlainLength(w)] == u[|u| - |w| + PlainLength(w)];
    }
  }

  /** The fields before trimming; None when a slice bound passes the end of the text,
      where the program panics. */
  function RawFields(u: string): (fs: Option<seq<string>>)
    ensures fs.Some? ==> (fs.value == [] <==> u == "")
    decreases |u|
  {
    if u == "" then Some([])
    else
      var n := FieldLength(u);
      if n > |u| then None
      else
        var rest := RawFields(if n < |u| then u[n + 1..] else "");
        if rest.None? then None else Some([u[..n]] + rest.value)
  }

  function TrimAll(fs: seq<string>): (ts: seq<string>)
    ensures |ts| == |fs| && forall i :: 0 <= i < |fs| ==> ts[i] == TrimSpace(fs[i])
  {
    seq(|fs|, i requires 0 <= i < |fs| => TrimSpace(fs[i]))
  }

  /** splitSurgeFields */
  function Fields(u: string): Option<seq<string>> {
    var raw := RawFields(u);
    if raw.None? then None else Some(TrimAll(raw.value))
  }

  /** The raw fields joined by single commas are the text, up to one trailing comma. */
  predicate Tiles(fs: seq<string>, u: string) {
    u == Join(fs, ",") || u == Join(fs, ",") + ","
  }

  lemma TileOneMore(u: string, n: nat, rest: seq<string>)
    requires n < |u| && u[n] == ',' && Tiles(rest, u[n + 1..]) && (rest == [] <==> u[n + 1..] == "")
    ensures Tiles([u[..n]] + rest, u)
  {
    JoinCons(u[..n], rest, ",");
    assert u == u[..n] + "," + u[n + 1..];
  }

  lemma {:induction false} FieldsTile(u: string)
    requires RawFields(u).Some?
    ensures Tiles(RawFields(u).value, u)
    decreases |u|
  {
    if u != "" {
      var n := FieldLength(u);
      if n < |u| {
        FieldStopsAtComma(u);
        FieldsTile(u[n + 1..]);
        TileOneMore(u, n, RawFields(u[n + 1..]).value);
      } else {
        assert RawFields("") == Some([]);
        assert u[..n] == u && [u] + [] == [u];
      }
    }
  }

  /** `w` holds no ']' outside quotes and closes every quote it opens: what a bracket
      group may hold before it ends. */
  predicate ClosesItsQuotes(w: string) {
    w == "" ||
    if w[0] == ']' then false
    else if IsQuote(w[0]) then
      var k := IndexByte(w[1..], w[0]);
      k != -1 && ClosesItsQuotes(w[k + 2..])
    else ClosesItsQuotes(w[1..])
  }

  /** The text after a '[' opens, at position `q` and still inside the group, a quote
      that never closes. */
  predicate LeavesQuoteOpen(u: string, q: nat) {
    q < |u| && IsQuote(u[q]) && u[q] !in u[q + 1..] && ClosesItsQuotes(u[..q])
  }

  /** A bracket group overruns the text exactly when a quote opened inside it stays open. */
  lemma {:induction false} BracketOverrun(u: string)
    ensures BracketLength(u) > |u| <==> exists q: nat :: LeavesQuoteOpen(u, q)
    decreases |u|
  {
    if u == "" {
    } else if u[0] == ']' {
      forall q: nat ensures !LeavesQuoteOpen(u, q) {
        ClosedGroupIsOver(u, q);
      }
    } else if IsQuote(u[0]) {
      var k := IndexByte(u[1..], u[0]);
      IndexByteIsFirst(u[1..], u[0]);
      if k == -1 {
        assert u[..0] == "" && u[0 + 1..] == u[1..];
        assert LeavesQuoteOpen(u, 0);
      } else {
        BracketOverrun(u[k + 2..]);
        forall q: nat { OpenQuoteShifts(u, k, q); }
        OpenQuotesShift(u, k + 2);
      }
    } else {
      BracketOverrun(u[1..]);
      forall q: nat { OpenQuoteShiftsByOne(u, q); }
      OpenQuotesShift(u, 1);
    }
  }

  lemma OpenQuotesShift(u: string, d: nat)
    requires d <= |u|
    requires forall q: nat :: LeavesQuoteOpen(u, q) <==> q >= d && LeavesQuoteOpen(u[d..], q - d)
    ensures (exists q: nat :: LeavesQuoteOpen(u, q)) <==> exists q: nat :: LeavesQuoteOpen(u[d..], q)
  {
    if q: nat :| LeavesQuoteOpen(u, q) {
      assert LeavesQuoteOpen(u[d..], q - d);
    }
    forall q: nat | LeavesQuoteOpen(u[d..], q)
      ensures LeavesQuoteOpen(u, q + d)
    {
      var p := q + d;
      assert q == p - d;
    }
  }

  lemma ClosedGroupIsOver(u: string, q: nat)
    requires u != "" && u[0] == ']'
    ensures !LeavesQuoteOpen(u, q)
  {
    if 0 < q < |u| { assert u[..q][0] == ']'; }
  }

  lemma OpenQuoteShiftsByOne(u: string, q: nat)
    requires u != "" && u[0] != ']' && !IsQuote(u[0])
    ensures LeavesQuoteOpen(u, q) <==> q >= 1 && LeavesQuoteOpen(u[1..], q - 1)
  {
    if 1 <= q < |u| {
      assert u[..q][1..] == u[1..][..q - 1];
      assert u[1..][q..] == u[q + 1..];
    }
  }

  lemma OpenQuoteShifts(u: string, k: nat, q: nat)
    requires u != "" && IsQuote(u[0]) && k == IndexByte(u[1..], u[0])
    ensures LeavesQuoteOpen(u, q) <==> q >= k + 2 && LeavesQuoteOpen(u[k + 2..], q - (k + 2))
  {
    IndexByteIsFirst(u[1..], u[0]);
    assert u[1..][k] == u[0];
    if q == 0 {
      assert u[1..][k] in u[1..];
    } else if q < |u| {
      var w := u[..q];
      IndexByteIsFirst(w[1..], w[0]);
      assert w[1..] == u[1..][..q - 1];
      if q < k + 2 {
        assert forall i :: 0 <= i < q - 1 ==> w[1..][i] == u[1..][..k][i];
      } else {
        assert w[1..][..k] == u[1..][..k];
        IndexByteUnique(w[1..], w[0], k);
        assert w[k + 2..] == u[k + 2..][..q - (k + 2)];
        assert u[k + 2..][q - (k + 2) + 1..] == u[q + 1..];
      }
    }
  }

  /** The scan for the comma enters a bracket group in which a quote stays open. */
  ghost predicate MeetsOpenQuote(u: string) {
    u != "" && u[0] != ',' &&
    if IsQuote(u[0]) then
      var k := IndexByte(u[1..], u[0]);
      k != -1 && MeetsOpenQuote(u[k + 2..])
    else if u[0] == '[' then
      || (exists q: nat :: LeavesQuoteOpen(u[1..], q))
      || (BracketLength(u[1..]) < |u| && MeetsOpenQuote(u[1 + BracketLength(u[1..])..]))
    else MeetsOpenQuote(u[1..])
  }

  lemma {:induction false} PlainOverrun(u: string)
    ensures PlainLength(u) > |u| <==> MeetsOpenQuote(u)
    decreases |u|
  {
    if u == "" || u[0] == ',' {
    } else if IsQuote(u[0]) {
      var k := IndexByte(u[1..], u[0]);
      if k != -1 {
        PlainOverrun(u[k + 2..]);
      }
    } else if u[0] == '[' {
      BracketOverrun(u[1..]);
      if BracketLength(u[1..]) < |u| {
        PlainOverrun(u[1 + BracketLength(u[1..])..]);
      }
    } else {
      PlainOverrun(u[1..]);
    }
  }

  /** One of the line's fields meets such a group. */
  ghost predicate LineMeetsOpenQuote(u: string)
    decreases |u|
  {
    u != "" &&
    (MeetsOpenQuote(PlainPart(u)) || (FieldLength(u) < |u| && LineMeetsOpenQuote(u[FieldLength(u) + 1..])))
  }

  /** The splitter panics exactly on the lines where a quote opened inside a bracket
      group is never closed. */
  lemma {:induction false} PanicsExactly(u: string)
    ensures Fields(u) == None <==> LineMeetsOpenQuote(u)
    ensures RawFields(u) == None <==> LineMeetsOpenQuote(u)
    decreases |u|
  {
    hide PlainPart, PlainLength, MeetsOpenQuote;
    if u != "" {
      var n := FieldLength(u);
      PlainOverrun(PlainPart(u));
      if n < |u| {
        PanicsExactly(u[n + 1..]);
        assert RawFields(u) == None <==> RawFields(u[n + 1..]) == None;
      } else if n == |u| {
        assert RawFields("") == Some([]);
      }
    }
  }

  /** No quote character, or no '['. */
  predicate HarmlessLine(u: string) {
    '[' !in u || forall i :: 0 <= i < |u| ==> !IsQuote(u[i])
  }

  lemma HarmlessSuffix(u: string, k: nat)
    requires HarmlessLine(u) && k <= |u|
    ensures HarmlessLine(u[k..])
  {
    assert forall c :: c in u[k..] ==> c in u;
  }

  lemma {:induction false} HarmlessScan(u: string)
    requires HarmlessLine(u)
    ensures !MeetsOpenQuote(u)
    decreases |u|
  {
    hide HarmlessLine, BracketLength;
    if u != "" && u[0] != ',' {
      if IsQuote(u[0]) {
        var k := IndexByte(u[1..], u[0]);
        if k != -1 {
          HarmlessSuffix(u, k + 2);
          HarmlessScan(u[k + 2..]);
        }
      } else if u[0] == '[' {
        GroupHasNoQuote(u);
        if BracketLength(u[1..]) < |u| {
          HarmlessSuffix(u, 1 + BracketLength(u[1..]));
          HarmlessScan(u[1 + BracketLength(u[1..])..]);
        }
      } else {
        HarmlessSuffix(u, 1);
        HarmlessScan(u[1..]);
      }
    }
  }

  lemma GroupHasNoQuote(u: string)
    requires HarmlessLine(u) && u != "" && u[0] == '['
    ensures forall q: nat :: !LeavesQuoteOpen(u[1..], q)
  {
    assert u[0] in u;
    forall q: nat
      ensures !LeavesQuoteOpen(u[1..], q)
    {
      assert q < |u[1..]| ==> u[1..][q] == u[q + 1];
    }
  }

  /** A line that lacks quotes or lacks '[' never makes the splitter panic. */
  lemma HarmlessLineSplits(u: string)
    requires HarmlessLine(u)
    ensures Fields(u).Some?
  {
    hide HarmlessLine, LineMeetsOpenQuote;
    HarmlessLineClear(u);
    PanicsExactly(u);
  }

  lemma {:induction false} HarmlessLineClear(u: string)
    requires HarmlessLine(u)
    ensures !LineMeetsOpenQuote(u)
    decreases |u|
  {
    hide HarmlessLine, MeetsOpenQuote, PlainPart, PlainLength;
    if u != "" {
      PlainPartIsSuffix(u);
      var w := PlainPart(u);
      HarmlessSuffix(u, |u| - |w|);
      HarmlessScan(w);
      if FieldLength(u) < |u| {
        HarmlessSuffix(u, FieldLength(u) + 1);
        HarmlessLineClear(u[FieldLength(u) + 1..]);
      }
    }
  }

  lemma OpenGroupScan()
    ensures PlainLength("[\"") == 3
  {
    var y := "[\"";
    assert y[1..] == "\"" && "\""[1..] == "";
    assert BracketLength("\"") == 2;
  }

  lemma KeyOfExample()
    ensures OptionKey("a") != "headers" && OptionKey("a") != "ws-headers" && OptionKey("a") != "alpn"
  {
    TrimKeepsEdges("a");
    assert |OptionKey("a")| == 1;
  }

  /** An example: the quote opened after '[' never closes. */
  lemma PanicExample()
    ensures Fields("a=[\"") == None
  {
    var u, y := "a=[\"", "[\"";
    assert u[1..] == "=[\"" && u[2..] == y && u[..1] == "a" && y[0..] == y;
    assert KeyLength(u[1..]) == 0 && KeyLength(u) == 1;
    assert SkipSpaces(u) == u && SkipSpaces(y) == y;
    KeyOfExample();
    OpenGroupScan();
    hide PlainLength, OptionKey, KeyLength, SkipSpaces, TrimSpace;
    assert PlainPart(u) == y;
    assert FieldLength(u) == 5;
  }

  /** The rule for alpn values changes nothing: the scan for the comma walks over a quoted
      text by itself, closed or not. */
  lemma AlpnRuleIsPlain(u: string)
    ensures AlpnLength(u) + PlainLength(u[AlpnLength(u)..]) == PlainLength(u)
  {
    if u != "" {
      assert u[|u|..] == "" && u[0..] == u;
    }
  }
}
