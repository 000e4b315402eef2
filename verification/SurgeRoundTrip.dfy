/** Reading a printed header map gives the map back. */
module SurgeRoundTrip {
  import opened GoStrings
  import opened SurgeHeaders
  import opened SurgeFields
  import opened SurgePrinter

  predicate IsNameChar(c: char) { IsAlnum(c) || c == '-' }

  /** Header names made of letters, digits and hyphens. */
  predicate PlainName(k: string) {
    k != "" && forall i :: 0 <= i < |k| ==> IsNameChar(k[i])
  }

  predicate QuoteFree(v: string) {
    forall i :: 0 <= i < |v| ==> !IsQuote(v[i])
  }

  /** A value the quoted scan can carry. */
  predicate CarriedValue(v: string) {
    Trimmed(v) && QuoteFree(v) && !StartsWith(v, ',')
  }

  /** name:"value" */
  function Part(k: string, v: string): string { k + ":\"" + v + "\"" }

  lemma {:induction false} SkipNameChars(k: string, x: string)
    requires forall i :: 0 <= i < |k| ==> IsNameChar(k[i])
    requires x != "" && x[0] == ':'
    ensures SkipHeaderKey(k + x) == x
    decreases |k|
  {
    if k != "" {
      assert (k + x)[1..] == k[1..] + x;
      SkipNameChars(k[1..], x);
    } else {
      assert k + x == x;
    }
  }

  /** A printed part starts like a header key. */
  lemma PartStartsKey(k: string, x: string)
    requires PlainName(k) && x != "" && x[0] == ':'
    ensures HeaderKeyStart(k + x)
  {
    SkipNameChars(k, x);
    assert SkipSpaces(k + x) == k + x;
  }

  // ---- the scan for the end of the quoted headers value ----

  lemma {:induction false} QuotedOverName(k: string, x: string, sep: char)
    requires IsPairSeparator(sep) && forall i :: 0 <= i < |k| ==> IsNameChar(k[i])
    ensures QuotedLength(k + x, sep, '"', START) == |k| + QuotedLength(x, sep, '"', START)
    decreases |k|
  {
    if k != "" {
      assert (k + x)[1..] == k[1..] + x;
      QuotedOverName(k[1..], x, sep);
    } else {
      assert k + x == x;
    }
  }

  const INVALUE := Scan('"', 2, true)
  const AFTERVALUE := Scan(NONE, 0, true)

  lemma {:induction false} QuotedOverValue(v: string, x: string, sep: char)
    requires IsPairSeparator(sep) && QuoteFree(v)
    ensures QuotedLength(v + x, sep, '"', INVALUE) == |v| + QuotedLength(x, sep, '"', INVALUE)
    decreases |v|
  {
    if v != "" {
      assert (v + x)[1..] == v[1..] + x;
      QuotedOverValue(v[1..], x, sep);
    } else {
      assert v + x == x;
    }
  }

  lemma FirstIsNoSpace(v: string)
    requires Trimmed(v) && v != ""
    ensures !IsSurgeSpace(v[0])
  {
    TrimmedHasNoEdges(v);
    if IsSurgeSpace(v[0]) {
      TrimLeftShrinks(v[1..]);
      assert false;
    }
  }

  /** The opening quote of a value is not taken for the end of the field. */
  lemma ValueDoesNotEndField(v: string, x: string)
    requires CarriedValue(v)
    ensures !FieldEndsHere(v + ("\"" + x))
  {
    var z := v + ("\"" + x);
    if v != "" {
      FirstIsNoSpace(v);
    }
    assert SkipSpaces(z) == z;
  }

  lemma QuotedColon(x: string, sep: char)
    requires IsPairSeparator(sep)
    ensures QuotedLength(":" + x, sep, '"', START) == 1 + QuotedLength(x, sep, '"', AFTERVALUE)
  {
    assert (":" + x)[1..] == x;
  }

  lemma QuotedOpen(x: string, sep: char)
    requires IsPairSeparator(sep) && !FieldEndsHere(x)
    ensures QuotedLength("\"" + x, sep, '"', AFTERVALUE) == 1 + QuotedLength(x, sep, '"', INVALUE)
  {
    assert ("\"" + x)[1..] == x;
  }

  lemma QuotedClose(w: string, sep: char)
    requires IsPairSeparator(sep) && ValueQuoteEnd(w, sep, false, '"')
    ensures QuotedLength("\"" + w, sep, '"', INVALUE) == 1 + QuotedLength(w, sep, '"', AFTERVALUE)
  {
    assert ("\"" + w)[1..] == w;
  }

  lemma QuotedSeparator(x: string, sep: char)
    requires IsPairSeparator(sep) && HeaderKeyStart(x)
    ensures QuotedLength([sep] + x, sep, '"', AFTERVALUE) == 1 + QuotedLength(x, sep, '"', START)
  {
    var u := [sep] + x;
    assert u[0] == sep && u[1..] == x;
    assert Advance(u, sep, false, '"', AFTERVALUE) == START;
  }

  lemma PartThen(k: string, v: string, w: string)
    ensures Part(k, v) + w == k + (":" + ("\"" + (v + ("\"" + w))))
  {
  }

  /** One printed part, followed by a separator and a key or by the outer quote. */
  lemma QuotedOverPart(k: string, v: string, w: string, sep: char)
    requires IsPairSeparator(sep) && PlainName(k) && CarriedValue(v)
    requires ValueQuoteEnd(w, sep, false, '"')
    ensures QuotedLength(Part(k, v) + w, sep, '"', START) == |Part(k, v)| + QuotedLength(w, sep, '"', AFTERVALUE)
  {
    var x4 := "\"" + w;
    var x3 := v + x4;
    var x2 := "\"" + x3;
    PartThen(k, v, w);
    QuotedOverName(k, ":" + x2, sep);
    QuotedColon(x2, sep);
    ValueDoesNotEndField(v, w);
    QuotedOpen(x3, sep);
    QuotedOverValue(v, x4, sep);
    QuotedClose(w, sep);
  }

  /** The outer quote, at the end of the text or before a comma. */
  lemma OuterQuoteEnds(tail: string, sep: char)
    requires IsPairSeparator(sep) && (tail == "" || tail[0] == ',')
    ensures ValueQuoteEnd("\"" + tail, sep, false, '"')
    ensures QuotedLength("\"" + tail, sep, '"', AFTERVALUE) == 1
  {
    var w := "\"" + tail;
    assert w[1..] == tail && SkipSpaces(tail) == tail && SkipSpaces(w) == w;
  }

  /** A separator in front of the next part. */
  lemma SeparatorEnds(x: string, sep: char)
    requires IsPairSeparator(sep) && HeaderKeyStart(x)
    ensures ValueQuoteEnd([sep] + x, sep, false, '"') && ValueQuoteEnd([sep] + x, sep, false, NONE)
  {
    var w := [sep] + x;
    assert w[1..] == x && SkipSpaces(w) == w;
  }

  /** Maps of plain names and trimmed values without quote characters. */
  predicate PlainMap(headers: map<string, string>) {
    forall k :: k in headers ==> PlainName(k) && Trimmed(headers[k]) && QuoteFree(headers[k])
  }

  /** Plain maps none of whose values starts with ','. */
  predicate CarriedMap(headers: map<string, string>) {
    forall k :: k in headers ==> PlainName(k) && CarriedValue(headers[k])
  }

  function Parts(headers: map<string, string>, order: seq<string>): (ps: seq<string>)
    requires forall k :: k in order ==> k in headers
    ensures |ps| == |order|
  {
    if order == [] then [] else [Part(order[0], headers[order[0]])] + Parts(headers, order[1..])
  }

  lemma StripKeepsPlain(v: string)
    requires Trimmed(v) && QuoteFree(v)
    ensures StripSurgeQuotes(v) == v
  {
  }

  /** What the printer writes for such a map. */
  lemma {:induction false} PrintedParts(headers: map<string, string>, order: seq<string>)
    requires PlainMap(headers) && forall k :: k in order ==> k in headers
    ensures HeaderParts(headers, order) == Parts(headers, order)
    decreases |order|
  {
    if order != [] {
      var k := order[0];
      assert k in headers;
      TrimKeepsEdges(k);
      StripKeepsPlain(headers[k]);
      hide TrimSpace, StripSurgeQuotes;
      PrintedParts(headers, order[1..]);
      assert k + ":" + QuoteSurgeValue(headers[k]) == Part(k, headers[k]);
    }
  }

  function Body(headers: map<string, string>, order: seq<string>, sep: char): string
    requires forall k :: k in order ==> k in headers
  {
    Join(Parts(headers, order), [sep])
  }

  lemma BodyCons(headers: map<string, string>, order: seq<string>, sep: char)
    requires order != [] && forall k :: k in order ==> k in headers
    ensures Body(headers, order, sep) ==
            Part(order[0], headers[order[0]]) + if |order| == 1 then "" else [sep] + Body(headers, order[1..], sep)
  {
    JoinCons(Part(order[0], headers[order[0]]), Parts(headers, order[1..]), [sep]);
  }

  /** The body starts like a header key. */
  lemma BodyStartsKey(headers: map<string, string>, order: seq<string>, sep: char, x: string)
    requires PlainMap(headers) && order != [] && forall k :: k in order ==> k in headers
    ensures HeaderKeyStart(Body(headers, order, sep) + x)
  {
    var k, v := order[0], headers[order[0]];
    assert k in headers;
    BodyCons(headers, order, sep);
    var more := if |order| == 1 then "" else [sep] + Body(headers, order[1..], sep);
    KeyInFront(k, v, more, x);
    PartStartsKey(k, ":" + ("\"" + v + "\"" + more + x));
  }

  lemma KeyInFront(k: string, v: string, more: string, x: string)
    ensures (Part(k, v) + more) + x == k + (":" + ("\"" + v + "\"" + more + x))
  {
  }

  /** The scan stops right after the outer quote. */
  lemma {:induction false} QuotedOverBody(headers: map<string, string>, order: seq<string>, sep: char, tail: string)
    requires IsPairSeparator(sep) && CarriedMap(headers)
    requires order != [] && forall k :: k in order ==> k in headers
    requires tail == "" || tail[0] == ','
    ensures var b := Body(headers, order, sep);
            QuotedLength(b + ("\"" + tail), sep, '"', START) == |b| + 1
    decreases |order|
  {
    var k, v := order[0], headers[order[0]];
    assert k in headers;
    var b := Body(headers, order, sep);
    var end := "\"" + tail;
    BodyCons(headers, order, sep);
    if |order| == 1 {
      assert b == Part(k, v);
      OuterQuoteEnds(tail, sep);
      QuotedOverPart(k, v, end, sep);
    } else {
      var b' := Body(headers, order[1..], sep);
      Assoc(Part(k, v), [sep] + b', end);
      Assoc([sep], b', end);
      BodyStartsKey(headers, order[1..], sep, end);
      SeparatorEnds(b' + end, sep);
      QuotedOverPart(k, v, [sep] + (b' + end), sep);
      QuotedSeparator(b' + end, sep);
      QuotedOverBody(headers, order[1..], sep, tail);
    }
  }

  // ---- the scan that cuts the value into pairs ----

  lemma PrependTwice(a: string, b: string, ps: seq<string>)
    requires ps != []
    ensures Prepend(a, Prepend(b, ps)) == Prepend(a + b, ps)
  {
    assert a + (b + ps[0]) == a + b + ps[0];
  }

  lemma PrependNothing(ps: seq<string>)
    requires ps != []
    ensures Prepend("", ps) == ps
  {
    assert "" + ps[0] == ps[0];
  }

  lemma PrependBlank(x: string, rest: seq<string>)
    ensures Prepend(x, [""] + rest) == [x] + rest
  {
    assert x + "" == x;
  }

  lemma {:induction false} SplitOverName(k: string, x: string, sep: char)
    requires IsPairSeparator(sep) && forall i :: 0 <= i < |k| ==> IsNameChar(k[i])
    ensures SplitPairs(k + x, sep, START) == Prepend(k, SplitPairs(x, sep, START))
    decreases |k|
  {
    if k != "" {
      assert (k + x)[1..] == k[1..] + x;
      SplitOverName(k[1..], x, sep);
      PrependTwice([k[0]], k[1..], SplitPairs(x, sep, START));
      assert [k[0]] + k[1..] == k;
    } else {
      assert k + x == x;
      PrependNothing(SplitPairs(x, sep, START));
    }
  }

  lemma {:induction false} SplitOverValue(v: string, x: string, sep: char)
    requires IsPairSeparator(sep) && QuoteFree(v)
    ensures SplitPairs(v + x, sep, INVALUE) == Prepend(v, SplitPairs(x, sep, INVALUE))
    decreases |v|
  {
    if v != "" {
      assert (v + x)[1..] == v[1..] + x;
      SplitOverValue(v[1..], x, sep);
      PrependTwice([v[0]], v[1..], SplitPairs(x, sep, INVALUE));
      assert [v[0]] + v[1..] == v;
    } else {
      assert v + x == x;
      PrependNothing(SplitPairs(x, sep, INVALUE));
    }
  }

  lemma SplitColon(x: string, sep: char)
    requires IsPairSeparator(sep)
    ensures SplitPairs(":" + x, sep, START) == Prepend(":", SplitPairs(x, sep, AFTERVALUE))
  {
    assert (":" + x)[1..] == x;
  }

  lemma SplitOpen(x: string, sep: char)
    requires IsPairSeparator(sep)
    ensures SplitPairs("\"" + x, sep, AFTERVALUE) == Prepend("\"", SplitPairs(x, sep, INVALUE))
  {
    assert ("\"" + x)[1..] == x;
  }

  lemma SplitClose(w: string, sep: char)
    requires IsPairSeparator(sep) && ValueQuoteEnd(w, sep, false, NONE)
    ensures SplitPairs("\"" + w, sep, INVALUE) == Prepend("\"", SplitPairs(w, sep, AFTERVALUE))
  {
    assert ("\"" + w)[1..] == w;
  }

  lemma SplitSeparator(x: string, sep: char)
    requires IsPairSeparator(sep) && HeaderKeyStart(x)
    ensures SplitPairs([sep] + x, sep, AFTERVALUE) == [""] + SplitPairs(x, sep, START)
  {
    var u := [sep] + x;
    assert u[0] == sep && u[1..] == x;
    assert Advance(u, sep, false, NONE, AFTERVALUE) == START;
  }

  lemma SplitOverPart(k: string, v: string, w: string, sep: char)
    requires IsPairSeparator(sep) && PlainName(k) && QuoteFree(v)
    requires ValueQuoteEnd(w, sep, false, NONE)
    ensures SplitPairs(Part(k, v) + w, sep, START) == Prepend(Part(k, v), SplitPairs(w, sep, AFTERVALUE))
  {
    var x3 := v + ("\"" + w);
    var x2 := "\"" + x3;
    var ps := SplitPairs(w, sep, AFTERVALUE);
    PartThen(k, v, w);
    SplitOverName(k, ":" + x2, sep);
    SplitColon(x2, sep);
    SplitOpen(x3, sep);
    SplitOverValue(v, "\"" + w, sep);
    SplitClose(w, sep);
    PrependTwice(v, "\"", ps);
    PrependTwice("\"", v + "\"", ps);
    PrependTwice(":", "\"" + (v + "\""), ps);
    PrependTwice(k, ":" + ("\"" + (v + "\"")), ps);
    assert k + (":" + ("\"" + (v + "\""))) == Part(k, v);
  }

  /** The pairs come out as they were printed. */
  lemma {:induction false} SplitBody(headers: map<string, string>, order: seq<string>, sep: char)
    requires IsPairSeparator(sep) && PlainMap(headers)
    requires order != [] && forall k :: k in order ==> k in headers
    ensures SplitPairs(Body(headers, order, sep), sep, START) == Parts(headers, order)
    decreases |order|
  {
    var k, v := order[0], headers[order[0]];
    assert k in headers;
    BodyCons(headers, order, sep);
    if |order| == 1 {
      assert Body(headers, order, sep) == Part(k, v) + "";
      SplitOverPart(k, v, "", sep);
      assert SplitPairs("", sep, AFTERVALUE) == [""] + [];
      PrependBlank(Part(k, v), []);
    } else {
      var x := Body(headers, order[1..], sep);
      BodyStartsKey(headers, order[1..], sep, "");
      assert x + "" == x;
      SeparatorEnds(x, sep);
      SplitOverPart(k, v, [sep] + x, sep);
      SplitSeparator(x, sep);
      PrependBlank(Part(k, v), SplitPairs(x, sep, START));
      assert Body(headers, order, sep) == Part(k, v) + ([sep] + x);
      SplitBody(headers, order[1..], sep);
    }
  }

  // ---- entering the pairs ----

  lemma {:induction false} SeparatorAfterName(k: string, x: string)
    requires forall i :: 0 <= i < |k| ==> IsNameChar(k[i])
    ensures SeparatorIndex(k + (":" + x), NONE) == |k|
    decreases |k|
  {
    if k != "" {
      assert (k + (":" + x))[1..] == k[1..] + (":" + x);
      SeparatorAfterName(k[1..], x);
    } else {
      assert k + (":" + x) == ":" + x;
    }
  }

  lemma NameIsPlain(k: string)
    requires PlainName(k)
    ensures Trimmed(k) && TrimQuotes(k) == k
  {
    TrimKeepsEdges(k);
  }

  lemma QuotedIsTrimmed(v: string)
    ensures Trimmed("\"" + v + "\"") && TrimQuotes("\"" + v + "\"") == v
  {
    TrimKeepsEdges("\"" + v + "\"");
  }

  lemma EnterSplit(p: string, k: string, x: string, v: string, m: map<string, string>)
    requires SeparatorIndex(p, NONE) == |k| && p[..|k|] == k && p[|k| + 1..] == x && k != ""
    requires Trimmed(k) && TrimQuotes(k) == k && Trimmed(x) && TrimQuotes(x) == v
    ensures EnterPair(p, m) == m[k := v]
  {
  }

  lemma EnterPart(k: string, v: string, m: map<string, string>)
    requires PlainName(k)
    ensures EnterPair(Part(k, v), m) == m[k := v]
  {
    var x := "\"" + v + "\"";
    var p := k + (":" + x);
    assert Part(k, v) == p;
    SeparatorAfterName(k, x);
    NameIsPlain(k);
    QuotedIsTrimmed(v);
    EnterSplit(p, k, x, v, m);
  }

  lemma {:induction false} EnterParts(headers: map<string, string>, order: seq<string>, m: map<string, string>)
    requires PlainMap(headers) && forall k :: k in order ==> k in headers
    ensures var r := EnterPairs(Parts(headers, order), m);
            && (forall j :: j in r <==> j in m || j in order)
            && (forall j :: j in order ==> r[j] == headers[j])
            && (forall j :: j in m && j !in order ==> r[j] == m[j])
    decreases |order|
  {
    if order != [] {
      var k := order[0];
      assert k in headers;
      var ps := Parts(headers, order[1..]);
      assert ([Part(k, headers[k])] + ps)[1..] == ps;
      EnterPart(k, headers[k], m);
      EnterParts(headers, order[1..], m[k := headers[k]]);
      assert forall j :: j in order <==> j == k || j in order[1..];
    }
  }

  // ---- the whole field ----

  /** The option key of each kind of header field. */
  function HeaderKey(sep: char): string {
    if sep == ';' then "headers" else "ws-headers"
  }

  /** `key="body"` as appended to a line. */
  function PrintedField(headers: map<string, string>, order: seq<string>, sep: char): string
    requires forall k :: k in order ==> k in headers
  {
    HeaderKey(sep) + "=" + QuoteSurgeValue(FormatSurgeHeaderMap(headers, order, sep))
  }

  /** An option's value before it reaches the header reader. */
  function OptionValue(field: string): string {
    var f := TrimSpace(field);
    var k := IndexByte(f, '=');
    if k == -1 then "" else TrimQuotes(TrimSpace(f[k + 1..]))
  }

  /** The fields of a text whose first field is `field`, with `tail` after it. */
  function FieldThen(field: string, tail: string): Option<seq<string>>
    requires tail == "" || tail[0] == ','
  {
    var rest := Fields(if tail == "" then "" else tail[1..]);
    if rest.None? then None else Some([field] + rest.value)
  }

  lemma {:induction false} BodyEdges(headers: map<string, string>, order: seq<string>, sep: char)
    requires PlainMap(headers) && order != [] && forall k :: k in order ==> k in headers
    ensures var b := Body(headers, order, sep);
            b != "" && IsNameChar(b[0]) && b[|b| - 1] == '"'
    decreases |order|
  {
    var k := order[0];
    assert k in headers;
    BodyCons(headers, order, sep);
    assert IsNameChar(k[0]) && Part(k, headers[k])[0] == k[0];
    if |order| > 1 {
      BodyEdges(headers, order[1..], sep);
    }
  }

  lemma EdgesKeep(b: string)
    requires b != "" && IsNameChar(b[0]) && b[|b| - 1] == '"'
    ensures Trimmed(b) && StripSurgeQuotes(b) == b
  {
    TrimKeepsEdges(b);
  }

  /** What `headers=` prints. */
  lemma PrintedFieldIs(headers: map<string, string>, order: seq<string>, sep: char)
    requires PlainMap(headers) && order != [] && forall k :: k in order ==> k in headers
    ensures PrintedField(headers, order, sep) == HeaderKey(sep) + "=" + ("\"" + Body(headers, order, sep) + "\"")
  {
    PrintedParts(headers, order);
    BodyEdges(headers, order, sep);
    EdgesKeep(Body(headers, order, sep));
  }

  /** After `"name:"` a quoted header key would end. */
  lemma QuotedKeyOf(k: string, t: string, z: string)
    requires PlainName(k) && t == "\"" + k + ":\"" + z
    ensures AfterQuotedKey(t) == Some(z)
  {
    var w := k + ":\"" + z;
    assert t[1..] == w;
    assert w[..|k| + 1] == k + ":" && w[|k| + 1] == '"';
    IndexByteUnique(w, '"', |k| + 1);
    assert t[|k| + 3..] == z;
  }

  lemma PartShape(k: string, v: string, more: string, r: string)
    ensures "\"" + (Part(k, v) + more) + ['"'] + r == "\"" + k + ":\"" + (v + ("\"" + more + "\"" + r))
  {
  }

  /** The value's opening quote is not mistaken for a quoted header name. */
  lemma NoQuotedKey(k: string, v: string, more: string, b: string, tail: string)
    requires PlainName(k) && Trimmed(v) && (v == "" || v[0] != ':') && b == Part(k, v) + more
    ensures !StartsWithQuotedKey("\"" + (b + ("\"" + tail)))
  {
    var u := "\"" + (b + ("\"" + tail));
    assert u == ("\"" + b) + ['"'] + tail;
    TrimLeftKeeps(u);
    TrimRightStops("\"" + b, '"', tail);
    var z := v + ("\"" + more + "\"" + TrimRight(tail));
    var t := "\"" + b + ['"'] + TrimRight(tail);
    assert TrimSpace(u) == t;
    PartShape(k, v, more, TrimRight(tail));
    QuotedKeyOf(k, t, z);
    if v != "" {
      FirstIsNoSpace(v);
    }
    assert SkipSpaces(z) == z;
  }

  lemma QuotedValueLength(u: string, x: string, sep: char)
    requires IsPairSeparator(sep) && u == "\"" + x && !StartsWithQuotedKey(u)
    ensures HeadersLength(u, sep) == 1 + QuotedLength(x, sep, '"', START)
  {
    assert SkipSpaces(u) == u && u[1..] == x;
  }

  lemma BodyStartsWithPart(headers: map<string, string>, order: seq<string>, sep: char) returns (more: string)
    requires order != [] && forall k :: k in order ==> k in headers
    ensures Body(headers, order, sep) == Part(order[0], headers[order[0]]) + more
  {
    BodyCons(headers, order, sep);
    more := if |order| == 1 then "" else [sep] + Body(headers, order[1..], sep);
  }

  /** Length of the printed value, quotes included. */
  lemma PrintedValueLength(headers: map<string, string>, order: seq<string>, sep: char, tail: string)
    requires IsPairSeparator(sep) && CarriedMap(headers)
    requires order != [] && (forall k :: k in order ==> k in headers) && !StartsWith(headers[order[0]], ':')
    requires tail == "" || tail[0] == ','
    ensures HeadersLength("\"" + (Body(headers, order, sep) + ("\"" + tail)), sep) == |Body(headers, order, sep)| + 2
  {
    var k := order[0];
    assert k in headers;
    var b := Body(headers, order, sep);
    QuotedOverBody(headers, order, sep, tail);
    var more := BodyStartsWithPart(headers, order, sep);
    NoQuotedKey(k, headers[k], more, b, tail);
    QuotedValueLength("\"" + (b + ("\"" + tail)), b + ("\"" + tail), sep);
  }

  /** Option keys are lower-case letters and hyphens. */
  predicate LowerKey(key: string) {
    key != "" && forall i :: 0 <= i < |key| ==> 'a' <= key[i] <= 'z' || key[i] == '-'
  }

  lemma LowerKeyIsPlain(key: string)
    requires LowerKey(key)
    ensures '=' !in key && ',' !in key && IsPlain(key[0]) && Trimmed(key) && ToLower(key) == key
  {
    TrimKeepsEdges(key);
  }

  lemma HeaderKeyIsPlain(sep: char)
    ensures var key := HeaderKey(sep);
            '=' !in key && ',' !in key && IsPlain(key[0]) && Trimmed(key) && ToLower(key) == key
  {
    LowerKeyIsPlain(HeaderKey(sep));
  }

  lemma {:induction false} KeyLengthIs(k: string, x: string)
    requires '=' !in k && ',' !in k
    requires x == "" || x[0] == '=' || x[0] == ','
    ensures KeyLength(k + x) == |k|
    decreases |k|
  {
    if k != "" {
      assert (k + x)[1..] == k[1..] + x;
      KeyLengthIs(k[1..], x);
    } else {
      assert k + x == x;
    }
  }

  lemma HeaderKeyReads(sep: char, y: string)
    requires IsPairSeparator(sep)
    ensures ValueLength(HeaderKey(sep), y) == HeadersLength(y, sep)
  {
    if sep != ';' {
      assert "ws-headers"[0] != "headers"[0];
    }
  }

  /** A field `key=y` whose value reader takes all of `y` but its tail. */
  lemma FieldLengthOf(key: string, y: string, e: nat, tail: string)
    requires key != "" && IsPlain(key[0]) && '=' !in key && ',' !in key && Trimmed(key) && ToLower(key) == key
    requires y != "" && !IsSurgeSpace(y[0]) && e <= |y| && ValueLength(key, y) == e && y[e..] == tail
    requires tail == "" || tail[0] == ','
    ensures FieldLength(key + ("=" + y)) == |key| + 1 + e
  {
    var u := key + ("=" + y);
    KeyLengthIs(key, "=" + y);
    assert u[..|key|] == key && u[|key|] == '=' && u[|key| + 1..] == y;
    assert SkipSpaces(u) == u && SkipSpaces(y) == y;
    assert PlainPart(u) == tail;
  }

  lemma FieldShape(key: string, b: string, tail: string)
    ensures var y := "\"" + (b + ("\"" + tail));
            key + "=" + ("\"" + b + "\"") + tail == key + ("=" + y) && y[|b| + 2..] == tail
  {
  }

  /** The splitter cuts exactly the printed field. */
  lemma PrintedFieldLength(headers: map<string, string>, order: seq<string>, sep: char, tail: string)
    requires IsPairSeparator(sep) && CarriedMap(headers)
    requires order != [] && (forall k :: k in order ==> k in headers) && !StartsWith(headers[order[0]], ':')
    requires tail == "" || tail[0] == ','
    ensures FieldLength(PrintedField(headers, order, sep) + tail) == |PrintedField(headers, order, sep)|
  {
    var key, b := HeaderKey(sep), Body(headers, order, sep);
    var y := "\"" + (b + ("\"" + tail));
    PrintedFieldIs(headers, order, sep);
    FieldShape(key, b, tail);
    HeaderKeyIsPlain(sep);
    HeaderKeyReads(sep, y);
    PrintedValueLength(headers, order, sep, tail);
    FieldLengthOf(key, y, |b| + 2, tail);
  }

  /** Only the field's own text decides where it ends; the rest is cut on its own. */
  lemma FieldThenRest(field: string, tail: string)
    requires field != "" && (tail == "" || tail[0] == ',')
    requires FieldLength(field + tail) == |field|
    ensures Fields(field + tail) == FieldThen(TrimSpace(field), tail)
  {
    hide FieldLength, TrimSpace;
    var u := field + tail;
    assert u[..|field|] == field;
    var w := if tail == "" then "" else tail[1..];
    assert tail != "" ==> u[|field| + 1..] == w;
    var rest := RawFields(w);
    if rest.Some? {
      assert TrimAll([field] + rest.value) == [TrimSpace(field)] + TrimAll(rest.value);
    }
  }

  // ---- the round trip ----

  lemma BodyParses(headers: map<string, string>, order: seq<string>, sep: char)
    requires IsPairSeparator(sep) && PlainMap(headers) && order != [] && Visits(order, headers)
    ensures EnterPairs(SplitPairs(Body(headers, order, sep), sep, START), map[]) == headers
  {
    SplitBody(headers, order, sep);
    EnterParts(headers, order, map[]);
  }

  /** The outer quotes come off, and only they. */
  lemma OuterQuotesComeOff(headers: map<string, string>, order: seq<string>, sep: char)
    requires PlainMap(headers) && order != [] && (forall k :: k in order ==> k in headers)
    ensures var b := Body(headers, order, sep);
            StripOuterQuotes(b) == b && (!StartsWith(headers[order[0]], ':') ==> StripOuterQuotes("\"" + b + "\"") == b)
  {
    var b := Body(headers, order, sep);
    var k := order[0];
    assert k in headers;
    BodyEdges(headers, order, sep);
    EdgesKeep(b);
    QuotedIsTrimmed(b);
    if !StartsWith(headers[k], ':') {
      var more := BodyStartsWithPart(headers, order, sep);
      NoQuotedKey(k, headers[k], more, b, "");
      assert "\"" + (b + ("\"" + "")) == "\"" + b + "\"";
    }
  }

  lemma PrintedFieldShape(headers: map<string, string>, order: seq<string>, sep: char)
    requires PlainMap(headers) && order != [] && forall k :: k in order ==> k in headers
    ensures var f, key, b := PrintedField(headers, order, sep), HeaderKey(sep), Body(headers, order, sep);
            Trimmed(f) && IndexByte(f, '=') == |key| && f[|key| + 1..] == "\"" + b + "\""
  {
    var f, key, b := PrintedField(headers, order, sep), HeaderKey(sep), Body(headers, order, sep);
    PrintedFieldIs(headers, order, sep);
    HeaderKeyIsPlain(sep);
    TrimKeepsEdges(f);
    assert f[..|key|] == key;
    IndexByteUnique(f, '=', |key|);
  }

  /** Reading the value of any plain map's field, as the option loop hands it over,
      gives the map back. */
  lemma OptionReads(headers: map<string, string>, order: seq<string>, sep: char)
    requires IsPairSeparator(sep) && PlainMap(headers) && order != [] && Visits(order, headers)
    ensures ParseHeaders(OptionValue(PrintedField(headers, order, sep)), sep) == headers
  {
    PrintedFieldShape(headers, order, sep);
    OuterQuotesComeOff(headers, order, sep);
    BodyParses(headers, order, sep);
    QuotedIsTrimmed(Body(headers, order, sep));
  }

  /** The printed field is cut from the line exactly as it was written, and reading its
      value as the option loop does gives the map back. */
  predicate ReadsBack(headers: map<string, string>, order: seq<string>, sep: char, tail: string)
    requires IsPairSeparator(sep) && (tail == "" || tail[0] == ',')
    requires forall k :: k in order ==> k in headers
  {
    var field := PrintedField(headers, order, sep);
    && Fields(field + tail) == FieldThen(field, tail)
    && ParseHeaders(OptionValue(field), sep) == headers
  }

  /** Round trip, whatever follows on the line: no value starts with a comma, and the
      first one visited does not start with a colon.  The value is also read right with
      its outer quotes still on. */
  lemma HeaderRoundTrip(headers: map<string, string>, order: seq<string>, sep: char, tail: string)
    requires IsPairSeparator(sep) && (tail == "" || tail[0] == ',')
    requires CarriedMap(headers) && order != [] && Visits(order, headers) && !StartsWith(headers[order[0]], ':')
    ensures ReadsBack(headers, order, sep, tail)
    ensures ParseHeaders(PrintedField(headers, order, sep)[|HeaderKey(sep)| + 1..], sep) == headers
  {
    var field := PrintedField(headers, order, sep);
    PrintedFieldShape(headers, order, sep);
    PrintedFieldLength(headers, order, sep, tail);
    FieldThenRest(field, tail);
    OptionReads(headers, order, sep);
    OuterQuotesComeOff(headers, order, sep);
    BodyParses(headers, order, sep);
  }

  // ---- a comma in front ----

  /** A value that starts with a comma ends the field at its own opening quote. */
  lemma CommaCutsShort(k: string, v: string, more: string, sep: char)
    requires IsPairSeparator(sep) && PlainName(k) && Trimmed(v) && v != "" && v[0] == ','
    ensures var b := Part(k, v) + more;
            HeadersLength("\"" + (b + ("\"" + "")), sep) == |k| + 3
  {
    var b := Part(k, v) + more;
    var x3 := v + ("\"" + (more + ("\"" + "")));
    var x2 := "\"" + x3;
    NoQuotedKey(k, v, more, b, "");
    Assoc(Part(k, v), more, "\"" + "");
    PartThen(k, v, more + ("\"" + ""));
    QuotedValueLength("\"" + (b + ("\"" + "")), b + ("\"" + ""), sep);
    QuotedOverName(k, ":" + x2, sep);
    QuotedColon(x2, sep);
    assert SkipSpaces(x3) == x3 && x2[1..] == x3;
    assert QuotedLength(x2, sep, '"', AFTERVALUE) == 1;
  }

  lemma LeadingCommaBreaks(headers: map<string, string>, order: seq<string>, sep: char)
    requires IsPairSeparator(sep) && PlainMap(headers)
    requires order != [] && Visits(order, headers)
    requires var v := headers[order[0]]; v != "" && v[0] == ','
    ensures !ReadsBack(headers, order, sep, "")
  {
    var k, key, b := order[0], HeaderKey(sep), Body(headers, order, sep);
    assert k in headers;
    var v := headers[k];
    var more := BodyStartsWithPart(headers, order, sep);
    var y := "\"" + (b + ("\"" + ""));
    PrintedFieldIs(headers, order, sep);
    var field := PrintedField(headers, order, sep);
    FieldShape(key, b, "");
    assert field + "" == key + ("=" + y);
    CommaCutsShort(k, v, more, sep);
    assert y[|k| + 3] == b[|k| + 2] == v[0];
    HeaderKeyIsPlain(sep);
    HeaderKeyReads(sep, y);
    FieldLengthOf(key, y, |k| + 3, y[|k| + 3..]);
    CutShort(field, |key| + 1 + |k| + 3);
  }

  lemma CutShort(field: string, n: nat)
    requires FieldLength(field + "") == n < |field|
    ensures Fields(field + "") != FieldThen(field, "")
  {
    assert field + "" == field;
    var raw := RawFields(field);
    if raw.Some? {
      TrimLeftShrinks(field[..n]);
      TrimRightShrinks(TrimLeft(field[..n]));
      assert raw.value[0] == field[..n];
      assert |TrimSpace(raw.value[0])| < |field|;
    }
  }
}
