/** Exactly which plain header maps survive printing, cutting and reading.

    When the first printed value starts with a colon, the opening quote and the name look
    like a quoted header name, so the splitter takes the whole field for an unquoted
    headers value.  From then on it holds some values to be outside quotes, and there a
    comma ends the field. */
module SurgeExact {
  import opened GoStrings
  import opened SurgeHeaders
  import opened SurgeFields
  import opened SurgePrinter
  import opened SurgeRoundTrip

  /** What the printers append behind a field: nothing, or a comma and an option. */
  predicate OptionTail(tail: string) {
    tail == "" || (tail[0] == ',' && OptionStart(tail[1..]))
  }

  /** A value that starts like the next pair of the map. */
  predicate LooksLikePair(v: string, sep: char) {
    StartsWith(v, sep) && HeaderKeyStart(v[1..])
  }

  /** No value starts with a comma.  If some value starts with a colon, neither it nor a
      value that looks like the next pair holds a comma anywhere. */
  predicate Survives(headers: map<string, string>, sep: char) {
    && (forall k :: k in headers ==> !StartsWith(headers[k], ','))
    && (forall j :: j in headers && StartsWith(headers[j], ':') ==>
          ',' !in headers[j] && forall k :: k in headers && LooksLikePair(headers[k], sep) ==> ',' !in headers[k])
  }

  function Out(seen: bool): Scan { Scan(NONE, 0, seen) }

  /** An open quote: of a name before the pair's ':', of a value after it. */
  function In(seen: bool): Scan { Scan('"', if seen then 2 else 1, seen) }

  // ---- single steps of the unquoted scan ----

  lemma {:induction false} InsideQuote(w: string, x: string, sep: char, seen: bool)
    requires IsPairSeparator(sep) && '"' !in w
    ensures UnquotedLength(w + x, sep, In(seen)) == |w| + UnquotedLength(x, sep, In(seen))
    decreases |w|
  {
    hide HeaderKeyStart, ValueQuoteEnd;
    if w == "" {
      assert w + x == x;
    } else {
      assert w[0] in w && forall c :: c in w[1..] ==> c in w;
      assert (w + x)[1..] == w[1..] + x;
      InsideQuote(w[1..], x, sep, seen);
    }
  }

  lemma OpensQuote(x: string, sep: char, seen: bool)
    requires IsPairSeparator(sep)
    ensures UnquotedLength("\"" + x, sep, Out(seen)) == 1 + UnquotedLength(x, sep, In(seen))
  {
    hide HeaderKeyStart, ValueQuoteEnd;
    assert ("\"" + x)[1..] == x;
  }

  /** The quote of a name closes at the next quote, that of a value by look-ahead. */
  lemma ClosesQuote(x: string, sep: char, seen: bool)
    requires IsPairSeparator(sep)
    ensures UnquotedLength("\"" + x, sep, In(seen))
            == 1 + UnquotedLength(x, sep, if !seen || ValueQuoteEnd(x, sep, true, NONE) then Out(seen) else In(seen))
  {
    hide HeaderKeyStart, ValueQuoteEnd;
    assert ("\"" + x)[1..] == x;
  }

  lemma {:induction false} OverName(k: string, x: string, sep: char)
    requires IsPairSeparator(sep) && forall i :: 0 <= i < |k| ==> IsNameChar(k[i])
    ensures UnquotedLength(k + x, sep, START) == |k| + UnquotedLength(x, sep, START)
    decreases |k|
  {
    hide HeaderKeyStart, ValueQuoteEnd;
    if k == "" {
      assert k + x == x;
    } else {
      assert (k + x)[1..] == k[1..] + x;
      OverName(k[1..], x, sep);
    }
  }

  lemma OverColon(x: string, sep: char)
    requires IsPairSeparator(sep)
    ensures UnquotedLength(":" + x, sep, START) == 1 + UnquotedLength(x, sep, Out(true))
  {
    hide HeaderKeyStart, ValueQuoteEnd;
    assert (":" + x)[1..] == x;
  }

  lemma OverSeparator(x: string, sep: char, seen: bool)
    requires IsPairSeparator(sep) && HeaderKeyStart(x)
    ensures UnquotedLength([sep] + x, sep, Out(seen)) == 1 + UnquotedLength(x, sep, START)
  {
    hide HeaderKeyStart, ValueQuoteEnd;
    assert ([sep] + x)[1..] == x;
  }

  /** The outer quote closes what is open, and the scan stops. */
  lemma OuterQuote(tail: string, sep: char, seen: bool)
    requires IsPairSeparator(sep) && OptionTail(tail)
    ensures UnquotedLength("\"" + tail, sep, In(seen)) == 1
  {
    ClosesQuote(tail, sep, seen);
    assert SkipSpaces(tail) == tail;
    assert ValueQuoteEnd(tail, sep, true, NONE);
  }

  /** The last value's own quote does not close in front of the outer one. */
  lemma LastQuotes(tail: string, sep: char)
    requires IsPairSeparator(sep) && OptionTail(tail)
    ensures UnquotedLength("\"" + ("\"" + tail), sep, In(true)) == 2
  {
    var x := "\"" + tail;
    assert SkipSpaces(x) == x;
    assert !ValueQuoteEnd(x, sep, true, NONE);
    ClosesQuote(x, sep, true);
    OuterQuote(tail, sep, true);
  }

  // ---- values inside quotes ----

  /** What follows the first pair. */
  function Rest(headers: map<string, string>, order: seq<string>, sep: char): string
    requires order != [] && forall k :: k in order ==> k in headers
  {
    if |order| == 1 then "" else [sep] + Body(headers, order[1..], sep)
  }

  lemma ValueHasNoQuote(v: string)
    requires QuoteFree(v)
    ensures '"' !in v
  {
  }

  /** The scan goes over a printed body as it was printed. */
  lemma {:induction false} OverBody(headers: map<string, string>, order: seq<string>, sep: char, tail: string)
    requires IsPairSeparator(sep) && PlainMap(headers) && OptionTail(tail)
    requires order != [] && forall k :: k in order ==> k in headers
    ensures UnquotedLength(Body(headers, order, sep) + ("\"" + tail), sep, START) == |Body(headers, order, sep)| + 1
    decreases |order|, 1
  {
    hide UnquotedLength;
    var k, v := order[0], headers[order[0]];
    assert k in headers;
    var r, end := Rest(headers, order, sep), "\"" + tail;
    BodyCons(headers, order, sep);
    var x := "\"" + (r + end);
    Assoc(Part(k, v), r, end);
    PartThen(k, v, r + end);
    OverName(k, ":" + ("\"" + (v + x)), sep);
    OverColon("\"" + (v + x), sep);
    OpensQuote(v + x, sep, true);
    ValueHasNoQuote(v);
    InsideQuote(v, x, sep, true);
    ClosingValue(headers, order, sep, tail);
  }

  /** From the closing quote of a value on. */
  lemma {:induction false} ClosingValue(headers: map<string, string>, order: seq<string>, sep: char, tail: string)
    requires IsPairSeparator(sep) && PlainMap(headers) && OptionTail(tail)
    requires order != [] && forall k :: k in order ==> k in headers
    ensures var r := Rest(headers, order, sep);
            UnquotedLength("\"" + (r + ("\"" + tail)), sep, In(true)) == |r| + 2
    decreases |order|, 0
  {
    hide UnquotedLength;
    var end := "\"" + tail;
    if |order| == 1 {
      assert "" + end == end;
      LastQuotes(tail, sep);
    } else {
      var b := Body(headers, order[1..], sep);
      Assoc([sep], b, end);
      BodyStartsKey(headers, order[1..], sep, end);
      SeparatorCloses(b + end, sep);
      ClosesQuote([sep] + (b + end), sep, true);
      OverSeparator(b + end, sep, true);
      OverBody(headers, order[1..], sep, tail);
    }
  }

  lemma SeparatorCloses(x: string, sep: char)
    requires IsPairSeparator(sep) && HeaderKeyStart(x)
    ensures ValueQuoteEnd([sep] + x, sep, true, NONE)
  {
    var w := [sep] + x;
    assert w[1..] == x && SkipSpaces(w) == w;
  }

  // ---- values outside quotes ----

  /** Only spaces and header-key characters stand in front of the next ':'. */
  predicate ReachesColon(w: string) {
    w != "" && (w[0] == ':' || ((IsSurgeSpace(w[0]) || IsHeaderKeyChar(w[0])) && ReachesColon(w[1..])))
  }

  predicate EndsTight(w: string) {
    w == "" || !IsSurgeSpace(w[|w| - 1])
  }

  lemma QuoteStopsSkipping(x: string)
    requires StartsWith(x, '"')
    ensures SkipSpaces(x) == x && SkipHeaderKey(x) == x
  {
    assert !IsHeaderKeyChar('"');
  }

  lemma {:induction false} SpacesReach(w: string, x: string)
    requires StartsWith(x, '"') && StartsWith(SkipSpaces(w + x), ':')
    ensures ReachesColon(w)
    decreases |w|
  {
    QuoteStopsSkipping(x);
    assert w == "" ==> w + x == x;
    assert w != "" ==> (w + x)[1..] == w[1..] + x;
    if w != "" && IsSurgeSpace(w[0]) {
      SpacesReach(w[1..], x);
    }
  }

  lemma {:induction false} KeyReaches(w: string, x: string)
    requires StartsWith(x, '"') && StartsWith(SkipSpaces(SkipHeaderKey(w + x)), ':')
    ensures ReachesColon(w)
    decreases |w|
  {
    QuoteStopsSkipping(x);
    assert w == "" ==> w + x == x;
    assert w != "" ==> (w + x)[1..] == w[1..] + x;
    if w != "" {
      if IsHeaderKeyChar(w[0]) {
        KeyReaches(w[1..], x);
      } else {
        SpacesReach(w, x);
      }
    }
  }

  /** A header key that starts in the middle of a value has its ':' in that value. */
  lemma {:induction false} KeyStartReaches(w: string, x: string)
    requires w != "" && QuoteFree(w) && EndsTight(w) && StartsWith(x, '"') && HeaderKeyStart(w + x)
    ensures ReachesColon(w)
    decreases |w|
  {
    assert (w + x)[1..] == w[1..] + x;
    if IsSurgeSpace(w[0]) {
      assert SkipSpaces(w + x) == SkipSpaces(w[1..] + x);
      KeyStartReaches(w[1..], x);
    } else {
      assert SkipSpaces(w + x) == w + x && (w + x)[0] == w[0];
      KeyReaches(w, x);
    }
  }

  /** Over a value without commas.  The pair's ':' has been passed in the end, unless the
      value ends in a separator and its closing quote seems to open a quoted name. */
  lemma {:induction false} OverOutside(w: string, x: string, sep: char, seen: bool)
    requires IsPairSeparator(sep) && QuoteFree(w) && ',' !in w && EndsTight(w) && StartsWith(x, '"')
    requires seen || ReachesColon(w)
    ensures || UnquotedLength(w + x, sep, Out(seen)) == |w| + UnquotedLength(x, sep, Out(true))
            || (HeaderKeyStart(x) && UnquotedLength(w + x, sep, Out(seen)) == |w| + UnquotedLength(x, sep, Out(false)))
    decreases |w|
  {
    hide HeaderKeyStart, ValueQuoteEnd;
    if w == "" {
      assert w + x == x;
    } else {
      var u := w[1..];
      assert w[0] in w && forall c :: c in u ==> c in w;
      assert (w + x)[1..] == u + x;
      if w[0] == sep && HeaderKeyStart(u + x) {
        if u == "" {
          assert u + x == x;
        } else {
          KeyStartReaches(u, x);
          OverOutside(u, x, sep, false);
        }
      } else {
        OverOutside(u, x, sep, seen || w[0] == ':');
      }
    }
  }

  /** Outside quotes the first comma ends the scan. */
  lemma {:induction false} StopsAtComma(w: string, z: string, sep: char, seen: bool)
    requires IsPairSeparator(sep) && QuoteFree(w) && ',' !in w
    ensures UnquotedLength(w + ("," + z), sep, Out(seen)) == |w|
    decreases |w|
  {
    hide HeaderKeyStart, ValueQuoteEnd;
    if w == "" {
      assert w + ("," + z) == "," + z;
    } else {
      var u := w[1..];
      assert w[0] in w && forall c :: c in u ==> c in w;
      assert (w + ("," + z))[1..] == u + ("," + z);
      StopsAtComma(u, z, sep, if w[0] == sep && HeaderKeyStart(u + ("," + z)) then false else seen || w[0] == ':');
    }
  }

  lemma TrimmedEndsTight(v: string)
    requires Trimmed(v)
    ensures EndsTight(v)
  {
    TrimmedHasNoEdges(v);
    if v != "" && IsSurgeSpace(v[|v| - 1]) {
      TrimRightShrinks(v[..|v| - 1]);
      assert false;
    }
  }

  /** The quote that closes a value seems to open a quoted name only if the next pair's
      value starts with a colon. */
  lemma QuotedNameAhead(k: string, v: string, y: string, sep: char)
    requires IsPairSeparator(sep) && PlainName(k) && Trimmed(v)
    requires HeaderKeyStart("\"" + ([sep] + k + ":" + ("\"" + (v + ("\"" + y)))))
    ensures StartsWith(v, ':')
  {
    hide TrimSpace;
    var q := [sep] + k + ":";
    var z := v + ("\"" + y);
    var u := q + ("\"" + z);
    var t := "\"" + u;
    assert t[1..] == u && SkipSpaces(t) == t;
    assert u[..|q|] == q && u[|q|] == '"' && '"' !in q;
    IndexByteUnique(u, '"', |q|);
    assert t[|q| + 2..] == z;
    assert AfterQuotedKey(t) == Some(z);
    if v != "" {
      FirstIsNoSpace(v);
    }
    assert SkipSpaces(z) == z;
  }

  /** The opening quote of a value closes at once only if the value looks like a pair. */
  lemma ClosesAtOnce(v: string, y: string, sep: char)
    requires IsPairSeparator(sep) && Trimmed(v) && QuoteFree(v) && !StartsWith(v, ',')
    requires ValueQuoteEnd(v + ("\"" + y), sep, true, NONE)
    ensures v == [sep] || LooksLikePair(v, sep)
  {
    hide TrimSpace, SkipHeaderKey;
    var x := "\"" + y;
    var z := v + x;
    QuoteStopsSkipping(x);
    assert v == "" ==> z == x;
    if v != "" {
      FirstIsNoSpace(v);
      assert SkipSpaces(z) == z && z[1..] == v[1..] + x;
      assert v[0] == sep && HeaderKeyStart(v[1..] + x);
      if |v| > 1 {
        TrimmedEndsTight(v);
        KeyStartIsOwn(v[1..], x);
      } else {
        assert v == [v[0]];
      }
    }
  }

  lemma {:induction false} SpacesOwn(w: string, x: string)
    requires StartsWith(x, '"')
    ensures StartsWith(SkipSpaces(w + x), ':') <==> StartsWith(SkipSpaces(w), ':')
    decreases |w|
  {
    if w == "" {
      assert w + x == x;
      QuoteStopsSkipping(x);
    } else {
      assert (w + x)[1..] == w[1..] + x;
      SpacesOwn(w[1..], x);
    }
  }

  lemma QuoteIsNoKeyChar()
    ensures !IsHeaderKeyChar('"')
  {
  }

  lemma {:induction false} KeyOwn(w: string, x: string)
    requires StartsWith(x, '"')
    ensures SkipHeaderKey(w + x) == SkipHeaderKey(w) + x
    decreases |w|
  {
    if w == "" {
      assert w + x == x;
      QuoteIsNoKeyChar();
    } else {
      assert (w + x)[1..] == w[1..] + x;
      KeyOwn(w[1..], x);
    }
  }

  /** Whether a header key starts inside a value is decided by the value alone. */
  lemma {:induction false} KeyStartIsOwn(w: string, x: string)
    requires w != "" && QuoteFree(w) && EndsTight(w) && StartsWith(x, '"')
    ensures HeaderKeyStart(w + x) <==> HeaderKeyStart(w)
    decreases |w|
  {
    assert (w + x)[1..] == w[1..] + x;
    if IsSurgeSpace(w[0]) {
      assert SkipSpaces(w + x) == SkipSpaces(w[1..] + x) && SkipSpaces(w) == SkipSpaces(w[1..]);
      KeyStartIsOwn(w[1..], x);
    } else {
      assert SkipSpaces(w + x) == w + x && SkipSpaces(w) == w;
      KeyOwn(w, x);
      SpacesOwn(SkipHeaderKey(w), x);
    }
  }

  // ---- the field whose first value starts with a colon ----

  /** What follows the name of the next pair, seen from the quote that closes a value. */
  lemma NextPair(headers: map<string, string>, order: seq<string>, sep: char, end: string)
    requires |order| > 1 && forall k :: k in order ==> k in headers
    ensures order[1] in headers
    ensures var k, v := order[1], headers[order[1]];
            && Rest(headers, order, sep) + end
               == ([sep] + k + ":") + ("\"" + (v + ("\"" + (Rest(headers, order[1..], sep) + end))))
            && |Rest(headers, order, sep)| == |k| + 2 + 1 + |v| + 1 + |Rest(headers, order[1..], sep)|
  {
    assert order[1] in order;
    var k, v := order[1], headers[order[1]];
    assert order[1..][0] == k;
    BodyCons(headers, order[1..], sep);
    NextShape(k, v, Rest(headers, order[1..], sep), sep, end);
  }

  lemma NextShape(k: string, v: string, r: string, sep: char, end: string)
    ensures ([sep] + (Part(k, v) + r)) + end == ([sep] + k + ":") + ("\"" + (v + ("\"" + (r + end))))
  {
  }

  /** Every value the scan may hold to be outside quotes is free of commas. */
  predicate CommasAreQuoted(headers: map<string, string>, sep: char) {
    PlainMap(headers) && forall k :: k in headers ==>
      && !StartsWith(headers[k], ',')
      && (StartsWith(headers[k], ':') || LooksLikePair(headers[k], sep) ==> ',' !in headers[k])
  }

  /** From a value outside quotes to the outer quote. */
  lemma {:induction false} OutsideValue(headers: map<string, string>, order: seq<string>, sep: char, tail: string, seen: bool)
    requires IsPairSeparator(sep) && CommasAreQuoted(headers, sep) && OptionTail(tail)
    requires order != [] && forall k :: k in order ==> k in headers
    requires ',' !in headers[order[0]] && (seen || StartsWith(headers[order[0]], ':'))
    ensures var v, r := headers[order[0]], Rest(headers, order, sep);
            UnquotedLength(v + ("\"" + (r + ("\"" + tail))), sep, Out(seen)) == |v| + |r| + 2
    decreases |order|, 1
  {
    hide UnquotedLength, HeaderKeyStart, ValueQuoteEnd, LooksLikePair, OptionTail;
    assert order[0] in headers;
    var v, r, end := headers[order[0]], Rest(headers, order, sep), "\"" + tail;
    var x := "\"" + (r + end);
    TrimmedEndsTight(v);
    OverOutside(v, x, sep, seen);
    if |order| == 1 {
      assert "" + end == end;
      OpensQuote(end, sep, true);
      OpensQuote(end, sep, false);
      OuterQuote(tail, sep, true);
      OuterQuote(tail, sep, false);
    } else {
      NextPair(headers, order, sep, end);
      var now: bool :| UnquotedLength(v + x, sep, Out(seen)) == |v| + UnquotedLength(x, sep, Out(now)) && (now || HeaderKeyStart(x));
      NextValue(headers, order, sep, tail, now);
    }
  }

  /** The quote that closes such a value opens another, which closes at the next value's
      opening quote or at its closing one. */
  lemma {:induction false} NextValue(headers: map<string, string>, order: seq<string>, sep: char, tail: string, now: bool)
    requires IsPairSeparator(sep) && CommasAreQuoted(headers, sep) && OptionTail(tail)
    requires |order| > 1 && forall k :: k in order ==> k in headers
    requires now || HeaderKeyStart("\"" + (Rest(headers, order, sep) + ("\"" + tail)))
    ensures var r := Rest(headers, order, sep);
            UnquotedLength("\"" + (r + ("\"" + tail)), sep, Out(now)) == |r| + 2
    decreases |order|, 0
  {
    hide UnquotedLength, HeaderKeyStart, ValueQuoteEnd, OptionTail, Rest, LooksLikePair;
    var end := "\"" + tail;
    NextPair(headers, order, sep, end);
    var k, v, r := order[1], headers[order[1]], Rest(headers, order[1..], sep);
    assert PlainName(k) && Trimmed(v) && QuoteFree(v);
    var z := v + ("\"" + (r + end));
    OpensQuote(([sep] + k + ":") + ("\"" + z), sep, now);
    NameHasNoQuote(k, sep);
    InsideQuote([sep] + k + ":", "\"" + z, sep, now);
    ClosesQuote(z, sep, now);
    ValueHasNoQuote(v);
    if !now {
      QuotedNameAhead(k, v, r + end, sep);
      OutsideValue(headers, order[1..], sep, tail, false);
    } else if ValueQuoteEnd(z, sep, true, NONE) {
      ClosesAtOnce(v, r + end, sep);
      OutsideValue(headers, order[1..], sep, tail, true);
    } else {
      InsideQuote(v, "\"" + (r + end), sep, true);
      ClosingValue(headers, order[1..], sep, tail);
    }
  }

  lemma NameHasNoQuote(k: string, sep: char)
    requires IsPairSeparator(sep) && PlainName(k)
    ensures '"' !in [sep] + k + ":"
  {
  }

  // ---- where the scan starts ----

  /** `"name:"` at the front of the value is taken for a quoted header name. */
  lemma ColonStartsName(k: string, v: string, more: string, tail: string)
    requires PlainName(k) && StartsWith(v, ':')
    ensures StartsWithQuotedKey("\"" + ((Part(k, v) + more) + ("\"" + tail)))
  {
    var b := Part(k, v) + more;
    var u := "\"" + (b + ("\"" + tail));
    assert u == ("\"" + b) + ['"'] + tail;
    TrimLeftKeeps(u);
    TrimRightStops("\"" + b, '"', tail);
    var z := v + ("\"" + more + "\"" + TrimRight(tail));
    var t := "\"" + b + ['"'] + TrimRight(tail);
    assert TrimSpace(u) == t;
    PartShape(k, v, more, TrimRight(tail));
    QuotedKeyOf(k, t, z);
    assert SkipSpaces(z) == z;
  }

  lemma StartShape(k: string, v: string, r: string, end: string)
    ensures "\"" + ((Part(k, v) + r) + end) == "\"" + ((k + ":") + ("\"" + (v + ("\"" + (r + end)))))
  {
  }

  lemma UnquotedValue(u: string, sep: char)
    requires IsPairSeparator(sep) && StartsWith(u, '"') && StartsWithQuotedKey(u)
    ensures HeadersLength(u, sep) == UnquotedLength(u, sep, START)
  {
    hide StartsWithQuotedKey, UnquotedLength;
    assert SkipSpaces(u) == u;
  }

  /** The scan up to the first value, which it holds to be outside quotes. */
  lemma UpToFirst(headers: map<string, string>, order: seq<string>, sep: char, tail: string)
    requires IsPairSeparator(sep) && PlainMap(headers)
    requires order != [] && (forall k :: k in order ==> k in headers) && StartsWith(headers[order[0]], ':')
    ensures var k, v, end := order[0], headers[order[0]], "\"" + tail;
            HeadersLength("\"" + (Body(headers, order, sep) + end), sep)
            == |k| + 3 + UnquotedLength(v + ("\"" + (Rest(headers, order, sep) + end)), sep, Out(false))
  {
    hide UnquotedLength, HeadersLength, StartsWithQuotedKey;
    var k, v, r, end := order[0], headers[order[0]], Rest(headers, order, sep), "\"" + tail;
    assert k in headers;
    BodyCons(headers, order, sep);
    var z := v + ("\"" + (r + end));
    ColonStartsName(k, v, r, tail);
    StartShape(k, v, r, end);
    UnquotedValue("\"" + (Body(headers, order, sep) + end), sep);
    OpensQuote((k + ":") + ("\"" + z), sep, false);
    NameHasNoQuote(k, sep);
    assert forall c :: c in k + ":" ==> c in [sep] + k + ":";
    InsideQuote(k + ":", "\"" + z, sep, false);
    ClosesQuote(z, sep, false);
  }

  /** The whole value is taken, up to its outer quote. */
  lemma ColonValueLength(headers: map<string, string>, order: seq<string>, sep: char, tail: string)
    requires IsPairSeparator(sep) && CommasAreQuoted(headers, sep) && OptionTail(tail)
    requires order != [] && (forall k :: k in order ==> k in headers) && StartsWith(headers[order[0]], ':')
    ensures HeadersLength("\"" + (Body(headers, order, sep) + ("\"" + tail)), sep) == |Body(headers, order, sep)| + 2
  {
    hide UnquotedLength, HeadersLength, LooksLikePair;
    assert order[0] in headers;
    UpToFirst(headers, order, sep, tail);
    OutsideValue(headers, order, sep, tail, false);
    BodyCons(headers, order, sep);
  }

  lemma ColonFieldLength(headers: map<string, string>, order: seq<string>, sep: char, tail: string)
    requires IsPairSeparator(sep) && CommasAreQuoted(headers, sep) && OptionTail(tail)
    requires order != [] && (forall k :: k in order ==> k in headers) && StartsWith(headers[order[0]], ':')
    ensures FieldLength(PrintedField(headers, order, sep) + tail) == |PrintedField(headers, order, sep)|
  {
    hide HeadersLength, LooksLikePair, FieldLength;
    var key, b := HeaderKey(sep), Body(headers, order, sep);
    var y := "\"" + (b + ("\"" + tail));
    PrintedFieldIs(headers, order, sep);
    FieldShape(key, b, tail);
    HeaderKeyIsPlain(sep);
    HeaderKeyReads(sep, y);
    ColonValueLength(headers, order, sep, tail);
    FieldLengthOf(key, y, |b| + 2, tail);
  }

  /** A map whose first printed value starts with a colon is still read back when its
      commas stand inside what the scan takes for quotes. */
  lemma ColonRoundTrip(headers: map<string, string>, order: seq<string>, sep: char, tail: string)
    requires IsPairSeparator(sep) && CommasAreQuoted(headers, sep) && OptionTail(tail)
    requires order != [] && Visits(order, headers) && StartsWith(headers[order[0]], ':')
    ensures ReadsBack(headers, order, sep, tail)
  {
    hide FieldLength, LooksLikePair, ParseHeaders, OptionValue, Fields, FieldThen;
    var field := PrintedField(headers, order, sep);
    PrintedFieldShape(headers, order, sep);
    ColonFieldLength(headers, order, sep, tail);
    FieldThenRest(field, tail);
    OptionReads(headers, order, sep);
  }

  // ---- the failing families ----

  /** A field whose value is cut at a comma is not read back. */
  lemma CutAtComma(headers: map<string, string>, order: seq<string>, sep: char, e: nat)
    requires IsPairSeparator(sep) && PlainMap(headers) && order != [] && Visits(order, headers)
    requires var y := "\"" + (Body(headers, order, sep) + ("\"" + ""));
             HeadersLength(y, sep) == e < |y| && y[e] == ','
    ensures !ReadsBack(headers, order, sep, "")
  {
    hide HeadersLength, FieldLength, ParseHeaders, OptionValue;
    var key, b := HeaderKey(sep), Body(headers, order, sep);
    var y := "\"" + (b + ("\"" + ""));
    PrintedFieldIs(headers, order, sep);
    var field := PrintedField(headers, order, sep);
    FieldShape(key, b, "");
    assert field + "" == key + ("=" + y);
    HeaderKeyIsPlain(sep);
    HeaderKeyReads(sep, y);
    FieldLengthOf(key, y, e, y[e..]);
    CutShort(field, |key| + 1 + e);
  }

  lemma CommaIn(v: string) returns (w: string, z: string)
    requires ',' in v
    ensures v == w + ("," + z) && ',' !in w
  {
    var k := IndexByte(v, ',');
    IndexByteIsFirst(v, ',');
    w, z := v[..k], v[k + 1..];
  }

  /** A first value that starts with a colon and holds a comma is cut at that comma. */
  lemma ColonCommaBreaks(headers: map<string, string>, order: seq<string>, sep: char)
    requires IsPairSeparator(sep) && PlainMap(headers) && order != [] && Visits(order, headers)
    requires var v := headers[order[0]]; StartsWith(v, ':') && ',' in v
    ensures !ReadsBack(headers, order, sep, "")
  {
    hide UnquotedLength, HeadersLength, ReadsBack;
    assert order[0] in headers;
    var k, v, r := order[0], headers[order[0]], Rest(headers, order, sep);
    var w, z := CommaIn(v);
    var x := "\"" + (r + ("\"" + ""));
    UpToFirst(headers, order, sep, "");
    CommaInside(v, w, z, x);
    StopsAtComma(w, z + x, sep, false);
    BodyCons(headers, order, sep);
    StartShape(k, v, r, "\"" + "");
    FirstComma(k, w, z + x);
    CutAtComma(headers, order, sep, |k| + 3 + |w|);
  }

  lemma FirstComma(k: string, w: string, z: string)
    ensures var y := "\"" + ((k + ":") + ("\"" + (w + ("," + z))));
            |k| + 3 + |w| < |y| && y[|k| + 3 + |w|] == ','
  {
  }

  lemma CommaInside(v: string, w: string, z: string, x: string)
    requires v == w + ("," + z)
    ensures v + x == w + ("," + (z + x)) && (QuoteFree(v) ==> QuoteFree(w))
  {
    assert forall i :: 0 <= i < |w| ==> w[i] == v[i];
  }

  lemma PairIsLonger(v: string, w: string, z: string, sep: char)
    requires IsPairSeparator(sep) && LooksLikePair(v, sep) && v == w + ("," + z)
    ensures |v| > 1
  {
    assert v[|w|] == ',';
  }

  /** From the quote that closes the first value up to the comma in the second. */
  lemma CutInSecond(q: string, v: string, w: string, z: string, x: string, sep: char)
    requires IsPairSeparator(sep) && '"' !in q && LooksLikePair(v, sep) && Trimmed(v) && QuoteFree(v) && StartsWith(x, '"')
    requires v == w + ("," + z) && ',' !in w
    ensures UnquotedLength("\"" + (q + ("\"" + (v + x))), sep, Out(true)) == 1 + |q| + 1 + |w|
  {
    hide UnquotedLength, HeaderKeyStart, ValueQuoteEnd;
    OpensQuote(q + ("\"" + (v + x)), sep, true);
    InsideQuote(q, "\"" + (v + x), sep, true);
    CommaInside(v, w, z, x);
    PairIsLonger(v, w, z, sep);
    PairCloses(v, x, sep);
    ClosesQuote(v + x, sep, true);
    StopsAtComma(w, z + x, sep, true);
  }

  /** So is a second value that looks like a pair, behind a first one that starts with a
      colon. */
  lemma PairCommaBreaks(headers: map<string, string>, order: seq<string>, sep: char)
    requires IsPairSeparator(sep) && PlainMap(headers) && |order| > 1 && Visits(order, headers)
    requires var v := headers[order[0]]; StartsWith(v, ':') && ',' !in v
    requires var v := headers[order[1]]; LooksLikePair(v, sep) && ',' in v
    ensures !ReadsBack(headers, order, sep, "")
  {
    hide UnquotedLength, HeadersLength, ReadsBack, HeaderKeyStart, ValueQuoteEnd, Body, Rest;
    assert order[0] in headers && order[1] in order;
    var end := "\"" + "";
    var k1, v1, r1 := order[0], headers[order[0]], Rest(headers, order, sep);
    var k, v, r := order[1], headers[order[1]], Rest(headers, order[1..], sep);
    var q, x := [sep] + k + ":", "\"" + (r + end);
    var w, z := CommaIn(v);
    UpToFirst(headers, order, sep, "");
    NextPair(headers, order, sep, end);
    FirstIsPassed(v1, k, v, r + end, sep);
    NameHasNoQuote(k, sep);
    CutInSecond(q, v, w, z, x, sep);
    BodyIs(headers, order, sep);
    StartShape(k1, v1, r1, end);
    CommaInside(v, w, z, x);
    SecondComma(k1, v1, q, w, z + x);
    CutAtComma(headers, order, sep, |k1| + 3 + |v1| + 1 + |q| + 1 + |w|);
  }

  lemma BodyIs(headers: map<string, string>, order: seq<string>, sep: char)
    requires order != [] && forall k :: k in order ==> k in headers
    ensures Body(headers, order, sep) == Part(order[0], headers[order[0]]) + Rest(headers, order, sep)
  {
    BodyCons(headers, order, sep);
  }

  /** Behind a value without commas the ':' has been passed, unless the next value starts
      with a colon. */
  lemma FirstIsPassed(v1: string, k: string, v: string, y: string, sep: char)
    requires IsPairSeparator(sep) && StartsWith(v1, ':') && ',' !in v1 && Trimmed(v1) && QuoteFree(v1)
    requires PlainName(k) && Trimmed(v) && !StartsWith(v, ':')
    ensures var x := "\"" + (([sep] + k + ":") + ("\"" + (v + ("\"" + y))));
            UnquotedLength(v1 + x, sep, Out(false)) == |v1| + UnquotedLength(x, sep, Out(true))
  {
    hide UnquotedLength, HeaderKeyStart, ValueQuoteEnd;
    var x := "\"" + (([sep] + k + ":") + ("\"" + (v + ("\"" + y))));
    TrimmedEndsTight(v1);
    OverOutside(v1, x, sep, false);
    if HeaderKeyStart(x) {
      QuotedNameAhead(k, v, y, sep);
    }
  }

  lemma PairCloses(v: string, x: string, sep: char)
    requires IsPairSeparator(sep) && LooksLikePair(v, sep) && Trimmed(v) && QuoteFree(v) && StartsWith(x, '"') && |v| > 1
    ensures ValueQuoteEnd(v + x, sep, true, NONE)
  {
    assert SkipSpaces(v + x) == v + x && (v + x)[1..] == v[1..] + x;
    TrimmedEndsTight(v);
    KeyStartIsOwn(v[1..], x);
  }

  lemma SecondComma(k1: string, v1: string, q: string, w: string, z: string)
    ensures var y := "\"" + ((k1 + ":") + ("\"" + (v1 + ("\"" + (q + ("\"" + (w + ("," + z))))))));
            var e := |k1| + 3 + |v1| + 1 + |q| + 1 + |w|;
            e < |y| && y[e] == ','
  {
  }

  // ---- the exact condition ----

  /** Some order visits the map starting with the given names. */
  lemma {:induction false} SomeOrder(names: set<string>) returns (order: seq<string>)
    ensures forall k :: k in order <==> k in names
    ensures forall i, j :: 0 <= i < j < |order| ==> order[i] != order[j]
    decreases |names|
  {
    if names == {} {
      order := [];
    } else {
      var k :| k in names;
      order := SomeOrder(names - {k});
      order := [k] + order;
    }
  }

  lemma OrderFrom(headers: map<string, string>, first: seq<string>) returns (order: seq<string>)
    requires forall k :: k in first ==> k in headers
    requires forall i, j :: 0 <= i < j < |first| ==> first[i] != first[j]
    ensures Visits(order, headers) && first <= order
  {
    var rest := SomeOrder(headers.Keys - (set k | k in first));
    order := first + rest;
    assert forall i :: 0 <= i < |first| ==> first[i] in first;
    assert forall i :: 0 <= i < |rest| ==> rest[i] in rest && rest[i] !in first;
  }

  /** Exactly these maps are read back, in every order the runtime may visit them and
      with every tail the printers append. */
  lemma ReadsBackExactly(headers: map<string, string>, sep: char)
    requires IsPairSeparator(sep) && headers != map[] && PlainMap(headers)
    ensures (forall order, tail :: Visits(order, headers) && OptionTail(tail) ==> ReadsBack(headers, order, sep, tail))
            <==> Survives(headers, sep)
  {
    hide ReadsBack, LooksLikePair, OptionStart;
    if Survives(headers, sep) {
      forall order, tail | Visits(order, headers) && OptionTail(tail)
        ensures ReadsBack(headers, order, sep, tail)
      {
        EveryOrder(headers, order, sep, tail);
      }
    } else {
      var order := FailingOrder(headers, sep);
      assert OptionTail("");
    }
  }

  lemma EveryOrder(headers: map<string, string>, order: seq<string>, sep: char, tail: string)
    requires IsPairSeparator(sep) && headers != map[] && PlainMap(headers) && Survives(headers, sep)
    requires Visits(order, headers) && OptionTail(tail)
    ensures ReadsBack(headers, order, sep, tail)
  {
    hide ReadsBack, LooksLikePair, OptionStart;
    var anyName :| anyName in headers;
    assert anyName in order && order[0] in headers;
    if StartsWith(headers[order[0]], ':') {
      ColonRoundTrip(headers, order, sep, tail);
    } else {
      HeaderRoundTrip(headers, order, sep, tail);
    }
  }

  lemma FailingOrder(headers: map<string, string>, sep: char) returns (order: seq<string>)
    requires IsPairSeparator(sep) && PlainMap(headers) && !Survives(headers, sep)
    ensures Visits(order, headers) && !ReadsBack(headers, order, sep, "")
  {
    hide ReadsBack, LooksLikePair;
    if k :| k in headers && StartsWith(headers[k], ',') {
      order := OrderFrom(headers, [k]);
      LeadingCommaBreaks(headers, order, sep);
    } else {
      var j :| j in headers && StartsWith(headers[j], ':')
               && !(',' !in headers[j] && forall k :: k in headers && LooksLikePair(headers[k], sep) ==> ',' !in headers[k]);
      if ',' in headers[j] {
        order := OrderFrom(headers, [j]);
        ColonCommaBreaks(headers, order, sep);
      } else {
        var k :| k in headers && LooksLikePair(headers[k], sep) && ',' in headers[k];
        order := OrderFrom(headers, [j, k]);
        PairCommaBreaks(headers, order, sep);
      }
    }
  }
}
