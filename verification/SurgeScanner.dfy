/** The scanners as the program runs them: an index walks through the text, and the
    quote, its role and the separator flag are updated at each step.  Each method is
    proved against the function of the remaining text in SurgeHeaders or SurgeFields. */
module SurgeScanner {
  import opened GoStrings
  import opened SurgeHeaders
  import opened SurgeFields
  import opened SurgePrinter

  lemma Tail(text: string, i: nat)
    requires i < |text|
    ensures text[i..] != "" && text[i..][0] == text[i] && text[i..][1..] == text[i + 1..]
  {
  }

  lemma Slide(text: string, i: nat, k: nat)
    requires i + k <= |text|
    ensures text[i..][k..] == text[i + k..]
  {
  }

  method SkipSurgeSpaces(text: string, start: nat) returns (index: nat)
    requires start <= |text|
    ensures start <= index <= |text| && text[index..] == SkipSpaces(text[start..])
  {
    index := start;
    while index < |text| && IsSurgeSpace(text[index])
      invariant start <= index <= |text|
      invariant SkipSpaces(text[index..]) == SkipSpaces(text[start..])
    {
      Tail(text, index);
      index := index + 1;
    }
  }

  method ReadSurgeQuotedHeaderKey(text: string, start: nat) returns (end: int)
    requires start < |text|
    ensures var v := AfterQuotedKey(text[start..]);
            if end == -1 then v.None? else start < end <= |text| && v == Some(text[end..])
  {
    var quote := text[start];
    var index := start + 1;
    var hasKey := false;
    Tail(text, start);
    ghost var body := text[start + 1..];
    while index < |text|
      invariant start < index <= |text|
      invariant hasKey == (index > start + 1)
      invariant quote !in text[start + 1..index]
    {
      if text[index] == quote {
        assert body[..index - start - 1] == text[start + 1..index];
        IndexByteUnique(body, quote, index - start - 1);
        Slide(text, start, index - start + 1);
        if hasKey {
          return index + 1;
        }
        return -1;
      }
      hasKey := true;
      index := index + 1;
    }
    IndexByteIsFirst(body, quote);
    assert body == text[start + 1..index];
    return -1;
  }

  method StartsWithSurgeQuotedHeaderKey(s: string) returns (r: bool)
    ensures r == StartsWithQuotedKey(s)
  {
    var trimmed := TrimSpace(s);
    if |trimmed| == 0 || (trimmed[0] != '"' && trimmed[0] != '\'') {
      return false;
    }
    assert trimmed[0..] == trimmed;
    var index := ReadSurgeQuotedHeaderKey(trimmed, 0);
    if index == -1 {
      return false;
    }
    index := SkipSurgeSpaces(trimmed, index);
    return index < |trimmed| && trimmed[index] == ':';
  }

  method IsSurgeHeaderKeyStart(text: string, start: nat) returns (r: bool)
    requires start <= |text|
    ensures r == HeaderKeyStart(text[start..])
  {
    hide SkipSpaces, AfterQuotedKey;
    var index: int := SkipSurgeSpaces(text, start);
    ghost var v := text[index..];
    if index < |text| && (text[index] == '"' || text[index] == '\'') {
      index := ReadSurgeQuotedHeaderKey(text, index);
      if index == -1 {
        return false;
      }
    } else {
      var keyStart := index;
      while index < |text| && IsHeaderKeyChar(text[index])
        invariant keyStart <= index <= |text|
        invariant SkipHeaderKey(text[index..]) == SkipHeaderKey(v)
      {
        Tail(text, index);
        index := index + 1;
      }
      assert text[index..] == SkipHeaderKey(v);
      if index == keyStart {
        return false;
      }
    }
    index := SkipSurgeSpaces(text, index);
    return index < |text| && text[index] == ':';
  }

  method IsSurgeOptionStart(text: string, start: nat) returns (r: bool)
    requires start <= |text|
    ensures r == OptionStart(text[start..])
  {
    var index := SkipSurgeSpaces(text, start);
    ghost var v := text[index..];
    var keyStart := index;
    while index < |text| && IsOptionKeyChar(text[index])
      invariant keyStart <= index <= |text|
      invariant SkipOptionKey(text[index..]) == SkipOptionKey(v)
    {
      Tail(text, index);
      index := index + 1;
    }
    assert text[index..] == SkipOptionKey(v);
    if index == keyStart {
      return false;
    }
    index := SkipSurgeSpaces(text, index);
    return index < |text| && text[index] == '=';
  }

  method IsSurgeHeaderValueQuoteEnd(text: string, index: nat, sep: char, allowCommaEnd: bool, containerQuote: char)
    returns (r: bool)
    requires index < |text|
    ensures r == ValueQuoteEnd(text[index + 1..], sep, allowCommaEnd, containerQuote)
  {
    var cursor := SkipSurgeSpaces(text, index + 1);
    if cursor >= |text| {
      return true;
    }
    Tail(text, cursor);
    if allowCommaEnd && text[cursor] == ',' {
      var option := IsSurgeOptionStart(text, cursor + 1);
      if option {
        return true;
      }
    }
    if text[cursor] == sep {
      var key := IsSurgeHeaderKeyStart(text, cursor + 1);
      if key {
        return true;
      }
    }
    if containerQuote != NONE && text[cursor] == containerQuote {
      var next := SkipSurgeSpaces(text, cursor + 1);
      return next >= |text| || text[next] == ',';
    }
    return false;
  }

  lemma UnquotedStep(u: string, x: string, sep: char, st: Scan)
    requires IsPairSeparator(sep) && u != "" && u[1..] == x
    ensures UnquotedLength(u, sep, st) ==
            if st.quote == NONE && u[0] == ',' then 0 else 1 + UnquotedLength(x, sep, Advance(u, sep, true, NONE, st))
  {
  }

  method ReadSurgeUnquotedHeadersEnd(text: string, start: nat, sep: char) returns (index: nat)
    requires start <= |text| && IsPairSeparator(sep)
    ensures index == start + UnquotedLength(text[start..], sep, START)
  {
    hide UnquotedLength, ValueQuoteEnd, HeaderKeyStart;
    index := start;
    var quote, quoteRole, seenSeparator := NONE, 0, false;
    ghost var total := start + UnquotedLength(text[start..], sep, START);
    while index < |text|
      invariant start <= index <= |text|
      invariant index + UnquotedLength(text[index..], sep, Scan(quote, quoteRole, seenSeparator)) == total
      invariant quote == NONE ==> quoteRole == 0
    {
      Tail(text, index);
      UnquotedStep(text[index..], text[index + 1..], sep, Scan(quote, quoteRole, seenSeparator));
      var ch := text[index];
      if quote != NONE {
        if ch == quote {
          var end := IsSurgeHeaderValueQuoteEnd(text, index, sep, true, NONE);
          if quoteRole == 1 || end {
            quote, quoteRole := NONE, 0;
          }
        }
        index := index + 1;
        continue;
      }
      if ch == '"' || ch == '\'' {
        quote := ch;
        quoteRole := if seenSeparator then 2 else 1;
        index := index + 1;
        continue;
      }
      if ch == ':' && !seenSeparator {
        seenSeparator := true;
        index := index + 1;
        continue;
      }
      var key := IsSurgeHeaderKeyStart(text, index + 1);
      if ch == sep && key {
        seenSeparator := false;
        index := index + 1;
        continue;
      }
      if ch == ',' {
        break;
      }
      index := index + 1;
    }
    if index == |text| {
      UnquotedEmpty(text[index..], sep, Scan(quote, quoteRole, seenSeparator));
    }
  }

  lemma UnquotedEmpty(u: string, sep: char, st: Scan)
    requires IsPairSeparator(sep) && u == ""
    ensures UnquotedLength(u, sep, st) == 0
  {
  }

  lemma QuotedStep(u: string, x: string, sep: char, quote: char, st: Scan)
    requires IsPairSeparator(sep) && IsQuote(quote) && u != "" && u[1..] == x
    ensures QuotedLength(u, sep, quote, st) ==
            if st.quote == NONE && u[0] == quote && FieldEndsHere(x) then 1
            else 1 + QuotedLength(x, sep, quote, Advance(u, sep, false, quote, st))
  {
  }

  lemma SplitStep(u: string, x: string, sep: char, st: Scan)
    requires IsPairSeparator(sep) && u != "" && u[1..] == x
    ensures SplitPairs(u, sep, st) ==
            var rest := SplitPairs(x, sep, Advance(u, sep, false, NONE, st));
            if st.quote == NONE && u[0] == sep && HeaderKeyStart(x) then [""] + rest else Prepend([u[0]], rest)
  {
  }

  method ReadSurgeQuotedHeadersEnd(text: string, start: nat, sep: char) returns (end: nat)
    requires start < |text| && IsPairSeparator(sep) && IsQuote(text[start])
    ensures end == start + 1 + QuotedLength(text[start + 1..], sep, text[start], START)
  {
    hide ValueQuoteEnd, HeaderKeyStart;
    var quote := text[start];
    var index := start + 1;
    var innerQuote, quoteRole, seenSeparator := NONE, 0, false;
    ghost var total := start + 1 + QuotedLength(text[start + 1..], sep, quote, START);
    while index < |text|
      invariant start < index <= |text|
      invariant index + QuotedLength(text[index..], sep, quote, Scan(innerQuote, quoteRole, seenSeparator)) == total
      invariant innerQuote == NONE ==> quoteRole == 0
    {
      Tail(text, index);
      QuotedStep(text[index..], text[index + 1..], sep, quote, Scan(innerQuote, quoteRole, seenSeparator));
      var ch := text[index];
      if innerQuote != NONE {
        if ch == innerQuote {
          var closes := IsSurgeHeaderValueQuoteEnd(text, index, sep, false, quote);
          if quoteRole == 1 || closes {
            innerQuote, quoteRole := NONE, 0;
          }
        }
        index := index + 1;
        continue;
      }
      if ch == quote {
        var cursor := SkipSurgeSpaces(text, index + 1);
        if cursor >= |text| || text[cursor] == ',' {
          return index + 1;
        }
      }
      if ch == '"' || ch == '\'' {
        innerQuote := ch;
        quoteRole := if seenSeparator then 2 else 1;
        index := index + 1;
        continue;
      }
      if ch == ':' && !seenSeparator {
        seenSeparator := true;
        index := index + 1;
        continue;
      }
      var key := IsSurgeHeaderKeyStart(text, index + 1);
      if ch == sep && key {
        seenSeparator := false;
        index := index + 1;
        continue;
      }
      index := index + 1;
    }
    return |text|;
  }

  method ReadSurgeHeadersEnd(text: string, start: nat, sep: char) returns (end: nat)
    requires start <= |text| && IsPairSeparator(sep)
    ensures end == start + HeadersLength(text[start..], sep)
  {
    var index := SkipSurgeSpaces(text, start);
    if index < |text| && (text[index] == '"' || text[index] == '\'') {
      var quotedKey := StartsWithSurgeQuotedHeaderKey(text[index..]);
      if !quotedKey {
        Tail(text, index);
        end := ReadSurgeQuotedHeadersEnd(text, index, sep);
        return;
      }
    }
    end := ReadSurgeUnquotedHeadersEnd(text, index, sep);
  }

  method SplitHeadersValue(s: string, sep: char) returns (result: seq<string>)
    requires IsPairSeparator(sep)
    ensures result == SplitPairs(s, sep, START)
  {
    hide SplitPairs, HeaderKeyStart, ValueQuoteEnd, Prepend;
    result := [];
    var start := 0;
    var quote, quoteRole, seenSeparator := NONE, 0, false;
    ghost var total := SplitPairs(s, sep, START);
    assert s[0..] == s && s[0..0] == "";
    PrependEmpty(total);
    for index := 0 to |s|
      invariant 0 <= start <= index
      invariant result + Prepend(s[start..index], SplitPairs(s[index..], sep, Scan(quote, quoteRole, seenSeparator))) == total
      invariant quote == NONE ==> quoteRole == 0
    {
      Tail(s, index);
      var ch := s[index];
      SplitStep(s[index..], s[index + 1..], sep, Scan(quote, quoteRole, seenSeparator));
      ghost var next := Advance(s[index..], sep, false, NONE, Scan(quote, quoteRole, seenSeparator));
      ghost var rest := SplitPairs(s[index + 1..], sep, next);
      assert s[start..index] + [ch] == s[start..index + 1];
      PrependChar(s[start..index], ch, rest);
      PrependCut(result, s[start..index], rest);
      if quote != NONE {
        if ch == quote {
          var end := IsSurgeHeaderValueQuoteEnd(s, index, sep, false, NONE);
          if quoteRole == 1 || end {
            quote, quoteRole := NONE, 0;
          }
        }
        assert Scan(quote, quoteRole, seenSeparator) == next;
        continue;
      }
      if ch == '"' || ch == '\'' {
        quote := ch;
        quoteRole := if seenSeparator then 2 else 1;
        assert Scan(quote, quoteRole, seenSeparator) == next;
        continue;
      }
      if ch == ':' && !seenSeparator {
        seenSeparator := true;
        assert Scan(quote, quoteRole, seenSeparator) == next;
        continue;
      }
      var key := IsSurgeHeaderKeyStart(s, index + 1);
      if ch == sep && key {
        result := result + [s[start..index]];
        start := index + 1;
        seenSeparator := false;
        assert s[index + 1..index + 1] == "";
      }
      assert Scan(quote, quoteRole, seenSeparator) == next;
    }
    assert s[|s|..] == "" && s[start..|s|] == s[start..];
    SplitNothing(s[start..], sep, Scan(quote, quoteRole, seenSeparator));
    result := result + [s[start..]];
  }

  lemma SplitNothing(x: string, sep: char, st: Scan)
    requires IsPairSeparator(sep)
    ensures Prepend(x, SplitPairs("", sep, st)) == [x]
  {
    assert x + "" == x;
  }

  lemma PrependEmpty(ps: seq<string>)
    requires ps != []
    ensures Prepend("", ps) == ps && [] + Prepend("", ps) == ps
  {
    assert "" + ps[0] == ps[0];
  }

  lemma PrependChar(x: string, c: char, ps: seq<string>)
    requires ps != []
    ensures Prepend(x, Prepend([c], ps)) == Prepend(x + [c], ps)
  {
    assert x + ([c] + ps[0]) == x + [c] + ps[0];
  }

  lemma PrependCut(result: seq<string>, x: string, ps: seq<string>)
    requires ps != []
    ensures result + Prepend(x, [""] + ps) == result + [x] + Prepend("", ps)
  {
    assert x + "" == x;
    PrependEmpty(ps);
  }

  method FindSurgeHeaderSeparator(pair: string) returns (r: int)
    ensures r == SeparatorIndex(pair, NONE)
  {
    var quote := NONE;
    assert pair[0..] == pair;
    for index := 0 to |pair|
      invariant var k := SeparatorIndex(pair[index..], quote); SeparatorIndex(pair, NONE) == if k == -1 then -1 else k + index
    {
      Tail(pair, index);
      var ch := pair[index];
      if quote != NONE {
        if ch == quote {
          quote := NONE;
        }
        continue;
      }
      if ch == '"' || ch == '\'' {
        quote := ch;
        continue;
      }
      if ch == ':' {
        return index;
      }
    }
    return -1;
  }

  method ParseSurgeHeaders(s: string, sep: char) returns (result: map<string, string>)
    requires IsPairSeparator(sep)
    ensures result == ParseHeaders(s, sep)
  {
    result := map[];
    var pairs := SplitHeadersValue(StripOuterQuotes(s), sep);
    assert pairs[0..] == pairs;
    for i := 0 to |pairs|
      invariant EnterPairs(pairs[i..], result) == EnterPairs(pairs, map[])
    {
      assert pairs[i..][1..] == pairs[i + 1..];
      var idx := FindSurgeHeaderSeparator(pairs[i]);
      if idx == -1 {
        continue;
      }
      var key := TrimQuotes(TrimSpace(pairs[i][..idx]));
      var value := TrimQuotes(TrimSpace(pairs[i][idx + 1..]));
      if key != "" {
        result := result[key := value];
      }
    }
  }

  /** Steps over one quoted region: the position after the closing quote, or the end. */
  method SkipQuoted(s: string, start: nat) returns (j: nat)
    requires start < |s|
    ensures var k := IndexByte(s[start + 1..], s[start]);
            j == if k == -1 then |s| else start + 1 + k
  {
    var q := s[start];
    ghost var body := s[start + 1..];
    j := start + 1;
    while j < |s| && s[j] != q
      invariant start < j <= |s|
      invariant q !in s[start + 1..j]
    {
      j := j + 1;
    }
    assert body[..j - start - 1] == s[start + 1..j];
    if j < |s| {
      IndexByteUnique(body, q, j - start - 1);
    } else {
      IndexByteIsFirst(body, q);
    }
  }

  method SkipBracketGroup(s: string, start: nat) returns (j: nat)
    requires start <= |s|
    ensures j == start + BracketLength(s[start..])
  {
    j := start;
    while j < |s| && s[j] != ']'
      invariant start <= j <= |s| + 1
      invariant j <= |s| ==> j + BracketLength(s[j..]) == start + BracketLength(s[start..])
      invariant j > |s| ==> j == start + BracketLength(s[start..])
    {
      Tail(s, j);
      if s[j] == '"' || s[j] == '\'' {
        var k := SkipQuoted(s, j);
        Slide(s, j, if k < |s| then k + 1 - j else 0);
        j := k;
      }
      j := j + 1;
    }
    if j < |s| {
      Tail(s, j);
      j := j + 1;
    }
  }

  /** Where the scan for the comma ends once it stands at `j`. */
  function PlainEnd(s: string, j: nat): nat
    requires j <= |s| + 1
  {
    if j <= |s| then j + PlainLength(s[j..]) else j
  }

  lemma PlainOverQuote(s: string, j: nat, k: int)
    requires j < |s| && IsQuote(s[j]) && k == IndexByte(s[j + 1..], s[j])
    ensures PlainEnd(s, j) == PlainEnd(s, if k == -1 then |s| else j + k + 2)
  {
    Tail(s, j);
    if k == -1 {
      assert s[|s|..] == "";
    } else {
      Slide(s, j, k + 2);
    }
  }

  lemma PlainOverGroup(s: string, j: nat)
    requires j < |s| && s[j] == '['
    ensures PlainEnd(s, j) == PlainEnd(s, j + 1 + BracketLength(s[j + 1..]))
  {
    hide BracketLength;
    Tail(s, j);
    var b := 1 + BracketLength(s[j + 1..]);
    if j + b <= |s| {
      Slide(s, j, b);
    }
  }

  lemma PlainOverOther(s: string, j: nat)
    requires j < |s| && s[j] != ',' && s[j] != '[' && !IsQuote(s[j])
    ensures PlainEnd(s, j) == PlainEnd(s, j + 1)
  {
    Tail(s, j);
  }

  lemma PlainStops(s: string, j: nat)
    requires j <= |s| + 1 && (j >= |s| || s[j] == ',')
    ensures PlainEnd(s, j) == j
  {
  }

  method ScanToComma(s: string, start: nat) returns (j: nat)
    requires start <= |s|
    ensures j == start + PlainLength(s[start..])
  {
    hide PlainEnd, PlainLength, BracketLength, IndexByte;
    j := start;
    assert PlainEnd(s, start) == start + PlainLength(s[start..]) by {
      PlainEndIs(s, start);
    }
    while j < |s| && s[j] != ','
      invariant start <= j <= |s| + 1
      invariant PlainEnd(s, j) == PlainEnd(s, start)
    {
      if s[j] == '"' || s[j] == '\'' {
        PlainOverQuote(s, j, IndexByte(s[j + 1..], s[j]));
        j := SkipQuoted(s, j);
        if j < |s| {
          j := j + 1;
        }
      } else if s[j] == '[' {
        PlainOverGroup(s, j);
        j := SkipBracketGroup(s, j + 1);
      } else {
        PlainOverOther(s, j);
        j := j + 1;
      }
    }
    PlainStops(s, j);
  }

  lemma PlainEndIs(s: string, start: nat)
    requires start <= |s|
    ensures PlainEnd(s, start) == start + PlainLength(s[start..])
  {
  }

  lemma PlainPartKeyed(u: string, v: string, k: nat, y: string, e: nat)
    requires v == SkipSpaces(u) && k == KeyLength(v) && k < |v| && v[k] == '='
    requires y == SkipSpaces(v[k + 1..]) && e == ValueLength(OptionKey(v[..k]), y)
    ensures PlainPart(u) == y[e..]
  {
  }

  lemma PlainPartUnkeyed(u: string, v: string, k: nat)
    requires v == SkipSpaces(u) && k == KeyLength(v) && (k == |v| || v[k] != '=')
    ensures PlainPart(u) == v[k..]
  {
  }

  /** One round of the field loop: from the start of a field to the comma after it. */
  method ReadField(s: string, i: nat) returns (j: nat)
    requires i < |s|
    ensures j == i + FieldLength(s[i..])
  {
    hide PlainPart, PlainLength, OptionKey, ValueLength, SkipSpaces, KeyLength;
    ghost var u := s[i..];
    j := SkipSurgeSpaces(s, i);
    ghost var from := j;
    ghost var v := s[from..];
    var key := "";
    key, j := ReadKey(s, j);
    ghost var k := j - from;
    Slide(s, from, k);
    if j < |s| && s[j] == '=' {
      Slide(s, from, k + 1);
      j := SkipSurgeSpaces(s, j + 1);
      ghost var valueStart := j;
      j := ReadOptionValue(s, OptionKey(key), j);
      Slide(s, valueStart, j - valueStart);
      PlainPartKeyed(u, v, k, s[valueStart..], j - valueStart);
    } else {
      PlainPartUnkeyed(u, v, k);
    }
    j := ScanToComma(s, j);
  }

  method ReadKey(s: string, start: nat) returns (key: string, j: nat)
    requires start <= |s|
    ensures start <= j <= |s| && j == start + KeyLength(s[start..])
    ensures key == s[start..][..j - start]
  {
    j := start;
    ghost var total := start + KeyLength(s[start..]);
    while j < |s| && s[j] != '=' && s[j] != ','
      invariant start <= j <= |s|
      invariant j + KeyLength(s[j..]) == total
    {
      Tail(s, j);
      j := j + 1;
    }
    KeyStops(s[j..]);
    key := s[start..j];
    assert key == s[start..][..j - start];
  }

  lemma KeyStops(u: string)
    requires u == "" || u[0] == '=' || u[0] == ','
    ensures KeyLength(u) == 0
  {
  }

  /** The switch on the option key. */
  method ReadOptionValue(s: string, key: string, start: nat) returns (j: nat)
    requires start <= |s|
    ensures j == start + ValueLength(key, s[start..])
  {
    j := start;
    if key == "headers" {
      j := ReadSurgeHeadersEnd(s, j, ';');
    } else if key == "ws-headers" {
      j := ReadSurgeHeadersEnd(s, j, '|');
    } else if key == "alpn" {
      if j < |s| && (s[j] == '"' || s[j] == '\'') {
        Tail(s, j);
        var close := SkipQuoted(s, j);
        j := if close < |s| then close + 1 else |s|;
      }
    }
  }

  /** splitSurgeFields; None stands for the panic of a slice bound past the text. */
  method SplitSurgeFields(s: string) returns (fields: Option<seq<string>>)
    ensures fields == Fields(s)
  {
    hide FieldLength, Resume, TrimSpace, Fields;
    var out := [];
    var i, n := 0, |s|;
    assert s[0..] == s;
    ResumeNothing(s);
    while i < n
      invariant 0 <= i <= n
      invariant Resume(out, RawFields(s[i..])) == Fields(s)
    {
      var j := ReadField(s, i);
      if j > n {
        ResumePanics(out, RawFields(s[i..]));
        return None;
      }
      assert s[i..][..j - i] == s[i..j];
      ResumeField(out, s[i..j], RawFields(if j < n then s[j + 1..] else ""));
      out := out + [TrimSpace(s[i..j])];
      if j < n {
        Slide(s, i, j - i + 1);
        j := j + 1;
      }
      i := j;
    }
    ResumeEnd(out, s[n..]);
    return Some(out);
  }

  lemma ResumePanics(out: seq<string>, rest: Option<seq<string>>)
    requires rest.None?
    ensures Resume(out, rest) == None
  {
  }

  /** The fields found so far, then those of the rest. */
  function Resume(out: seq<string>, rest: Option<seq<string>>): Option<seq<string>> {
    if rest.None? then None else Some(out + TrimAll(rest.value))
  }

  lemma ResumeNothing(s: string)
    ensures Resume([], RawFields(s)) == Fields(s)
  {
    var raw := RawFields(s);
    assert raw.Some? ==> [] + TrimAll(raw.value) == TrimAll(raw.value);
  }

  lemma ResumeField(out: seq<string>, f: string, rest: Option<seq<string>>)
    ensures Resume(out, if rest.None? then None else Some([f] + rest.value)) == Resume(out + [TrimSpace(f)], rest)
  {
    if rest.Some? {
      assert TrimAll([f] + rest.value) == [TrimSpace(f)] + TrimAll(rest.value);
      assert out + ([TrimSpace(f)] + TrimAll(rest.value)) == out + [TrimSpace(f)] + TrimAll(rest.value);
    }
  }

  lemma ResumeEnd(out: seq<string>, s: string)
    requires s == ""
    ensures Resume(out, RawFields(s)) == Some(out)
  {
    assert out + TrimAll([]) == out;
  }

  /** formatSurgeHeaderMap: the map is visited in an order the runtime picks. */
  method FormatHeaderMap(headers: map<string, string>, separator: char) returns (text: string)
    ensures exists order :: Visits(order, headers) && text == FormatSurgeHeaderMap(headers, order, separator)
  {
    var parts := [];
    ghost var order: seq<string> := [];
    var remaining := headers.Keys;
    while remaining != {}
      invariant remaining <= headers.Keys
      invariant forall k :: k in order <==> k in headers && k !in remaining
      invariant forall i, j :: 0 <= i < j < |order| ==> order[i] != order[j]
      invariant parts == HeaderParts(headers, order)
      decreases remaining
    {
      var key :| key in remaining;
      remaining := remaining - {key};
      PartsSnoc(headers, order, key);
      order := order + [key];
      if TrimSpace(key) == "" {
        continue;
      }
      parts := parts + [key + ":" + QuoteSurgeValue(headers[key])];
    }
    text := Join(parts, [separator]);
    assert Visits(order, headers);
  }

  lemma {:induction false} PartsSnoc(headers: map<string, string>, order: seq<string>, key: string)
    requires key in headers && forall k :: k in order ==> k in headers
    ensures HeaderParts(headers, order + [key]) ==
            HeaderParts(headers, order) + if TrimSpace(key) == "" then [] else [key + ":" + QuoteSurgeValue(headers[key])]
    decreases |order|
  {
    if order != [] {
      assert (order + [key])[1..] == order[1..] + [key];
      PartsSnoc(headers, order[1..], key);
    }
  }
}
