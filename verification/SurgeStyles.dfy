/** Headers in every style the reader takes: names and values bare or in quotes of either
    kind, with blanks around them. */
module SurgeStyles {
  import opened GoStrings
  import opened SurgeHeaders
  import opened SurgeFields
  import opened SurgeRoundTrip
  import opened SurgeExact

  /** One pair: its quotes (NONE for bare text) and the blanks in front of the name, around
      the colon and behind the value. */
  datatype Styled = Styled(
    name: string, value: string, nameQuote: char, valueQuote: char,
    a: string, b: string, c: string, d: string)

  function Quoted(q: char, x: string): string {
    if q == NONE then x else [q] + (x + [q])
  }

  function PairText(p: Styled): string {
    p.a + (Quoted(p.nameQuote, p.name) + (p.b + (":" + (p.c + (Quoted(p.valueQuote, p.value) + p.d)))))
  }

  predicate Blanks(w: string) {
    forall i :: 0 <= i < |w| ==> IsSurgeSpace(w[i])
  }

  predicate IsStyle(q: char) { q == NONE || IsQuote(q) }

  /** A plain name and a trimmed value without quote characters; a bare value does not hold
      the separator either. */
  predicate Proper(p: Styled, sep: char) {
    && PlainName(p.name) && Trimmed(p.value) && QuoteFree(p.value)
    && IsStyle(p.nameQuote) && IsStyle(p.valueQuote)
    && Blanks(p.a) && Blanks(p.b) && Blanks(p.c) && Blanks(p.d)
    && (p.valueQuote == NONE ==> sep !in p.value)
  }

  predicate AllProper(ps: seq<Styled>, sep: char) {
    forall i :: 0 <= i < |ps| ==> Proper(ps[i], sep)
  }

  function Texts(ps: seq<Styled>): (ts: seq<string>)
    ensures |ts| == |ps|
  {
    if ps == [] then [] else [PairText(ps[0])] + Texts(ps[1..])
  }

  function Text(ps: seq<Styled>, sep: char): string {
    Join(Texts(ps), [sep])
  }

  /** The map the pairs spell, later names winning. */
  function MapOf(ps: seq<Styled>, m: map<string, string>): map<string, string> {
    if ps == [] then m else MapOf(ps[1..], m[ps[0].name := ps[0].value])
  }

  // ---- walking any of the three scanners over a text ----

  /** The scanner's state after `w`, with `x` still to come. */
  function Run(w: string, x: string, sep: char, allow: bool, cont: char, st: Scan): Scan
    decreases |w|
  {
    if w == "" then st else Run(w[1..], x, sep, allow, cont, Advance(w + x, sep, allow, cont, st))
  }

  /** None of the characters at which a scanner may stop comes by outside quotes. */
  predicate Quiet(w: string, x: string, sep: char, allow: bool, cont: char, st: Scan, stops: set<char>)
    decreases |w|
  {
    w == "" || (!(st.quote == NONE && w[0] in stops) && Quiet(w[1..], x, sep, allow, cont, Advance(w + x, sep, allow, cont, st), stops))
  }

  lemma {:induction false} RunThen(w: string, v: string, x: string, sep: char, allow: bool, cont: char, st: Scan, stops: set<char>)
    ensures Run(w + v, x, sep, allow, cont, st) == Run(v, x, sep, allow, cont, Run(w, v + x, sep, allow, cont, st))
    ensures Quiet(w + v, x, sep, allow, cont, st, stops) <==>
            Quiet(w, v + x, sep, allow, cont, st, stops) && Quiet(v, x, sep, allow, cont, Run(w, v + x, sep, allow, cont, st), stops)
    decreases |w|
  {
    hide Advance;
    if w == "" {
      assert w + v == v;
    } else {
      assert (w + v)[1..] == w[1..] + v;
      Assoc(w, v, x);
      RunThen(w[1..], v, x, sep, allow, cont, Advance(w + (v + x), sep, allow, cont, st), stops);
    }
  }

  lemma {:induction false} UnquotedOver(w: string, x: string, sep: char, st: Scan)
    requires IsPairSeparator(sep) && Quiet(w, x, sep, true, NONE, st, {','})
    ensures UnquotedLength(w + x, sep, st) == |w| + UnquotedLength(x, sep, Run(w, x, sep, true, NONE, st))
    decreases |w|
  {
    hide Advance;
    if w == "" {
      assert w + x == x;
    } else {
      assert (w + x)[1..] == w[1..] + x;
      UnquotedOver(w[1..], x, sep, Advance(w + x, sep, true, NONE, st));
    }
  }

  lemma {:induction false} QuotedOver(w: string, x: string, sep: char, q: char, st: Scan)
    requires IsPairSeparator(sep) && IsQuote(q) && Quiet(w, x, sep, false, q, st, {q})
    ensures QuotedLength(w + x, sep, q, st) == |w| + QuotedLength(x, sep, q, Run(w, x, sep, false, q, st))
    decreases |w|
  {
    hide Advance, FieldEndsHere;
    if w == "" {
      assert w + x == x;
    } else {
      assert (w + x)[1..] == w[1..] + x;
      QuotedOver(w[1..], x, sep, q, Advance(w + x, sep, false, q, st));
    }
  }

  lemma {:induction false} SplitOver(w: string, x: string, sep: char, st: Scan)
    requires IsPairSeparator(sep) && Quiet(w, x, sep, false, NONE, st, {sep})
    ensures SplitPairs(w + x, sep, st) == Prepend(w, SplitPairs(x, sep, Run(w, x, sep, false, NONE, st)))
    decreases |w|
  {
    hide Advance, HeaderKeyStart;
    if w == "" {
      assert w + x == x;
      PrependNothing(SplitPairs(x, sep, st));
    } else {
      assert (w + x)[1..] == w[1..] + x;
      var next := Advance(w + x, sep, false, NONE, st);
      SplitOver(w[1..], x, sep, next);
      PrependTwice([w[0]], w[1..], SplitPairs(x, sep, Run(w[1..], x, sep, false, NONE, next)));
      assert [w[0]] + w[1..] == w;
    }
  }

  // ---- the pieces of a pair ----

  predicate CanStop(stops: set<char>, sep: char) {
    forall c :: c in stops ==> c == ',' || c == sep || IsQuote(c)
  }

  lemma {:induction false} OverBlanks(w: string, x: string, sep: char, allow: bool, cont: char, st: Scan, stops: set<char>)
    requires IsPairSeparator(sep) && Blanks(w) && st.quote == NONE && CanStop(stops, sep)
    ensures Run(w, x, sep, allow, cont, st) == st && Quiet(w, x, sep, allow, cont, st, stops)
    decreases |w|
  {
    hide HeaderKeyStart, ValueQuoteEnd;
    if w != "" {
      OverBlanks(w[1..], x, sep, allow, cont, st, stops);
    }
  }

  lemma {:induction false} OverPlainName(w: string, x: string, sep: char, allow: bool, cont: char, stops: set<char>)
    requires IsPairSeparator(sep) && (forall i :: 0 <= i < |w| ==> IsNameChar(w[i])) && CanStop(stops, sep)
    ensures Run(w, x, sep, allow, cont, START) == START && Quiet(w, x, sep, allow, cont, START, stops)
    decreases |w|
  {
    hide HeaderKeyStart, ValueQuoteEnd;
    if w != "" {
      OverPlainName(w[1..], x, sep, allow, cont, stops);
    }
  }

  lemma {:induction false} OverInside(w: string, x: string, sep: char, allow: bool, cont: char, st: Scan, stops: set<char>)
    requires st.quote != NONE && st.quote !in w
    ensures Run(w, x, sep, allow, cont, st) == st && Quiet(w, x, sep, allow, cont, st, stops)
    decreases |w|
  {
    hide HeaderKeyStart, ValueQuoteEnd;
    if w != "" {
      assert w[0] in w && forall c :: c in w[1..] ==> c in w;
      OverInside(w[1..], x, sep, allow, cont, st, stops);
    }
  }

  lemma {:induction false} OverBare(w: string, x: string, sep: char, allow: bool, cont: char, stops: set<char>)
    requires IsPairSeparator(sep) && QuoteFree(w) && sep !in w && forall c :: c in stops ==> c !in w
    ensures Run(w, x, sep, allow, cont, Out(true)) == Out(true) && Quiet(w, x, sep, allow, cont, Out(true), stops)
    decreases |w|
  {
    hide HeaderKeyStart, ValueQuoteEnd;
    if w != "" {
      assert w[0] in w && forall c :: c in w[1..] ==> c in w;
      OverBare(w[1..], x, sep, allow, cont, stops);
    }
  }

  lemma OneStep(c: char, x: string, sep: char, allow: bool, cont: char, st: Scan, stops: set<char>)
    ensures Run([c], x, sep, allow, cont, st) == Advance([c] + x, sep, allow, cont, st)
    ensures Quiet([c], x, sep, allow, cont, st, stops) <==> !(st.quote == NONE && c in stops)
  {
    assert [c][1..] == "";
  }

  /** A name, bare or in quotes. */
  lemma OverQuotedName(q: char, name: string, x: string, sep: char, allow: bool, cont: char, stops: set<char>)
    requires IsPairSeparator(sep) && PlainName(name) && IsStyle(q) && q !in stops && CanStop(stops, sep)
    ensures Run(Quoted(q, name), x, sep, allow, cont, START) == START && Quiet(Quoted(q, name), x, sep, allow, cont, START, stops)
  {
    hide HeaderKeyStart, ValueQuoteEnd, Run, Quiet;
    if q == NONE {
      OverPlainName(name, x, sep, allow, cont, stops);
    } else {
      var st := Scan(q, 1, false);
      RunThen([q], name + [q], x, sep, allow, cont, START, stops);
      OneStep(q, (name + [q]) + x, sep, allow, cont, START, stops);
      RunThen(name, [q], x, sep, allow, cont, st, stops);
      assert q !in name;
      OverInside(name, [q] + x, sep, allow, cont, st, stops);
      OneStep(q, x, sep, allow, cont, st, stops);
    }
  }

  /** A value, bare or in quotes that close. */
  lemma OverQuotedValue(q: char, v: string, x: string, sep: char, allow: bool, cont: char, stops: set<char>)
    requires IsPairSeparator(sep) && QuoteFree(v) && IsStyle(q) && q !in stops && CanStop(stops, sep)
    requires if q == NONE then sep !in v && forall c :: c in stops ==> c !in v else ValueQuoteEnd(x, sep, allow, cont)
    ensures Run(Quoted(q, v), x, sep, allow, cont, Out(true)) == Out(true) && Quiet(Quoted(q, v), x, sep, allow, cont, Out(true), stops)
  {
    hide HeaderKeyStart, ValueQuoteEnd, Run, Quiet;
    if q == NONE {
      OverBare(v, x, sep, allow, cont, stops);
    } else {
      var st := Scan(q, 2, true);
      RunThen([q], v + [q], x, sep, allow, cont, Out(true), stops);
      OneStep(q, (v + [q]) + x, sep, allow, cont, Out(true), stops);
      RunThen(v, [q], x, sep, allow, cont, st, stops);
      assert q !in v;
      OverInside(v, [q] + x, sep, allow, cont, st, stops);
      OneStep(q, x, sep, allow, cont, st, stops);
      assert ([q] + x)[1..] == x;
    }
  }

  /** A whole pair, from the start of its text to its end. */
  lemma OverPair(p: Styled, x: string, sep: char, allow: bool, cont: char, stops: set<char>)
    requires IsPairSeparator(sep) && Proper(p, sep) && CanStop(stops, sep)
    requires p.nameQuote !in stops && p.valueQuote !in stops
    requires if p.valueQuote == NONE then forall c :: c in stops ==> c !in p.value else ValueQuoteEnd(p.d + x, sep, allow, cont)
    ensures Run(PairText(p), x, sep, allow, cont, START) == Out(true) && Quiet(PairText(p), x, sep, allow, cont, START, stops)
  {
    hide HeaderKeyStart, ValueQuoteEnd, Run, Quiet, Quoted;
    var n, v := Quoted(p.nameQuote, p.name), Quoted(p.valueQuote, p.value);
    var t5 := v + p.d;
    var t4 := p.c + t5;
    var t3 := ":" + t4;
    var t2 := p.b + t3;
    var t1 := n + t2;
    RunThen(p.a, t1, x, sep, allow, cont, START, stops);
    OverBlanks(p.a, t1 + x, sep, allow, cont, START, stops);
    RunThen(n, t2, x, sep, allow, cont, START, stops);
    OverQuotedName(p.nameQuote, p.name, t2 + x, sep, allow, cont, stops);
    RunThen(p.b, t3, x, sep, allow, cont, START, stops);
    OverBlanks(p.b, t3 + x, sep, allow, cont, START, stops);
    RunThen(":", t4, x, sep, allow, cont, START, stops);
    OneStep(':', t4 + x, sep, allow, cont, START, stops);
    RunThen(p.c, t5, x, sep, allow, cont, Out(true), stops);
    OverBlanks(p.c, t5 + x, sep, allow, cont, Out(true), stops);
    RunThen(v, p.d, x, sep, allow, cont, Out(true), stops);
    OverQuotedValue(p.valueQuote, p.value, p.d + x, sep, allow, cont, stops);
    OverBlanks(p.d, x, sep, allow, cont, Out(true), stops);
  }

  // ---- where pairs begin and end ----

  lemma {:induction false} SkipBlanks(w: string, x: string)
    requires Blanks(w)
    ensures SkipSpaces(w + x) == SkipSpaces(x)
    decreases |w|
  {
    if w == "" {
      assert w + x == x;
    } else {
      assert (w + x)[1..] == w[1..] + x;
      SkipBlanks(w[1..], x);
    }
  }

  lemma {:induction false} SkipWholeKey(k: string, x: string)
    requires (forall i :: 0 <= i < |k| ==> IsNameChar(k[i])) && x != "" && !IsHeaderKeyChar(x[0])
    ensures SkipHeaderKey(k + x) == x
    decreases |k|
  {
    if k == "" {
      assert k + x == x;
    } else {
      assert (k + x)[1..] == k[1..] + x;
      SkipWholeKey(k[1..], x);
    }
  }

  /** Behind a quoted name, blanks and a colon. */
  lemma QuotedNameEnds(q: char, name: string, rest: string)
    requires IsQuote(q) && PlainName(name)
    ensures AfterQuotedKey(Quoted(q, name) + rest) == Some(rest)
  {
    var u := Quoted(q, name) + rest;
    assert u[1..] == name + [q] + rest;
    assert u[1..][..|name|] == name && u[1..][|name|] == q && q !in name;
    IndexByteUnique(u[1..], q, |name|);
    assert u[|name| + 2..] == rest;
  }

  lemma ColonAhead(b: string, z: string)
    requires Blanks(b)
    ensures StartsWith(SkipSpaces(b + (":" + z)), ':')
  {
    SkipBlanks(b, ":" + z);
  }

  lemma NameStartsKey(p: Styled, z: string, sep: char)
    requires Proper(p, sep)
    ensures HeaderKeyStart(p.a + (Quoted(p.nameQuote, p.name) + (p.b + (":" + z))))
  {
    hide AfterQuotedKey, SkipHeaderKey, Quoted;
    var rest := p.b + (":" + z);
    var u := Quoted(p.nameQuote, p.name) + rest;
    SkipBlanks(p.a, u);
    ColonAhead(p.b, z);
    QuotedStart(p.nameQuote, p.name);
    assert SkipSpaces(u) == u;
    if p.nameQuote == NONE {
      BareName(p.name, rest);
      assert !IsHeaderKeyChar(rest[0]) by { assert rest[0] == if p.b == "" then ':' else p.b[0]; }
      SkipWholeKey(p.name, rest);
    } else {
      QuotedNameEnds(p.nameQuote, p.name, rest);
    }
  }

  lemma BareName(name: string, rest: string)
    ensures Quoted(NONE, name) + rest == name + rest
  {
  }

  lemma QuotedStart(q: char, name: string)
    requires IsStyle(q) && PlainName(name)
    ensures var w := Quoted(q, name); w != "" && w[0] == (if q == NONE then name[0] else q) && !IsSurgeSpace(w[0]) && (q == NONE ==> !IsQuote(w[0]))
  {
    assert IsNameChar(name[0]);
  }

  lemma PairShape(p: Styled, x: string)
    ensures PairText(p) + x
            == p.a + (Quoted(p.nameQuote, p.name) + (p.b + (":" + (p.c + (Quoted(p.valueQuote, p.value) + (p.d + x))))))
  {
    hide Quoted;
    var v := Quoted(p.valueQuote, p.value);
    Assoc(v, p.d, x);
    Assoc(p.c, v + p.d, x);
    Assoc(":", p.c + (v + p.d), x);
    Assoc(p.b, ":" + (p.c + (v + p.d)), x);
    Assoc(Quoted(p.nameQuote, p.name), p.b + (":" + (p.c + (v + p.d))), x);
    Assoc(p.a, Quoted(p.nameQuote, p.name) + (p.b + (":" + (p.c + (v + p.d)))), x);
  }

  /** A pair's text starts like a header key. */
  lemma PairStartsKey(p: Styled, x: string, sep: char)
    requires Proper(p, sep)
    ensures HeaderKeyStart(PairText(p) + x)
  {
    hide HeaderKeyStart, Quoted;
    PairShape(p, x);
    NameStartsKey(p, p.c + (Quoted(p.valueQuote, p.value) + (p.d + x)), sep);
  }

  /** Blanks in front of what ends a value do not matter. */
  lemma EndsBehindBlanks(d: string, x: string, sep: char, allow: bool, cont: char)
    requires Blanks(d)
    ensures ValueQuoteEnd(d + x, sep, allow, cont) == ValueQuoteEnd(x, sep, allow, cont)
  {
    SkipBlanks(d, x);
  }

  lemma TextCons(ps: seq<Styled>, sep: char)
    requires ps != []
    ensures Text(ps, sep) == PairText(ps[0]) + if |ps| == 1 then "" else [sep] + Text(ps[1..], sep)
  {
    hide PairText;
    JoinCons(PairText(ps[0]), Texts(ps[1..]), [sep]);
  }

  lemma TextStartsKey(ps: seq<Styled>, sep: char, x: string)
    requires ps != [] && AllProper(ps, sep)
    ensures HeaderKeyStart(Text(ps, sep) + x)
  {
    hide HeaderKeyStart, PairText, Proper;
    TextCons(ps, sep);
    var more := if |ps| == 1 then "" else [sep] + Text(ps[1..], sep);
    Assoc(PairText(ps[0]), more, x);
    PairStartsKey(ps[0], more + x, sep);
  }

  /** The next pair ends a value. */
  lemma NextPairEnds(ps: seq<Styled>, sep: char, d: string, x: string, allow: bool, cont: char)
    requires IsPairSeparator(sep) && ps != [] && AllProper(ps, sep) && Blanks(d)
    ensures ValueQuoteEnd(d + ([sep] + (Text(ps, sep) + x)), sep, allow, cont)
  {
    hide HeaderKeyStart;
    TextStartsKey(ps, sep, x);
    var u := [sep] + (Text(ps, sep) + x);
    assert u[1..] == Text(ps, sep) + x && SkipSpaces(u) == u;
    EndsBehindBlanks(d, u, sep, allow, cont);
  }

  // ---- the pair scanner ----

  lemma SeparatorCuts(x: string, sep: char)
    requires IsPairSeparator(sep) && HeaderKeyStart(x)
    ensures SplitPairs([sep] + x, sep, Out(true)) == [""] + SplitPairs(x, sep, START)
  {
    hide HeaderKeyStart, ValueQuoteEnd;
    assert ([sep] + x)[1..] == x;
  }

  lemma {:induction false} TextSplits(ps: seq<Styled>, sep: char)
    requires IsPairSeparator(sep) && ps != [] && AllProper(ps, sep)
    ensures SplitPairs(Text(ps, sep), sep, START) == Texts(ps)
    decreases |ps|
  {
    hide SplitPairs, PairText, Text, Run, Quiet, HeaderKeyStart, ValueQuoteEnd;
    var p, t := ps[0], PairText(ps[0]);
    TextCons(ps, sep);
    if |ps| == 1 {
      EndOfText(p.d, sep);
      OverPair(p, "", sep, false, NONE, {sep});
      SplitOver(t, "", sep, START);
      assert t + "" == t;
      NothingSplits(sep);
      PrependBlank(t, []);
      assert Texts(ps[1..]) == [];
    } else {
      var x := Text(ps[1..], sep);
      assert AllProper(ps[1..], sep);
      assert x + "" == x;
      NextPairEnds(ps[1..], sep, p.d, "", false, NONE);
      TextStartsKey(ps[1..], sep, "");
      OverPair(p, [sep] + x, sep, false, NONE, {sep});
      SplitOver(t, [sep] + x, sep, START);
      SeparatorCuts(x, sep);
      TextSplits(ps[1..], sep);
      PrependBlank(t, Texts(ps[1..]));
    }
  }

  lemma NothingSplits(sep: char)
    requires IsPairSeparator(sep)
    ensures SplitPairs("", sep, Out(true)) == [""] + []
  {
  }

  lemma EndOfText(d: string, sep: char)
    requires Blanks(d)
    ensures ValueQuoteEnd(d + "", sep, false, NONE)
  {
    SkipBlanks(d, "");
  }

  // ---- entering the pairs ----

  lemma {:induction false} SeparatorBehind(w: string, x: string, q: char)
    requires (q == NONE ==> QuoteFree(w) && ':' !in w) && (q != NONE ==> q !in w)
    ensures SeparatorIndex(w + x, q) == if SeparatorIndex(x, q) == -1 then -1 else |w| + SeparatorIndex(x, q)
    decreases |w|
  {
    if w == "" {
      assert w + x == x;
    } else {
      assert w[0] in w && forall c :: c in w[1..] ==> c in w;
      assert (w + x)[1..] == w[1..] + x;
      SeparatorBehind(w[1..], x, q);
    }
  }

  lemma SeparatorStep(c: char, x: string, q: char)
    requires IsQuote(c) && (q == NONE || q == c)
    ensures SeparatorIndex([c] + x, q)
            == var r := SeparatorIndex(x, if q == NONE then c else NONE); if r == -1 then -1 else r + 1
  {
    assert ([c] + x)[1..] == x;
  }

  lemma OverNameToColon(q: char, name: string, x: string)
    requires IsStyle(q) && PlainName(name) && SeparatorIndex(x, NONE) != -1
    ensures SeparatorIndex(Quoted(q, name) + x, NONE) == |Quoted(q, name)| + SeparatorIndex(x, NONE)
  {
    hide SeparatorIndex;
    assert QuoteFree(name) && ':' !in name by { assert forall i :: 0 <= i < |name| ==> IsNameChar(name[i]); }
    if q == NONE {
      SeparatorBehind(name, x, NONE);
    } else {
      QuotedText3(q, name, x);
      SeparatorStep(q, name + ([q] + x), NONE);
      assert q !in name;
      SeparatorBehind(name, [q] + x, q);
      SeparatorStep(q, x, q);
    }
  }

  lemma QuotedText3(q: char, name: string, x: string)
    requires IsQuote(q)
    ensures Quoted(q, name) + x == [q] + (name + ([q] + x))
  {
  }

  /** The pair's own colon is found, not one inside quotes or in the value. */
  lemma PairColon(p: Styled, sep: char)
    requires Proper(p, sep)
    ensures var t, w := PairText(p), p.a + (Quoted(p.nameQuote, p.name) + p.b);
            var z := p.c + (Quoted(p.valueQuote, p.value) + p.d);
            SeparatorIndex(t, NONE) == |w| && t[..|w|] == w && t[|w| + 1..] == z
  {
    hide SeparatorIndex, Quoted;
    var n, z := Quoted(p.nameQuote, p.name), p.c + (Quoted(p.valueQuote, p.value) + p.d);
    var x := p.b + (":" + z);
    BlanksArePlain(p.a);
    BlanksArePlain(p.b);
    ColonFound(z);
    SeparatorBehind(p.b, ":" + z, NONE);
    OverNameToColon(p.nameQuote, p.name, x);
    SeparatorBehind(p.a, n + x, NONE);
    ColonShape(p.a, n, p.b, z);
  }

  lemma ColonShape(a: string, n: string, b: string, z: string)
    ensures var t, w := a + (n + (b + (":" + z))), a + (n + b);
            t[..|w|] == w && t[|w| + 1..] == z && |w| == |a| + |n| + |b|
  {
    assert a + (n + (b + (":" + z))) == (a + (n + b)) + (":" + z);
  }

  lemma BlanksArePlain(w: string)
    requires Blanks(w)
    ensures QuoteFree(w) && ':' !in w
  {
  }

  lemma ColonFound(z: string)
    ensures SeparatorIndex(":" + z, NONE) == 0
  {
  }

  // ---- trimming ----

  lemma {:induction false} TrimLeftBlanks(w: string, x: string)
    requires Blanks(w)
    ensures TrimLeft(w + x) == TrimLeft(x)
    decreases |w|
  {
    if w == "" {
      assert w + x == x;
    } else {
      assert (w + x)[1..] == w[1..] + x;
      assert LeadingSpace(w + x) == 1;
      TrimLeftBlanks(w[1..], x);
    }
  }

  lemma {:induction false} TrimRightBlanks(x: string, w: string)
    requires Blanks(w)
    ensures TrimRight(x + w) == TrimRight(x)
    decreases |w|
  {
    var n := |w| - 1;
    if w == "" {
      assert x + w == x;
    } else {
      assert (x + w)[..|x + w| - 1] == x + w[..n];
      assert TrailingSpace(x + w) == 1;
      TrimRightBlanks(x, w[..n]);
    }
  }

  /** A blank does not complete a longer white-space rune in front of it. */
  lemma LeadingBeforeBlanks(x: string, w: string)
    requires Blanks(w) && x != ""
    ensures LeadingSpace(x + w) == LeadingSpace(x)
  {
  }

  /** Blanks around a trimmed text are all that is trimmed. */
  lemma TrimsBlanks(a: string, x: string, d: string)
    requires Blanks(a) && Blanks(d) && Trimmed(x)
    ensures TrimSpace(a + (x + d)) == x
  {
    hide LeadingSpace, TrailingSpace;
    TrimmedHasNoEdges(x);
    TrimLeftBlanks(a, x + d);
    TrimSpaceOf(a + (x + d));
    if x == "" {
      assert x + d == d + "" && TrimLeft("") == "";
      TrimLeftBlanks(d, "");
    } else {
      NoLeadingRune(x);
      LeadingBeforeBlanks(x, d);
      NoLeadingRune(x + d);
      TrimRightBlanks(x, d);
    }
  }

  lemma TrimSpaceOf(s: string)
    ensures TrimSpace(s) == TrimRight(TrimLeft(s))
  {
  }

  lemma NoLeadingRune(x: string)
    ensures TrimLeft(x) == x <==> LeadingSpace(x) == 0
  {
    hide LeadingSpace;
    if LeadingSpace(x) != 0 {
      TrimLeftShrinks(x[LeadingSpace(x)..]);
    }
  }

  /** A text in quotes is trimmed, and unquoting gives it back; a bare one is kept. */
  lemma QuotedUnquotes(q: char, x: string)
    requires IsStyle(q) && Trimmed(x) && QuoteFree(x)
    ensures Trimmed(Quoted(q, x)) && TrimQuotes(Quoted(q, x)) == x
  {
    if q != NONE {
      TrimKeepsEdges(Quoted(q, x));
    }
  }

  lemma EnterAt(t: string, w: string, z: string, name: string, value: string, m: map<string, string>)
    requires SeparatorIndex(t, NONE) == |w| && |w| < |t| && t[..|w|] == w && t[|w| + 1..] == z
    requires TrimQuotes(TrimSpace(w)) == name && name != "" && TrimQuotes(TrimSpace(z)) == value
    ensures EnterPair(t, m) == m[name := value]
  {
  }

  lemma NameIsTrimmed(name: string)
    requires PlainName(name)
    ensures Trimmed(name) && QuoteFree(name)
  {
    NameIsPlain(name);
    assert forall i :: 0 <= i < |name| ==> IsNameChar(name[i]);
  }

  /** One styled pair enters its name with its value, without their quotes. */
  lemma PairEnters(p: Styled, sep: char, m: map<string, string>)
    requires Proper(p, sep)
    ensures EnterPair(PairText(p), m) == m[p.name := p.value]
  {
    hide Quoted, TrimSpace, TrimQuotes, SeparatorIndex, PairText, EnterPair;
    PairColon(p, sep);
    NameIsTrimmed(p.name);
    QuotedUnquotes(p.nameQuote, p.name);
    QuotedUnquotes(p.valueQuote, p.value);
    TrimsBlanks(p.a, Quoted(p.nameQuote, p.name), p.b);
    TrimsBlanks(p.c, Quoted(p.valueQuote, p.value), p.d);
    EnterAt(PairText(p), p.a + (Quoted(p.nameQuote, p.name) + p.b), p.c + (Quoted(p.valueQuote, p.value) + p.d), p.name, p.value, m);
  }

  lemma {:induction false} PairsEnter(ps: seq<Styled>, sep: char, m: map<string, string>)
    requires AllProper(ps, sep)
    ensures EnterPairs(Texts(ps), m) == MapOf(ps, m)
    decreases |ps|
  {
    hide EnterPair, PairText, Proper;
    if ps != [] {
      PairEnters(ps[0], sep, m);
      var ts := Texts(ps[1..]);
      assert ([PairText(ps[0])] + ts)[1..] == ts;
      PairsEnter(ps[1..], sep, m[ps[0].name := ps[0].value]);
    }
  }

  /** A text that starts with a quoted name keeps its quotes. */
  lemma NothingStripped(ps: seq<Styled>, sep: char)
    requires ps != [] && AllProper(ps, sep) && Trimmed(Text(ps, sep))
    ensures StripOuterQuotes(Text(ps, sep)) == Text(ps, sep)
  {
    var t := Text(ps, sep);
    if t != "" && IsQuote(t[0]) {
      StartsWithName(ps, sep, "");
      assert t + "" == t;
    }
  }

  /** A quoted name, blanks and a colon, whatever follows. */
  lemma QuotedNameAhead(q: char, name: string, b: string, z: string)
    requires IsQuote(q) && PlainName(name) && Blanks(b)
    ensures StartsWithQuotedKey(Quoted(q, name) + (b + (":" + z)))
  {
    hide AfterQuotedKey, TrimLeft, TrimRight, TrimSpace;
    var n := Quoted(q, name);
    var u := n + (b + (":" + z));
    var t := n + (b + (":" + TrimRight(z)));
    ColonMiddle(n, b, z);
    ColonMiddle(n, b, TrimRight(z));
    TrimLeftKeeps(u);
    TrimRightStops(n + b, ':', z);
    TrimSpaceOf(u);
    assert TrimSpace(u) == t;
    assert t[0] == q;
    hide Quoted;
    QuotedNameEnds(q, name, b + (":" + TrimRight(z)));
    ColonAhead(b, TrimRight(z));
  }

  lemma ColonMiddle(n: string, b: string, z: string)
    ensures n + (b + (":" + z)) == (n + b) + [':'] + z
  {
  }

  /** A text that starts with a quote starts with a quoted name and a colon. */
  lemma StartsWithName(ps: seq<Styled>, sep: char, x: string)
    requires ps != [] && AllProper(ps, sep)
    requires Text(ps, sep) != "" && IsQuote(Text(ps, sep)[0])
    ensures StartsWithQuotedKey(Text(ps, sep) + x)
  {
    hide StartsWithQuotedKey, Quoted, PairText, Text;
    var p := ps[0];
    TextCons(ps, sep);
    var more := if |ps| == 1 then "" else [sep] + Text(ps[1..], sep);
    Assoc(PairText(p), more, x);
    PairShape(p, more + x);
    var n := Quoted(p.nameQuote, p.name);
    var z := p.c + (Quoted(p.valueQuote, p.value) + (p.d + (more + x)));
    QuotedStart(p.nameQuote, p.name);
    FirstIsQuote(p, n, p.b + (":" + z), Text(ps, sep) + x);
    QuotedNameAhead(p.nameQuote, p.name, p.b, z);
    assert "" + (n + (p.b + (":" + z))) == n + (p.b + (":" + z));
  }

  lemma FirstOfTwo(a: string, b: string)
    ensures a != "" ==> (a + b)[0] == a[0]
    ensures a == "" ==> a + b == b
  {
  }

  lemma FirstIsQuote(p: Styled, n: string, rest: string, u: string)
    requires u == p.a + (n + rest) && n != "" && Blanks(p.a) && IsQuote(u[0])
    ensures p.a == "" && u[0] == n[0]
  {
    FirstOfTwo(p.a, n + rest);
    FirstOfTwo(n, rest);
  }

  /** The reader gives exactly the spelled map, whatever quotes and blanks are used. */
  lemma TextReads(ps: seq<Styled>, sep: char)
    requires IsPairSeparator(sep) && ps != [] && AllProper(ps, sep) && Trimmed(Text(ps, sep))
    ensures ParseHeaders(Text(ps, sep), sep) == MapOf(ps, map[])
  {
    hide SplitPairs, EnterPairs, Text, StripOuterQuotes;
    NothingStripped(ps, sep);
    TextSplits(ps, sep);
    PairsEnter(ps, sep, map[]);
  }

  // ---- on a line ----

  /** Bare values hold no comma. */
  predicate CommasQuoted(ps: seq<Styled>) {
    forall i :: 0 <= i < |ps| && ps[i].valueQuote == NONE ==> ',' !in ps[i].value
  }

  lemma TailEnds(d: string, tail: string, sep: char)
    requires Blanks(d) && OptionTail(tail)
    ensures ValueQuoteEnd(d + tail, sep, true, NONE)
  {
    EndsBehindBlanks(d, tail, sep, true, NONE);
    assert SkipSpaces(tail) == tail;
  }

  /** The unquoted scan takes the whole text. */
  lemma {:induction false} UnquotedText(ps: seq<Styled>, sep: char, tail: string)
    requires IsPairSeparator(sep) && ps != [] && AllProper(ps, sep) && CommasQuoted(ps) && OptionTail(tail)
    ensures UnquotedLength(Text(ps, sep) + tail, sep, START) == |Text(ps, sep)|
    decreases |ps|
  {
    hide UnquotedLength, PairText, Text, Run, Quiet, HeaderKeyStart, ValueQuoteEnd, OptionTail;
    var p, t := ps[0], PairText(ps[0]);
    TextCons(ps, sep);
    assert Proper(p, sep);
    if |ps| == 1 {
      TailEnds(p.d, tail, sep);
      OverPair(p, tail, sep, true, NONE, {','});
      assert t + "" == t;
      UnquotedOver(t, tail, sep, START);
      TailStops(tail, sep);
    } else {
      var x := Text(ps[1..], sep);
      assert AllProper(ps[1..], sep);
      NextPairEnds(ps[1..], sep, p.d, tail, true, NONE);
      TextStartsKey(ps[1..], sep, tail);
      var y := [sep] + (x + tail);
      OverPair(p, y, sep, true, NONE, {','});
      UnquotedOver(t, y, sep, START);
      OverSeparator(x + tail, sep, true);
      UnquotedText(ps[1..], sep, tail);
      Assoc(t, [sep] + x, tail);
      Assoc([sep], x, tail);
    }
  }

  lemma TailStops(tail: string, sep: char)
    requires IsPairSeparator(sep) && OptionTail(tail)
    ensures UnquotedLength(tail, sep, Out(true)) == 0
  {
  }

  /** How the option's name may be spelled: in any case, with blanks around it. */
  predicate Spells(spelling: string, sep: char) {
    && spelling != "" && IsPlain(spelling[0]) && IsPlain(spelling[|spelling| - 1])
    && '=' !in spelling && ',' !in spelling && ToLower(spelling) == HeaderKey(sep)
  }

  lemma SpelledFieldLength(spelling: string, sep: char, y: string, e: nat, tail: string)
    requires IsPairSeparator(sep) && Spells(spelling, sep)
    requires y != "" && !IsSurgeSpace(y[0]) && HeadersLength(y, sep) == e <= |y| && y[e..] == tail
    requires tail == "" || tail[0] == ','
    ensures FieldLength(spelling + ("=" + y)) == |spelling| + 1 + e
  {
    hide HeadersLength, ToLower;
    var u := spelling + ("=" + y);
    TrimKeepsEdges(spelling);
    HeaderKeyReads(sep, y);
    KeyLengthIs(spelling, "=" + y);
    assert u[..|spelling|] == spelling && u[|spelling|] == '=' && u[|spelling| + 1..] == y;
    assert SkipSpaces(u) == u && SkipSpaces(y) == y;
    assert OptionKey(spelling) == HeaderKey(sep);
    assert PlainPart(u) == tail;
  }

  lemma TextHead(ps: seq<Styled>, sep: char)
    requires ps != [] && AllProper(ps, sep) && Trimmed(Text(ps, sep))
    ensures var t := Text(ps, sep); t != "" && !IsSurgeSpace(t[0])
  {
    hide Quoted;
    TextCons(ps, sep);
    var t := Text(ps, sep);
    QuotedStart(ps[0].nameQuote, ps[0].name);
    assert t != "" by { assert PairText(ps[0]) != ""; }
    FirstIsNoSpace(t);
  }

  /** The reader of the option's value takes the whole text, not more. */
  lemma TextLength(ps: seq<Styled>, sep: char, tail: string)
    requires IsPairSeparator(sep) && ps != [] && AllProper(ps, sep) && CommasQuoted(ps) && OptionTail(tail)
    requires Trimmed(Text(ps, sep))
    ensures HeadersLength(Text(ps, sep) + tail, sep) == |Text(ps, sep)|
  {
    hide Text, StartsWithQuotedKey, UnquotedLength;
    TextHead(ps, sep);
    var t := Text(ps, sep);
    var u := t + tail;
    assert u[0] == t[0] && SkipSpaces(u) == u;
    UnquotedText(ps, sep, tail);
    if IsQuote(t[0]) {
      StartsWithName(ps, sep, tail);
    }
  }

  /** The option loop strips one pair of outer quotes; it leaves alone a text that does not
      start and end with the same quote. */
  predicate KeepsQuotes(t: string) {
    |t| < 2 || !IsQuote(t[0]) || t[|t| - 1] != t[0]
  }

  lemma OptionValueIs(spelling: string, sep: char, t: string)
    requires Spells(spelling, sep) && t != "" && Trimmed(t)
    ensures Trimmed(spelling + "=" + t) && OptionValue(spelling + "=" + t) == TrimQuotes(t)
  {
    hide TrimQuotes, TrimSpace;
    var f := spelling + "=" + t;
    TrimLeftKeeps(f);
    TrimRightStops(spelling, '=', t);
    TrimmedHasNoEdges(t);
    TrimSpaceOf(f);
    assert spelling + ['='] + t == f;
    assert f[..|spelling|] == spelling && f[|spelling| + 1..] == t;
    IndexByteUnique(f, '=', |spelling|);
  }

  /** Headers in any of these styles are cut from the line as one field and read as the
      map they spell, as long as the option loop leaves their quotes alone. */
  lemma StyledLineReads(spelling: string, ps: seq<Styled>, sep: char, tail: string)
    requires IsPairSeparator(sep) && Spells(spelling, sep) && OptionTail(tail)
    requires ps != [] && AllProper(ps, sep) && CommasQuoted(ps)
    requires Trimmed(Text(ps, sep)) && KeepsQuotes(Text(ps, sep))
    ensures var field := spelling + "=" + Text(ps, sep);
            Fields(field + tail) == FieldThen(field, tail) && ParseHeaders(OptionValue(field), sep) == MapOf(ps, map[])
  {
    hide Text, TrimSpace, ParseHeaders, Fields, FieldThen, HeadersLength, FieldLength;
    var t := Text(ps, sep);
    TextHead(ps, sep);
    TextLength(ps, sep, tail);
    var field := spelling + "=" + t;
    LineShape(spelling, t, tail);
    SpelledFieldLength(spelling, sep, t + tail, |t|, tail);
    OptionValueIs(spelling, sep, t);
    FieldThenRest(field, tail);
    TextReads(ps, sep);
  }

  lemma LineShape(spelling: string, t: string, tail: string)
    ensures spelling + "=" + t + tail == spelling + ("=" + (t + tail)) && (t + tail)[|t|..] == tail
  {
  }

  // ---- inside outer quotes ----

  /** None of the pairs uses the quote `q`. */
  predicate AvoidsQuote(ps: seq<Styled>, q: char) {
    forall i :: 0 <= i < |ps| ==> ps[i].nameQuote != q && ps[i].valueQuote != q
  }

  lemma OuterEnds(d: string, tail: string, sep: char, q: char)
    requires IsQuote(q) && Blanks(d) && (tail == "" || tail[0] == ',')
    ensures ValueQuoteEnd(d + ([q] + tail), sep, false, q)
  {
    EndsBehindBlanks(d, [q] + tail, sep, false, q);
    var u := [q] + tail;
    assert SkipSpaces(u) == u && u[1..] == tail && SkipSpaces(tail) == tail;
  }

  lemma QuotedStops(tail: string, sep: char, q: char, seen: bool)
    requires IsPairSeparator(sep) && IsQuote(q) && (tail == "" || tail[0] == ',')
    ensures QuotedLength([q] + tail, sep, q, Out(seen)) == 1
  {
    assert ([q] + tail)[1..] == tail && SkipSpaces(tail) == tail;
  }

  lemma QuotedCuts(x: string, sep: char, q: char)
    requires IsPairSeparator(sep) && IsQuote(q) && HeaderKeyStart(x)
    ensures QuotedLength([sep] + x, sep, q, Out(true)) == 1 + QuotedLength(x, sep, q, START)
  {
    hide HeaderKeyStart, ValueQuoteEnd;
    assert ([sep] + x)[1..] == x;
  }

  lemma {:induction false} QuotedText(ps: seq<Styled>, sep: char, q: char, tail: string)
    requires IsPairSeparator(sep) && IsQuote(q) && ps != [] && AllProper(ps, sep) && AvoidsQuote(ps, q)
    requires tail == "" || tail[0] == ','
    ensures QuotedLength(Text(ps, sep) + ([q] + tail), sep, q, START) == |Text(ps, sep)| + 1
    decreases |ps|
  {
    hide QuotedLength, PairText, Text, Run, Quiet, HeaderKeyStart, ValueQuoteEnd;
    var p, t, end := ps[0], PairText(ps[0]), [q] + tail;
    TextCons(ps, sep);
    assert Proper(p, sep);
    ValueAvoids(p, sep, q);
    if |ps| == 1 {
      OuterEnds(p.d, tail, sep, q);
      OverPair(p, end, sep, false, q, {q});
      assert t + "" == t;
      QuotedOver(t, end, sep, q, START);
      QuotedStops(tail, sep, q, true);
    } else {
      var x := Text(ps[1..], sep);
      assert AllProper(ps[1..], sep);
      NextPairEnds(ps[1..], sep, p.d, end, false, q);
      TextStartsKey(ps[1..], sep, end);
      var y := [sep] + (x + end);
      OverPair(p, y, sep, false, q, {q});
      QuotedOver(t, y, sep, q, START);
      QuotedCuts(x + end, sep, q);
      QuotedText(ps[1..], sep, q, tail);
      Assoc(t, [sep] + x, end);
      Assoc([sep], x, end);
    }
  }

  lemma ValueAvoids(p: Styled, sep: char, q: char)
    requires Proper(p, sep) && IsQuote(q)
    ensures q !in p.value
  {
  }

  lemma {:induction false} AvoidsSplit(ps: seq<Styled>, sep: char, q: char)
    requires IsPairSeparator(sep) && IsQuote(q) && AllProper(ps, sep) && AvoidsQuote(ps, q)
    ensures q !in Text(ps, sep)
    decreases |ps|
  {
    hide PairText;
    if ps != [] {
      TextCons(ps, sep);
      assert AllProper(ps[1..], sep) && Proper(ps[0], sep);
      PairAvoids(ps[0], sep, q);
      AvoidsSplit(ps[1..], sep, q);
    }
  }

  lemma PairAvoids(p: Styled, sep: char, q: char)
    requires Proper(p, sep) && IsQuote(q) && p.nameQuote != q && p.valueQuote != q
    ensures q !in PairText(p)
  {
    NameIsTrimmed(p.name);
    assert forall w :: Blanks(w) ==> q !in w;
    assert q !in p.name && q !in p.value && q !in ":";
  }

  /** The outer quote of a text that avoids it is not taken for the quote of a name. */
  lemma OuterIsNoName(t: string, q: char, tail: string)
    requires IsQuote(q) && q !in t && (tail == "" || tail[0] == ',')
    ensures !StartsWithQuotedKey([q] + (t + ([q] + tail)))
  {
    hide TrimLeft, TrimRight, TrimSpace;
    var u := [q] + (t + ([q] + tail));
    var r := TrimRight(tail);
    OuterShape(q, t, tail);
    OuterShape(q, t, r);
    TrimLeftKeeps(u);
    TrimRightStops([q] + t, q, tail);
    TrimSpaceOf(u);
    var w := [q] + (t + ([q] + r));
    assert TrimSpace(u) == w;
    TrimRightShrinks(tail);
    assert w[1..] == t + ([q] + r) && w[1..][..|t|] == t && w[1..][|t|] == q;
    IndexByteUnique(w[1..], q, |t|);
    assert w[|t| + 2..] == r && SkipSpaces(r) == r;
  }

  lemma OuterShape(q: char, t: string, x: string)
    ensures [q] + (t + ([q] + x)) == ([q] + t) + [q] + x
  {
  }

  /** Styled headers inside outer quotes are cut and read as well; the bare values may then
      hold commas, and any tail may follow. */
  lemma WrappedLineReads(spelling: string, ps: seq<Styled>, sep: char, q: char, tail: string)
    requires IsPairSeparator(sep) && Spells(spelling, sep) && IsQuote(q) && (tail == "" || tail[0] == ',')
    requires ps != [] && AllProper(ps, sep) && AvoidsQuote(ps, q) && Trimmed(Text(ps, sep))
    ensures var field := spelling + "=" + ([q] + Text(ps, sep) + [q]);
            Fields(field + tail) == FieldThen(field, tail) && ParseHeaders(OptionValue(field), sep) == MapOf(ps, map[])
  {
    hide Text, ParseHeaders, Fields, FieldThen, HeadersLength, FieldLength, StartsWithQuotedKey;
    var t := Text(ps, sep);
    var w := [q] + t + [q];
    var y := w + tail;
    AvoidsSplit(ps, sep, q);
    OuterIsNoName(t, q, tail);
    QuotedText(ps, sep, q, tail);
    WrappedLength(t, q, tail, sep);
    LineShape(spelling, w, tail);
    SpelledFieldLength(spelling, sep, y, |w|, tail);
    TrimKeepsEdges(w);
    assert TrimQuotes(w) == t;
    hide TrimQuotes, TrimSpace;
    OptionValueIs(spelling, sep, w);
    FieldThenRest(spelling + "=" + w, tail);
    TextReads(ps, sep);
  }

  lemma WrappedLength(t: string, q: char, tail: string, sep: char)
    requires IsPairSeparator(sep) && IsQuote(q)
    requires !StartsWithQuotedKey([q] + (t + ([q] + tail))) && QuotedLength(t + ([q] + tail), sep, q, START) == |t| + 1
    ensures HeadersLength([q] + t + [q] + tail, sep) == |t| + 2
  {
    hide StartsWithQuotedKey, QuotedLength;
    OuterShape(q, t, tail);
    var u := [q] + (t + ([q] + tail));
    assert u == [q] + t + [q] + tail && SkipSpaces(u) == u && u[1..] == t + ([q] + tail);
  }

  // ---- the characters of names ----

  /** A header name is made of visible characters that are no delimiters; the back quote is
      not one of them. */
  lemma NameCharsExactly(c: char)
    ensures IsHeaderKeyChar(c) <==> '!' <= c <= '~' && c !in "\"(),/:;<=>?@[\\]{}`"
  {
  }

  predicate IsOptionName(w: string) {
    w != "" && forall i :: 0 <= i < |w| ==> '0' <= w[i] <= '9' || 'A' <= w[i] <= 'Z' || 'a' <= w[i] <= 'z' || w[i] == '-'
  }

  /** Behind a comma an option starts exactly with letters, digits and dashes and '='. */
  lemma OptionStartExactly(w: string, rest: string)
    requires forall i :: 0 <= i < |w| ==> w[i] != '=' && !IsSurgeSpace(w[i])
    ensures OptionStart(w + "=" + rest) <==> IsOptionName(w)
  {
    var u := w + "=" + rest;
    assert u[0] == if w == "" then '=' else w[0];
    OverOptionName(w, rest);
  }

  lemma {:induction false} OverOptionName(w: string, rest: string)
    requires forall i :: 0 <= i < |w| ==> w[i] != '=' && !IsSurgeSpace(w[i])
    ensures var v := SkipOptionKey(w + "=" + rest);
            if w == "" || IsOptionName(w) then v == "=" + rest
            else !StartsWith(SkipSpaces(v), '=')
    decreases |w|
  {
    var u := w + "=" + rest;
    if w == "" {
      assert u == "=" + rest;
    } else {
      assert u[0] == w[0] && u[1..] == w[1..] + "=" + rest;
      OverOptionName(w[1..], rest);
    }
  }
}
