/** The header scanner of Surge lines: where a `headers=` value ends, where one pair
    ends and the next begins, and where a pair's name ends.

    The functions read a suffix of the text and say how far they get; the methods in
    SurgeScanner.dfy walk an index through the whole text and are proved against them. */
module SurgeHeaders {
  import opened GoStrings

  /** "No quote": the zero byte of the scanner's quote variables. */
  const NONE: char := '\0'

  predicate IsPairSeparator(c: char) { c == ';' || c == '|' }

  predicate IsQuote(c: char) { c == '"' || c == '\'' }

  predicate IsSurgeSpace(c: char) { c == ' ' || c == '\t' || c == '\r' }

  predicate IsAlnum(c: char) { '0' <= c <= '9' || 'A' <= c <= 'Z' || 'a' <= c <= 'z' }

  predicate IsHeaderKeyChar(c: char) { IsAlnum(c) || c in "!#$%&'*+-.^_|~" }

  predicate IsOptionKeyChar(c: char) { IsAlnum(c) || c == '-' }

  function SkipSpaces(u: string): (v: string)
    ensures |v| <= |u|
  {
    if u != "" && IsSurgeSpace(u[0]) then SkipSpaces(u[1..]) else u
  }

  lemma {:induction false} SkipSpacesSuffix(u: string)
    ensures SkipSpaces(u) == u[|u| - |SkipSpaces(u)|..]
    decreases |u|
  {
    if u != "" && IsSurgeSpace(u[0]) {
      SkipSpacesSuffix(u[1..]);
    }
  }

  function SkipHeaderKey(u: string): (v: string)
    ensures |v| <= |u|
  {
    if u != "" && IsHeaderKeyChar(u[0]) then SkipHeaderKey(u[1..]) else u
  }

  function SkipOptionKey(u: string): (v: string)
    ensures |v| <= |u|
  {
    if u != "" && IsOptionKeyChar(u[0]) then SkipOptionKey(u[1..]) else u
  }

  /** What follows a quoted, non-empty header key that `u` starts with. */
  function AfterQuotedKey(u: string): (v: Option<string>)
    requires u != ""
  {
    var k := IndexByte(u[1..], u[0]);
    if k <= 0 then None else Some(u[k + 2..])
  }

  predicate StartsWith(u: string, c: char) {
    u != "" && u[0] == c
  }

  predicate StartsWithQuotedKey(u: string) {
    var t := TrimSpace(u);
    t != "" && IsQuote(t[0]) &&
    var v := AfterQuotedKey(t);
    v.Some? && StartsWith(SkipSpaces(v.value), ':')
  }

  predicate HeaderKeyStart(u: string) {
    var v := SkipSpaces(u);
    if v != "" && IsQuote(v[0]) then
      var w := AfterQuotedKey(v);
      w.Some? && StartsWith(SkipSpaces(w.value), ':')
    else
      var w := SkipHeaderKey(v);
      |w| < |v| && StartsWith(SkipSpaces(w), ':')
  }

  predicate OptionStart(u: string) {
    var v := SkipSpaces(u);
    var w := SkipOptionKey(v);
    |w| < |v| && StartsWith(SkipSpaces(w), '=')
  }

  /** Only spaces stand between here and a comma or the end of the text. */
  predicate FieldEndsHere(u: string) {
    var v := SkipSpaces(u);
    v == "" || v[0] == ','
  }

  /** Whether the quote character just before `rest` closes a header value. */
  predicate ValueQuoteEnd(rest: string, sep: char, allowCommaEnd: bool, container: char) {
    var u := SkipSpaces(rest);
    if u == "" then true
    else if allowCommaEnd && u[0] == ',' && OptionStart(u[1..]) then true
    else if u[0] == sep && HeaderKeyStart(u[1..]) then true
    else container != NONE && u[0] == container && FieldEndsHere(u[1..])
  }

  /** The scanners' variables: the open quote, whether it belongs to a key (1) or to a
      value (2), and whether the pair's ':' has been passed. */
  datatype Scan = Scan(quote: char, role: nat, seen: bool)

  const START := Scan(NONE, 0, false)

  /** One step of any of the three header scanners over the first character of `u`. */
  function Advance(u: string, sep: char, allowCommaEnd: bool, container: char, st: Scan): Scan
    requires u != ""
  {
    if st.quote != NONE then
      if u[0] == st.quote && (st.role == 1 || ValueQuoteEnd(u[1..], sep, allowCommaEnd, container)) then
        Scan(NONE, 0, st.seen)
      else st
    else if IsQuote(u[0]) then Scan(u[0], if st.seen then 2 else 1, st.seen)
    else if u[0] == ':' && !st.seen then st.(seen := true)
    else if u[0] == sep && HeaderKeyStart(u[1..]) then st.(seen := false)
    else st
  }

  /** Length of an unquoted headers value: it ends at a comma outside quotes. */
  function UnquotedLength(u: string, sep: char, st: Scan): (n: nat)
    requires IsPairSeparator(sep)
    ensures n <= |u|
  {
    if u == "" || (st.quote == NONE && u[0] == ',') then 0
    else 1 + UnquotedLength(u[1..], sep, Advance(u, sep, true, NONE, st))
  }

  /** Length of the rest of a quoted headers value, closing quote included. */
  function QuotedLength(u: string, sep: char, quote: char, st: Scan): (n: nat)
    requires IsPairSeparator(sep) && IsQuote(quote)
    ensures n <= |u|
  {
    if u == "" then 0
    else if st.quote == NONE && u[0] == quote && FieldEndsHere(u[1..]) then 1
    else 1 + QuotedLength(u[1..], sep, quote, Advance(u, sep, false, quote, st))
  }

  /** Length of the headers value that starts at `u`. */
  function HeadersLength(u: string, sep: char): (n: nat)
    requires IsPairSeparator(sep)
    ensures n <= |u|
  {
    var v := SkipSpaces(u);
    if v != "" && IsQuote(v[0]) && !StartsWithQuotedKey(v) then
      |u| - |v| + 1 + QuotedLength(v[1..], sep, v[0], START)
    else
      |u| - |v| + UnquotedLength(v, sep, START)
  }

  /** Puts `x` in front of the first of the pairs. */
  function Prepend(x: string, ps: seq<string>): (qs: seq<string>)
    requires ps != []
    ensures qs != []
  {
    [x + ps[0]] + ps[1..]
  }

  /** The pairs of a headers value, cut at the separators outside quotes. */
  function SplitPairs(u: string, sep: char, st: Scan): (ps: seq<string>)
    requires IsPairSeparator(sep)
    ensures ps != []
  {
    if u == "" then [""]
    else
      var rest := SplitPairs(u[1..], sep, Advance(u, sep, false, NONE, st));
      if st.quote == NONE && u[0] == sep && HeaderKeyStart(u[1..]) then [""] + rest
      else Prepend([u[0]], rest)
  }

  /** The position of the first ':' outside quotes, or -1. */
  function SeparatorIndex(u: string, quote: char): (k: int)
    ensures -1 <= k < |u|
  {
    if u == "" then -1
    else if quote == NONE && u[0] == ':' then 0
    else
      var q := if quote != NONE then (if u[0] == quote then NONE else quote) else if IsQuote(u[0]) then u[0] else NONE;
      var r := SeparatorIndex(u[1..], q);
      if r == -1 then -1 else r + 1
  }

  /** Strips one pair of matching quotes around the trimmed text. */
  function TrimQuotes(s: string): string {
    var t := TrimSpace(s);
    if |t| >= 2 && IsQuote(t[0]) && t[|t| - 1] == t[0] then t[1..|t| - 1] else t
  }

  function StripOuterQuotes(s: string): string {
    var t := TrimSpace(s);
    if |t| >= 2 && IsQuote(t[0]) && t[|t| - 1] == t[0] && !StartsWithQuotedKey(t) then t[1..|t| - 1] else t
  }

  /** The map after the pairs have been entered one by one, later names winning. */
  function EnterPairs(pairs: seq<string>, m: map<string, string>): map<string, string> {
    if pairs == [] then m else EnterPairs(pairs[1..], EnterPair(pairs[0], m))
  }

  function EnterPair(pair: string, m: map<string, string>): map<string, string> {
    var k := SeparatorIndex(pair, NONE);
    if k == -1 then m
    else
      var name := TrimQuotes(TrimSpace(pair[..k]));
      if name == "" then m else m[name := TrimQuotes(TrimSpace(pair[k + 1..]))]
  }

  function ParseHeaders(s: string, sep: char): map<string, string>
    requires IsPairSeparator(sep)
  {
    EnterPairs(SplitPairs(StripOuterQuotes(s), sep, START), map[])
  }
}
