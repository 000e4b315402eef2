/** How the Surge producer writes header maps. */
module SurgePrinter {
  import opened GoStrings
  import opened SurgeHeaders

  /** Strips one pair of matching quotes around the trimmed text. */
  function StripSurgeQuotes(v: string): string {
    TrimQuotes(v)
  }

  function QuoteSurgeValue(v: string): string {
    "\"" + StripSurgeQuotes(v) + "\""
  }

  /** The `name:"value"` parts, for the map's names in the order they are visited. */
  function HeaderParts(headers: map<string, string>, order: seq<string>): seq<string>
    requires forall k :: k in order ==> k in headers
  {
    if order == [] then []
    else if TrimSpace(order[0]) == "" then HeaderParts(headers, order[1..])
    else [order[0] + ":" + QuoteSurgeValue(headers[order[0]])] + HeaderParts(headers, order[1..])
  }

  /** `order` visits every name of the map once. */
  ghost predicate Visits(order: seq<string>, headers: map<string, string>) {
    && (forall k :: k in order <==> k in headers)
    && (forall i, j :: 0 <= i < j < |order| ==> order[i] != order[j])
  }

  function FormatSurgeHeaderMap(headers: map<string, string>, order: seq<string>, sep: char): string
    requires forall k :: k in order ==> k in headers
  {
    Join(HeaderParts(headers, order), [sep])
  }

  /** One pair of quotes around a value, of either kind, is not printed twice. */
  lemma {:induction false} WrappedPrintsSame(headers: map<string, string>, wrapped: map<string, string>, order: seq<string>, q: char)
    requires IsQuote(q) && forall k :: k in order ==> k in headers && k in wrapped && wrapped[k] == [q] + headers[k] + [q]
    requires forall k :: k in order ==> StripSurgeQuotes(headers[k]) == headers[k]
    ensures HeaderParts(wrapped, order) == HeaderParts(headers, order)
    decreases |order|
  {
    hide TrimSpace, StripSurgeQuotes;
    if order != [] {
      var k := order[0];
      assert k in order;
      WrappedPrintsSame(headers, wrapped, order[1..], q);
      QuotesStripped(q, headers[k]);
    }
  }

  lemma QuotesStripped(q: char, v: string)
    requires IsQuote(q)
    ensures StripSurgeQuotes([q] + v + [q]) == v
  {
    var s := [q] + v + [q];
    TrimKeepsEdges(s);
    hide TrimSpace;
    assert s[|s| - 1] == q && s[1..|s| - 1] == v;
  }

  /** A blank name is not printed. */
  lemma {:induction false} BlankNamesSkipped(headers: map<string, string>, order: seq<string>, more: seq<string>, k: string)
    requires (forall n :: n in order + [k] + more ==> n in headers) && TrimSpace(k) == ""
    ensures (forall n :: n in order + more ==> n in order + [k] + more)
    ensures HeaderParts(headers, order + [k] + more) == HeaderParts(headers, order + more)
    decreases |order|
  {
    hide TrimSpace, QuoteSurgeValue;
    assert forall n :: n in order + more ==> n in order + [k] + more;
    if order == [] {
      assert ([] + [k] + more)[1..] == more && [] + more == more;
    } else {
      assert order[0] in order + more;
      assert forall n :: n in order[1..] + [k] + more ==> n in order + [k] + more;
      assert (order + [k] + more)[1..] == order[1..] + [k] + more && (order + more)[1..] == order[1..] + more;
      BlankNamesSkipped(headers, order[1..], more, k);
    }
  }
}
