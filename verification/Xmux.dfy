/** xhttp ranges, the compaction of unknown JSON, and the way an `xmux` object is split
    into reuse settings and a remainder and put together again. */
module Xmux {
  import opened GoStrings
  import opened Numerals

  /** The values that occur in decoded and in built settings. */
  datatype Value =
    | Null
    | Bool(truth: bool)
    | Float(number: real)
    | Int(int_: int)
    | Int64(long: int)
    | Str(text: string)
    | Arr(items: seq<Value>)
    | Obj(fields: map<string, Value>)

  const SAFE := 9_007_199_254_740_991

  // ---- compaction ----

  function Wrap(fields: map<string, Value>): Value {
    if fields == map[] then Null else Obj(fields)
  }

  /** Empty objects become null; nulls inside objects and arrays go; arrays stay. */
  function Compact(v: Value): Value {
    match v
    case Arr(items) => Arr(CompactItems(items))
    case Obj(fields) => Wrap(map k | k in fields && Compact(fields[k]) != Null :: Compact(fields[k]))
    case _ => v
  }

  function CompactItems(items: seq<Value>): seq<Value> {
    if items == [] then []
    else
      var c := Compact(items[0]);
      (if c == Null then [] else [c]) + CompactItems(items[1..])
  }

  function CompactFields(fields: map<string, Value>): map<string, Value> {
    map k | k in fields && Compact(fields[k]) != Null :: Compact(fields[k])
  }

  /** Nothing to compact: no null inside an object or an array, no empty object. */
  predicate Compacted(v: Value) {
    match v
    case Arr(items) => forall i :: 0 <= i < |items| ==> items[i] != Null && Compacted(items[i])
    case Obj(fields) => fields != map[] && forall k :: k in fields ==> fields[k] != Null && Compacted(fields[k])
    case _ => true
  }

  lemma {:induction false} CompactIsCompacted(v: Value)
    ensures Compacted(Compact(v))
    decreases v
  {
    match v
    case Arr(items) => CompactItemsCompacted(items);
    case Obj(fields) =>
      forall k | k in fields
        ensures Compacted(Compact(fields[k]))
      {
        CompactIsCompacted(fields[k]);
      }
    case _ =>
  }

  lemma {:induction false} CompactItemsCompacted(items: seq<Value>)
    ensures Compacted(Arr(CompactItems(items)))
    decreases items
  {
    if items != [] {
      CompactIsCompacted(items[0]);
      CompactItemsCompacted(items[1..]);
      var c, rest := Compact(items[0]), CompactItems(items[1..]);
      assert Compacted(Arr(rest));
      assert forall i :: 0 < i < |[c] + rest| ==> ([c] + rest)[i] == rest[i - 1];
    }
  }

  lemma {:induction false} CompactKeeps(v: Value)
    requires Compacted(v)
    ensures Compact(v) == v
    decreases v
  {
    match v
    case Arr(items) => CompactItemsKeep(items);
    case Obj(fields) =>
      forall k | k in fields
        ensures Compact(fields[k]) == fields[k] != Null
      {
        CompactKeeps(fields[k]);
      }
      assert CompactFields(fields) == fields;
    case _ =>
  }

  lemma {:induction false} CompactItemsKeep(items: seq<Value>)
    requires Compacted(Arr(items))
    ensures CompactItems(items) == items
    decreases items
  {
    if items != [] {
      assert items[0] != Null && Compacted(items[0]);
      CompactKeeps(items[0]);
      assert forall i :: 0 <= i < |items[1..]| ==> items[1..][i] == items[i + 1];
      CompactItemsKeep(items[1..]);
      assert items == [items[0]] + items[1..];
    }
  }

  /** Compacting twice is compacting once, and it changes exactly what is not compact. */
  lemma CompactTwice(v: Value)
    ensures Compact(Compact(v)) == Compact(v)
    ensures Compact(v) == v <==> Compacted(v)
  {
    CompactIsCompacted(v);
    CompactKeeps(Compact(v));
    if Compacted(v) {
      CompactKeeps(v);
    }
  }

  /** The loop over an object's fields, in any order. */
  method CompactObject(fields: map<string, Value>) returns (v: Value)
    ensures v == Compact(Obj(fields))
  {
    hide Compact;
    var out: map<string, Value> := map[];
    var todo := fields.Keys;
    while todo != {}
      invariant todo <= fields.Keys
      invariant forall k :: k in out <==> k in fields && k !in todo && Compact(fields[k]) != Null
      invariant forall k :: k in out ==> out[k] == Compact(fields[k])
      decreases |todo|
    {
      var k :| k in todo;
      todo := todo - {k};
      var c := Compact(fields[k]);
      if c != Null {
        out := out[k := c];
      }
    }
    assert out == CompactFields(fields);
    CompactOfObject(fields);
    v := if out != map[] then Obj(out) else Null;
  }

  lemma CompactOfObject(fields: map<string, Value>)
    ensures Compact(Obj(fields)) == Wrap(CompactFields(fields))
  {
  }

  // ---- ranges ----

  type Bounds = (nat, nat)

  /** `+` and decimal digits, blanks around them, no more than `limit`. */
  function Token(token: string, limit: nat): Option<nat> {
    var t := TrimSpace(token);
    var body := if t != "" && t[0] == '+' then t[1..] else t;
    if body == "" || !AllDigits(body) || Atoi(t).None? || Atoi(t).value < 0 || Atoi(t).value > limit then None
    else Some(Atoi(t).value)
  }

  /** "n" or "lower-upper". */
  function RangeOfText(text: string, minLower: nat, minUpper: nat, limit: nat): (r: Option<Bounds>)
    ensures r.Some? ==> minLower <= r.value.0 <= r.value.1 <= limit && minUpper <= r.value.1
  {
    var parts := Split(TrimSpace(text), '-');
    if |parts| == 1 then
      var n := Token(parts[0], limit);
      if n.None? || n.value < minLower || n.value < minUpper then None else Some((n.value, n.value))
    else if |parts| != 2 then None
    else
      var lower, upper := Token(parts[0], limit), Token(parts[1], limit);
      if lower.None? || upper.None? || lower.value < minLower || upper.value < minUpper || upper.value < lower.value then None
      else Some((lower.value, upper.value))
  }

  function IntText(n: int): string {
    if n < 0 then "-" + Itoa(-n) else Itoa(n)
  }

  predicate IsIntegral(f: real) {
    f.Floor as real == f
  }

  predicate IsSafe(f: real) {
    IsIntegral(f) && -SAFE <= f.Floor <= SAFE
  }

  /** The parser's range reader: texts, safe numbers and ints, none above 2^53 - 1. */
  function ParserRange(v: Value, minLower: nat, minUpper: nat): (r: Option<Bounds>)
    ensures r.Some? ==> minLower <= r.value.0 <= r.value.1 <= SAFE && minUpper <= r.value.1
  {
    match v
    case Str(t) => RangeOfText(t, minLower, minUpper, SAFE)
    case Float(f) => if IsSafe(f) then RangeOfText(IntText(f.Floor), minLower, minUpper, SAFE) else None
    case Int(n) => RangeOfText(IntText(n), minLower, minUpper, SAFE)
    case _ => None
  }

  /** The producer's: bounded by 64 bits only, and an int64 is written as nothing. */
  function ProducerRange(v: Value, minLower: nat, minUpper: nat): (r: Option<Bounds>)
    ensures r.Some? ==> minLower <= r.value.0 <= r.value.1 <= MAX_INT && minUpper <= r.value.1
  {
    match v
    case Str(t) => RangeOfText(t, minLower, minUpper, MAX_INT)
    case Float(f) => if IsIntegral(f) then RangeOfText(IntText(f.Floor), minLower, minUpper, MAX_INT) else None
    case Int(n) => RangeOfText(IntText(n), minLower, minUpper, MAX_INT)
    case Int64(_) => RangeOfText("", minLower, minUpper, MAX_INT)
    case _ => None
  }

  /** The text both sides write for a range. */
  function Canonical(b: Bounds): string {
    if b.0 == b.1 then Itoa(b.1) else Itoa(b.0) + "-" + Itoa(b.1)
  }

  lemma NumeralEdges(s: string)
    requires AllDigits(s) && s != ""
    ensures Trimmed(s) && '-' !in s && s[0] != '+'
  {
    assert forall i :: 0 <= i < |s| ==> IsDigit(s[i]);
    TrimKeepsEdges(s);
  }

  lemma TokenOfNumeral(n: nat, limit: nat)
    requires n <= limit <= MAX_INT
    ensures Token(Itoa(n), limit) == Some(n)
  {
    NumeralEdges(Itoa(n));
    AtoiOfItoa(n);
  }

  /** Canonical text reads back as its own bounds, whichever side reads it. */
  lemma CanonicalReads(b: Bounds, minLower: nat, minUpper: nat, limit: nat)
    requires minLower <= b.0 <= b.1 <= limit <= MAX_INT && minUpper <= b.1
    ensures RangeOfText(Canonical(b), minLower, minUpper, limit) == Some(b)
  {
    hide TrimSpace, Atoi, Token;
    var x, y := Itoa(b.0), Itoa(b.1);
    NumeralEdges(x);
    NumeralEdges(y);
    TokenOfNumeral(b.0, limit);
    TokenOfNumeral(b.1, limit);
    if b.0 == b.1 {
      SplitLast(y, '-');
    } else {
      var s := x + ['-'] + y;
      assert s == Canonical(b);
      EdgesOfRange(x, y);
      SplitStep(x, '-', y);
      SplitLast(y, '-');
      assert [x] + [y] == [x, y];
    }
  }

  lemma EdgesOfRange(x: string, y: string)
    requires AllDigits(x) && AllDigits(y) && x != "" && y != ""
    ensures Trimmed(x + ['-'] + y)
  {
    var s := x + ['-'] + y;
    assert s[0] == x[0] && s[|s| - 1] == y[|y| - 1];
    assert IsDigit(x[0]) && IsDigit(y[|y| - 1]);
    TrimKeepsEdges(s);
  }

  /** Rewriting a range the parser accepts gives text both sides read as the same range;
      rewriting that text changes nothing. */
  lemma RangeStable(v: Value, minLower: nat, minUpper: nat)
    requires ParserRange(v, minLower, minUpper).Some?
    ensures var b := ParserRange(v, minLower, minUpper).value;
            && ParserRange(Str(Canonical(b)), minLower, minUpper) == Some(b)
            && ProducerRange(Str(Canonical(b)), minLower, minUpper) == Some(b)
  {
    hide RangeOfText, Canonical;
    var b := ParserRange(v, minLower, minUpper).value;
    CanonicalReads(b, minLower, minUpper, SAFE);
    CanonicalReads(b, minLower, minUpper, MAX_INT);
  }

  lemma TokensAgree(token: string)
    ensures Token(token, SAFE) == if Token(token, MAX_INT).Some? && Token(token, MAX_INT).value <= SAFE then Token(token, MAX_INT) else None
  {
    hide TrimSpace, Atoi;
  }

  /** What the producer reads of a text the parser reads is the same; the converse fails
      exactly above 2^53 - 1. */
  lemma SidesAgree(text: string, minLower: nat, minUpper: nat)
    ensures var p, q := RangeOfText(text, minLower, minUpper, SAFE), RangeOfText(text, minLower, minUpper, MAX_INT);
            && (p.Some? ==> q == p)
            && (q.Some? ==> (p == q <==> q.value.1 <= SAFE))
  {
    hide TrimSpace, Split, Token;
    var parts := Split(TrimSpace(text), '-');
    if |parts| == 1 {
      TokensAgree(parts[0]);
    } else if |parts| == 2 {
      TokensAgree(parts[0]);
      TokensAgree(parts[1]);
    }
  }

  // ---- integers ----

  function SignedBody(t: string): string {
    if t != "" && (t[0] == '+' || t[0] == '-') then t[1..] else t
  }

  /** The parser's integer reader, negatives allowed. */
  function ParserInteger(v: Value): Option<int> {
    match v
    case Float(f) => if IsSafe(f) then Some(f.Floor) else None
    case Int(n) => Some(n)
    case Str(s) =>
      var t := TrimSpace(s);
      if SignedBody(t) == "" || !AllDigits(SignedBody(t)) || Atoi(t).None? || Atoi(t).value > SAFE || Atoi(t).value < -SAFE then None
      else Some(Atoi(t).value)
    case _ => None
  }

  /** The producer's. */
  function ProducerInteger(v: Value): Option<int> {
    match v
    case Int(n) => Some(n)
    case Int64(n) => Some(n)
    case Float(f) => if IsIntegral(f) && -MAX_INT - 1 <= f.Floor <= MAX_INT then Some(f.Floor) else None
    case Str(s) =>
      var t := TrimSpace(s);
      if SignedBody(t) == "" || !AllDigits(SignedBody(t)) then None else Atoi(t)
    case _ => None
  }

  // ---- the split ----

  /** The range fields and their names in the reuse settings. */
  function RangeFields(): map<string, string> {
    map["maxConnections" := "max-connections", "maxConcurrency" := "max-concurrency",
        "cMaxReuseTimes" := "c-max-reuse-times", "hMaxRequestTimes" := "h-max-request-times",
        "hMaxReusableSecs" := "h-max-reusable-secs"]
  }

  predicate Supported(key: string, v: Value) {
    if key in RangeFields() then ParserRange(v, 0, 0).Some?
    else key == "hKeepAlivePeriod" && ParserInteger(v).Some?
  }

  function Field(fields: map<string, Value>, key: string): Value {
    if key in fields then fields[key] else Null
  }

  function ReuseKey(key: string): string {
    if key in RangeFields() then RangeFields()[key] else "h-keep-alive-period"
  }

  /** What a supported field is kept as. */
  function Kept(key: string, v: Value): Value
    requires Supported(key, v)
  {
    if key in RangeFields() then Str(Canonical(ParserRange(v, 0, 0).value)) else Int64(ParserInteger(v).value)
  }

  function SupportedKeys(fields: map<string, Value>): set<string> {
    set k | k in fields && Supported(k, fields[k])
  }

  /** The reuse settings of an xmux object: each supported field, rewritten, under its
      other name. */
  ghost predicate IsReuse(fields: map<string, Value>, reuse: map<string, Value>) {
    && (forall k :: k in SupportedKeys(fields) ==> ReuseKey(k) in reuse && reuse[ReuseKey(k)] == Kept(k, fields[k]))
    && (forall r :: r in reuse ==> exists k :: k in SupportedKeys(fields) && ReuseKey(k) == r)
  }

  predicate KnownKey(key: string) {
    key in RangeFields() || key == "hKeepAlivePeriod"
  }

  /** The same for the keys looked at so far. */
  ghost predicate ReuseSoFar(fields: map<string, Value>, done: set<string>, reuse: map<string, Value>) {
    && (forall k :: k in done ==> KnownKey(k))
    && (forall k :: k in done && k in SupportedKeys(fields) ==> ReuseKey(k) in reuse && reuse[ReuseKey(k)] == Kept(k, fields[k]))
    && (forall r :: r in reuse ==> exists k :: k in done && k in SupportedKeys(fields) && ReuseKey(k) == r)
  }

  lemma NextKey(fields: map<string, Value>, done: set<string>, reuse: map<string, Value>, key: string)
    requires ReuseSoFar(fields, done, reuse) && KnownKey(key) && key !in done
    ensures ReuseSoFar(fields, done + {key}, if key in SupportedKeys(fields) then reuse[ReuseKey(key) := Kept(key, fields[key])] else reuse)
  {
    hide ParserRange, ParserInteger, Canonical, RangeFields, ReuseKey, KnownKey;
    if key in SupportedKeys(fields) {
      forall k | k in done
        ensures ReuseKey(k) != ReuseKey(key)
      {
        if ReuseKey(k) == ReuseKey(key) {
          ReuseKeysDiffer(k, key);
        }
      }
    }
  }

  lemma AllKeys(fields: map<string, Value>, done: set<string>, reuse: map<string, Value>)
    requires ReuseSoFar(fields, done, reuse) && RangeFields().Keys + {"hKeepAlivePeriod"} <= done
    ensures IsReuse(fields, reuse)
  {
    hide ParserRange, ParserInteger, Canonical, RangeFields;
  }

  lemma SupportedIs(fields: map<string, Value>, key: string)
    requires KnownKey(key)
    ensures key in RangeFields() ==>
              && (key in SupportedKeys(fields) <==> ParserRange(Field(fields, key), 0, 0).Some?)
              && ReuseKey(key) == RangeFields()[key]
    ensures key !in RangeFields() ==>
              && (key in SupportedKeys(fields) <==> ParserInteger(Field(fields, key)).Some?)
              && ReuseKey(key) == "h-keep-alive-period"
  {
    hide ParserRange, ParserInteger, RangeFields;
    NullIsNoRange();
  }

  /** One range field looked at. */
  lemma NextRange(fields: map<string, Value>, done: set<string>, reuse: map<string, Value>, key: string)
    requires ReuseSoFar(fields, done, reuse) && key in RangeFields() && key !in done
    ensures var b := ParserRange(Field(fields, key), 0, 0);
            ReuseSoFar(fields, done + {key}, if b.Some? then reuse[RangeFields()[key] := Str(Canonical(b.value))] else reuse)
  {
    hide ParserRange, ParserInteger, Canonical, RangeFields, ReuseKey, SupportedKeys, ReuseSoFar;
    SupportedIs(fields, key);
    NextKey(fields, done, reuse, key);
    if key in SupportedKeys(fields) {
      KeptIs(fields, key);
    }
  }

  /** The keep-alive field looked at last. */
  lemma LastField(fields: map<string, Value>, reuse: map<string, Value>)
    requires ReuseSoFar(fields, RangeFields().Keys, reuse)
    ensures var n := ParserInteger(Field(fields, "hKeepAlivePeriod"));
            IsReuse(fields, if n.Some? then reuse["h-keep-alive-period" := Int64(n.value)] else reuse)
  {
    hide ParserRange, ParserInteger, Canonical, RangeFields, ReuseKey, SupportedKeys, ReuseSoFar, IsReuse;
    var key := "hKeepAlivePeriod";
    KeepAliveIsNoRange();
    SupportedIs(fields, key);
    NextKey(fields, RangeFields().Keys, reuse, key);
    if key in SupportedKeys(fields) {
      KeptIs(fields, key);
    }
    AllKeys(fields, RangeFields().Keys + {key}, if key in SupportedKeys(fields) then reuse[ReuseKey(key) := Kept(key, fields[key])] else reuse);
  }

  /** The loop over the range fields, in any order. */
  method MapRanges(m: map<string, Value>) returns (reuse: map<string, Value>)
    ensures ReuseSoFar(m, RangeFields().Keys, reuse)
  {
    hide ParserRange, Canonical, RangeFields, Field, ReuseSoFar;
    reuse := map[];
    var todo := RangeFields().Keys;
    NoKeysYet(m);
    assert RangeFields().Keys - todo == {};
    while todo != {}
      invariant todo <= RangeFields().Keys
      invariant ReuseSoFar(m, RangeFields().Keys - todo, reuse)
      decreases |todo|
    {
      var key :| key in todo;
      NextRange(m, RangeFields().Keys - todo, reuse, key);
      assert RangeFields().Keys - todo + {key} == RangeFields().Keys - (todo - {key});
      todo := todo - {key};
      var b := ParserRange(Field(m, key), 0, 0);
      if b.Some? {
        reuse := reuse[RangeFields()[key] := Str(Canonical(b.value))];
      }
    }
    assert RangeFields().Keys - todo == RangeFields().Keys;
  }

  /** mapXmuxToReuseSettings */
  method MapXmuxToReuseSettings(xmux: Value) returns (r: Value)
    ensures !xmux.Obj? ==> r == Null
    ensures xmux.Obj? ==> exists reuse :: IsReuse(xmux.fields, reuse) && r == Wrap(reuse)
  {
    hide ParserInteger, RangeFields, Field, ReuseSoFar, IsReuse;
    if !xmux.Obj? {
      return Null;
    }
    var m := xmux.fields;
    var reuse := MapRanges(m);
    LastField(m, reuse);
    var n := ParserInteger(Field(m, "hKeepAlivePeriod"));
    if n.Some? {
      reuse := reuse["h-keep-alive-period" := Int64(n.value)];
    }
    assert IsReuse(m, reuse);
    return if reuse != map[] then Obj(reuse) else Null;
  }

  lemma NoKeysYet(fields: map<string, Value>)
    ensures ReuseSoFar(fields, {}, map[])
  {
  }

  lemma KeptIs(fields: map<string, Value>, key: string)
    requires key in SupportedKeys(fields)
    ensures key in fields && Supported(key, fields[key]) && Field(fields, key) == fields[key]
    ensures key in RangeFields() ==>
              ParserRange(Field(fields, key), 0, 0).Some? && Kept(key, fields[key]) == Str(Canonical(ParserRange(Field(fields, key), 0, 0).value))
    ensures key !in RangeFields() ==>
              ParserInteger(Field(fields, key)).Some? && Kept(key, fields[key]) == Int64(ParserInteger(Field(fields, key)).value)
  {
    hide ParserRange, ParserInteger, Canonical, RangeFields;
  }

  lemma NullIsNoRange()
    ensures ParserRange(Null, 0, 0).None? && ParserInteger(Null).None?
  {
  }

  /** The reuse settings are determined by the object. */
  lemma ReuseUnique(fields: map<string, Value>, r: map<string, Value>, s: map<string, Value>)
    requires IsReuse(fields, r) && IsReuse(fields, s)
    ensures r == s
  {
    hide ParserRange, ParserInteger, Canonical, RangeFields;
    forall x
      ensures x in r <==> x in s
      ensures x in r && x in s ==> r[x] == s[x]
    {
      if x in r {
        var k :| k in SupportedKeys(fields) && ReuseKey(k) == x;
      }
      if x in s {
        var k :| k in SupportedKeys(fields) && ReuseKey(k) == x;
      }
    }
  }

  /** The remainder: unsupported fields, compacted. */
  function Rest(fields: map<string, Value>): map<string, Value> {
    map k | k in fields && !Supported(k, fields[k]) && Compact(fields[k]) != Null :: Compact(fields[k])
  }

  /** collectUnsupportedXmux */
  method CollectUnsupportedXmux(xmux: Value) returns (r: Value)
    ensures r == if xmux.Obj? then Wrap(Rest(xmux.fields)) else xmux
  {
    hide Compact, Supported;
    if !xmux.Obj? {
      return xmux;
    }
    var m := xmux.fields;
    var rest: map<string, Value> := map[];
    var todo := m.Keys;
    while todo != {}
      invariant todo <= m.Keys
      invariant forall k :: k in rest <==> k in m && k !in todo && !Supported(k, m[k]) && Compact(m[k]) != Null
      invariant forall k :: k in rest ==> rest[k] == Compact(m[k])
      decreases |todo|
    {
      var k :| k in todo;
      todo := todo - {k};
      if Supported(k, m[k]) {
        continue;
      }
      var normalized := Compact(m[k]);
      if normalized != Null {
        rest := rest[k := normalized];
      }
    }
    assert rest == Rest(m);
    RestIsCompact(m);
    r := CompactObject(rest);
    CompactOfObject(rest);
  }

  /** Collecting compacts once more, which changes nothing. */
  lemma RestIsCompact(fields: map<string, Value>)
    ensures CompactFields(Rest(fields)) == Rest(fields)
  {
    hide Compact, Supported;
    var rest := Rest(fields);
    forall k | k in rest
      ensures Compact(rest[k]) == rest[k]
    {
      CompactTwice(fields[k]);
    }
  }

  /** Each field lands in exactly one of the two parts, or compacts to nothing; neither
      part holds anything else. */
  lemma SplitExactly(fields: map<string, Value>, reuse: map<string, Value>)
    requires IsReuse(fields, reuse)
    ensures forall k :: k in fields && Supported(k, fields[k]) ==> ReuseKey(k) in reuse && k !in Rest(fields)
    ensures forall k :: k in fields && !Supported(k, fields[k]) ==> (k in Rest(fields) <==> Compact(fields[k]) != Null)
    ensures forall k :: k in fields && !Supported(k, fields[k]) && KnownKey(k) ==> ReuseKey(k) !in reuse
    ensures |reuse| == |SupportedKeys(fields)|
  {
    hide ParserRange, ParserInteger, Canonical, Compact, RangeFields;
    var keys := SupportedKeys(fields);
    forall k | k in fields && !Supported(k, fields[k]) && KnownKey(k)
      ensures ReuseKey(k) !in reuse
    {
      if ReuseKey(k) in reuse {
        var j :| j in keys && ReuseKey(j) == ReuseKey(k);
        ReuseKeysDiffer(j, k);
      }
    }
    ReuseSize(fields, keys, reuse.Keys);
  }

  lemma ReuseKeysDiffer(j: string, k: string)
    requires KnownKey(j) && KnownKey(k)
    requires ReuseKey(j) == ReuseKey(k)
    ensures j == k
  {
  }

  lemma {:induction false} ReuseSize(fields: map<string, Value>, keys: set<string>, names: set<string>)
    requires keys <= SupportedKeys(fields)
    requires (forall k :: k in keys ==> ReuseKey(k) in names) && (forall r :: r in names ==> exists k :: k in keys && ReuseKey(k) == r)
    ensures |keys| == |names|
    decreases |keys|
  {
    hide ParserRange, ParserInteger, Canonical, RangeFields;
    if keys == {} {
      assert names == {};
    } else {
      var k :| k in keys;
      forall j | j in keys - {k}
        ensures ReuseKey(j) in names - {ReuseKey(k)}
      {
        if ReuseKey(j) == ReuseKey(k) {
          ReuseKeysDiffer(j, k);
        }
      }
      ReuseSize(fields, keys - {k}, names - {ReuseKey(k)});
    }
  }

  // ---- the way back ----

  predicate Returned(reuse: map<string, Value>, k: string) {
    if k in RangeFields() then ProducerRange(Field(reuse, RangeFields()[k]), 0, 0).Some?
    else k == "hKeepAlivePeriod" && ProducerInteger(Field(reuse, "h-keep-alive-period")).Some?
  }

  function ReturnedAs(reuse: map<string, Value>, k: string): Value
    requires Returned(reuse, k)
  {
    if k in RangeFields() then Str(Canonical(ProducerRange(Field(reuse, RangeFields()[k]), 0, 0).value))
    else Int(ProducerInteger(Field(reuse, "h-keep-alive-period")).value)
  }

  function Back(reuse: map<string, Value>): map<string, Value> {
    map k | k in RangeFields().Keys + {"hKeepAlivePeriod"} && Returned(reuse, k) :: ReturnedAs(reuse, k)
  }

  /** mapReuseSettingsToXmux */
  method MapReuseSettingsToXmux(reuse: Value) returns (r: Value)
    requires reuse.Null? || reuse.Obj?
    ensures r == if reuse.Obj? then Wrap(Back(reuse.fields)) else Null
  {
    hide ProducerRange, ProducerInteger, Canonical, RangeFields, Returned, ReturnedAs, Back;
    if reuse.Null? {
      return Null;
    }
    var m := reuse.fields;
    var xmux: map<string, Value> := map[];
    var todo := RangeFields().Keys;
    while todo != {}
      invariant todo <= RangeFields().Keys
      invariant forall k :: k in xmux <==> k in RangeFields() && k !in todo && Returned(m, k)
      invariant forall k :: k in xmux ==> xmux[k] == ReturnedAs(m, k)
      decreases |todo|
    {
      var key :| key in todo;
      todo := todo - {key};
      ReturnedIs(m, key);
      var b := ProducerRange(Field(m, RangeFields()[key]), 0, 0);
      if b.Some? {
        xmux := xmux[key := Str(Canonical(b.value))];
      }
    }
    ReturnedIs(m, "hKeepAlivePeriod");
    var n := ProducerInteger(Field(m, "h-keep-alive-period"));
    if n.Some? {
      xmux := xmux["hKeepAlivePeriod" := Int(n.value)];
    }
    KeepAliveIsNoRange();
    BackIs(m, xmux);
    return if xmux == map[] then Null else Obj(xmux);
  }

  lemma KeepAliveIsNoRange()
    ensures "hKeepAlivePeriod" !in RangeFields()
  {
  }

  lemma BackIs(reuse: map<string, Value>, xmux: map<string, Value>)
    requires forall k :: k in xmux <==> KnownKey(k) && Returned(reuse, k)
    requires forall k :: k in xmux ==> xmux[k] == ReturnedAs(reuse, k)
    ensures xmux == Back(reuse)
  {
    hide Returned, ReturnedAs, RangeFields;
  }

  lemma ReturnedIs(reuse: map<string, Value>, k: string)
    requires KnownKey(k)
    ensures k in RangeFields() ==>
              var b := ProducerRange(Field(reuse, RangeFields()[k]), 0, 0);
              (Returned(reuse, k) <==> b.Some?) && (b.Some? ==> ReturnedAs(reuse, k) == Str(Canonical(b.value)))
    ensures k !in RangeFields() ==>
              var n := ProducerInteger(Field(reuse, "h-keep-alive-period"));
              (Returned(reuse, k) <==> n.Some?) && (n.Some? ==> ReturnedAs(reuse, k) == Int(n.value))
  {
    hide ProducerRange, ProducerInteger, Canonical, RangeFields;
  }

  /** The field a supported field comes back as: the same bounds in canonical text, or
      the same integer. */
  function Restored(key: string, v: Value): Value
    requires Supported(key, v)
  {
    if key in RangeFields() then Str(Canonical(ParserRange(v, 0, 0).value)) else Int(ParserInteger(v).value)
  }

  function RestoredFields(fields: map<string, Value>): map<string, Value> {
    map k | k in fields && Supported(k, fields[k]) :: Restored(k, fields[k])
  }

  /** Mapping there and back restores every supported field and no other. */
  lemma BackRestores(fields: map<string, Value>, reuse: map<string, Value>)
    requires IsReuse(fields, reuse)
    ensures Back(reuse) == RestoredFields(fields)
  {
    hide RangeFields, ParserRange, ParserInteger, ProducerRange, ProducerInteger, Canonical;
    var all := RangeFields().Keys + {"hKeepAlivePeriod"};
    forall k | k in all
      ensures Returned(reuse, k) <==> k in SupportedKeys(fields)
      ensures Returned(reuse, k) ==> ReturnedAs(reuse, k) == Restored(k, fields[k])
    {
      ReuseAt(fields, reuse, k);
      if k in SupportedKeys(fields) {
        KeptReturns(k, fields[k]);
      } else {
        NullReturnsNothing();
      }
    }
  }

  lemma ReuseAt(fields: map<string, Value>, reuse: map<string, Value>, k: string)
    requires IsReuse(fields, reuse) && KnownKey(k)
    ensures Field(reuse, ReuseKey(k)) == if k in SupportedKeys(fields) then Kept(k, fields[k]) else Null
  {
    hide RangeFields, ParserRange, ParserInteger, Canonical;
    if k !in SupportedKeys(fields) && ReuseKey(k) in reuse {
      var j :| j in SupportedKeys(fields) && ReuseKey(j) == ReuseKey(k);
      ReuseKeysDiffer(j, k);
    }
  }

  lemma NullReturnsNothing()
    ensures ProducerRange(Null, 0, 0).None? && ProducerInteger(Null).None?
  {
  }

  lemma KeptReturns(k: string, v: Value)
    requires Supported(k, v)
    ensures k in RangeFields() ==> ProducerRange(Kept(k, v), 0, 0) == ParserRange(v, 0, 0)
    ensures k !in RangeFields() ==> ProducerInteger(Kept(k, v)) == ParserInteger(v)
  {
    hide RangeFields, ParserRange, ProducerRange, Canonical;
    if k in RangeFields() {
      RangeStable(v, 0, 0);
    }
  }

  /** Every restored field has the bounds, or the integer, it had. */
  lemma BoundsKept(key: string, v: Value)
    requires Supported(key, v)
    ensures Supported(key, Restored(key, v)) && Restored(key, Restored(key, v)) == Restored(key, v)
    ensures key in RangeFields() ==> ParserRange(Restored(key, v), 0, 0) == ParserRange(v, 0, 0)
    ensures key !in RangeFields() ==> ParserInteger(Restored(key, v)) == ParserInteger(v)
  {
    hide RangeFields, ParserRange, Canonical;
    if key in RangeFields() {
      RangeStable(v, 0, 0);
    }
  }

  // ---- putting the parts together ----

  /** mergeUnsupportedXhttpExtraValue */
  function MergeValue(base: Value, rest: Value): Value
    decreases rest
  {
    if base == Null then rest
    else if base.Obj? && rest.Obj? then
      Obj(map k | k in base.fields.Keys + rest.fields.Keys ::
        if k !in rest.fields then base.fields[k]
        else if k !in base.fields then rest.fields[k]
        else MergeValue(base.fields[k], rest.fields[k]))
    else base
  }

  /** What the base says is never changed by a merge. */
  ghost predicate Extends(base: Value, v: Value)
    decreases base
  {
    base == Null || base == v ||
    (base.Obj? && v.Obj? && forall k :: k in base.fields ==> k in v.fields && Extends(base.fields[k], v.fields[k]))
  }

  lemma {:induction false} MergeExtends(base: Value, rest: Value)
    ensures Extends(base, MergeValue(base, rest))
    decreases base
  {
    if base.Obj? && rest.Obj? {
      var m := MergeValue(base, rest).fields;
      forall k | k in base.fields
        ensures k in m && Extends(base.fields[k], m[k])
      {
        if k in rest.fields {
          MergeExtends(base.fields[k], rest.fields[k]);
        }
      }
    }
  }

  /** An xmux object after both ways: supported fields restored, the others compacted. */
  function Joined(fields: map<string, Value>): map<string, Value> {
    map k | k in fields && (Supported(k, fields[k]) || Compact(fields[k]) != Null) ::
      if Supported(k, fields[k]) then Restored(k, fields[k]) else Compact(fields[k])
  }

  /** Splitting an xmux value, mapping the reuse settings back and merging the remainder
      in gives the whole object again. */
  lemma SplitAndReturn(fields: map<string, Value>, reuse: map<string, Value>)
    requires IsReuse(fields, reuse)
    ensures MergeValue(Wrap(Back(reuse)), Wrap(Rest(fields))) == Wrap(Joined(fields))
  {
    hide Supported, Compact, Restored, IsReuse, Back;
    BackRestores(fields, reuse);
    var base, rest := RestoredFields(fields), Rest(fields);
    assert forall k :: k in base ==> k !in rest;
    forall k | k in fields
      ensures Supported(k, fields[k]) <==> k in base
      ensures !Supported(k, fields[k]) && Compact(fields[k]) != Null <==> k in rest
    {
    }
    if base == map[] {
      assert rest == Joined(fields);
    } else if rest == map[] {
      assert base == Joined(fields);
    } else {
      assert MergeValue(Obj(base), Obj(rest)).fields == Joined(fields);
      var k :| k in base;
      assert k in Joined(fields);
    }
  }

  /** The whole trip: split by the parser, joined by the producer. */
  method RoundTrip(xmux: Value) returns (r: Value)
    ensures r == if xmux.Obj? then Wrap(Joined(xmux.fields)) else xmux
  {
    hide IsReuse, Joined, Rest, Back;
    var reuse := MapXmuxToReuseSettings(xmux);
    var rest := CollectUnsupportedXmux(xmux);
    var base := MapReuseSettingsToXmux(reuse);
    if xmux.Obj? {
      ghost var s :| IsReuse(xmux.fields, s) && reuse == Wrap(s);
      SplitAndReturn(xmux.fields, s);
      NothingBack();
    }
    r := if rest == Null then base else MergeValue(base, rest);
  }

  lemma NothingBack()
    ensures Back(map[]) == map[]
  {
    hide ProducerRange, ProducerInteger;
    NullReturnsNothing();
  }

  /** A second trip changes nothing more. */
  lemma JoinedTwice(fields: map<string, Value>)
    ensures Joined(Joined(fields)) == Joined(fields)
  {
    hide Compact, Restored;
    var once := Joined(fields);
    forall k | k in once
      ensures Supported(k, once[k]) || Compact(once[k]) != Null
      ensures once[k] == if Supported(k, once[k]) then Restored(k, once[k]) else Compact(once[k])
    {
      JoinedStays(k, fields[k]);
    }
  }

  /** Compaction gives no field a value that is read as a range or an integer unless it
      was one before. */
  lemma JoinedStays(k: string, v: Value)
    ensures Supported(k, v) ==> Supported(k, Restored(k, v)) && Restored(k, Restored(k, v)) == Restored(k, v)
    ensures !Supported(k, v) ==> !Supported(k, Compact(v)) && Compact(Compact(v)) == Compact(v)
  {
    if Supported(k, v) {
      BoundsKept(k, v);
    } else {
      CompactTwice(v);
      hide ParserRange, ParserInteger, Compact;
      CompactKeepsKind(v);
    }
  }

  lemma CompactKeepsKind(v: Value)
    ensures ParserRange(Compact(v), 0, 0) == ParserRange(v, 0, 0) && ParserInteger(Compact(v)) == ParserInteger(v)
  {
  }

  // ---- the names and the limits, spelled out ----

  /** camelCase to kebab-case. */
  function Kebab(s: string): string {
    if s == "" then ""
    else (if 'A' <= s[0] <= 'Z' then ['-', s[0] + ' '] else [s[0]]) + Kebab(s[1..])
  }

  lemma {:induction false} KebabOver(w: string, rest: string)
    requires forall i :: 0 <= i < |w| ==> !('A' <= w[i] <= 'Z')
    ensures Kebab(w + rest) == w + Kebab(rest)
    decreases |w|
  {
    if w == "" {
      assert w + rest == rest;
    } else {
      assert (w + rest)[1..] == w[1..] + rest;
      KebabOver(w[1..], rest);
      assert [w[0]] + (w[1..] + Kebab(rest)) == w + Kebab(rest);
    }
  }

  /** One word, a capital, and what follows. */
  lemma KebabWord(w: string, c: char, rest: string)
    requires (forall i :: 0 <= i < |w| ==> !('A' <= w[i] <= 'Z')) && 'A' <= c <= 'Z'
    ensures Kebab(w + [c] + rest) == w + (['-', c + ' '] + Kebab(rest))
  {
    KebabOver(w, [c] + rest);
    assert w + [c] + rest == w + ([c] + rest) && ([c] + rest)[1..] == rest;
  }

  lemma KebabLast(w: string)
    requires forall i :: 0 <= i < |w| ==> !('A' <= w[i] <= 'Z')
    ensures Kebab(w) == w
  {
    KebabOver(w, "");
    assert w + "" == w;
  }

  lemma TwoWords(a: string, c: char, b: string)
    requires (forall i :: 0 <= i < |a| ==> !('A' <= a[i] <= 'Z')) && (forall i :: 0 <= i < |b| ==> !('A' <= b[i] <= 'Z'))
    requires 'A' <= c <= 'Z'
    ensures Kebab(a + [c] + b) == a + (['-', c + ' '] + b)
  {
    KebabWord(a, c, b);
    KebabLast(b);
  }

  lemma FourWords(a: string, c: char, b: string, d: char, e: string, f: char, g: string)
    requires (forall i :: 0 <= i < |a| ==> !('A' <= a[i] <= 'Z')) && (forall i :: 0 <= i < |b| ==> !('A' <= b[i] <= 'Z'))
    requires (forall i :: 0 <= i < |e| ==> !('A' <= e[i] <= 'Z')) && (forall i :: 0 <= i < |g| ==> !('A' <= g[i] <= 'Z'))
    requires 'A' <= c <= 'Z' && 'A' <= d <= 'Z' && 'A' <= f <= 'Z'
    ensures Kebab(a + [c] + (b + [d] + (e + [f] + g))) == a + (['-', c + ' '] + (b + (['-', d + ' '] + (e + (['-', f + ' '] + g)))))
  {
    KebabWord(a, c, b + [d] + (e + [f] + g));
    KebabWord(b, d, e + [f] + g);
    TwoWords(e, f, g);
  }

  lemma KebabConnections()
    ensures Kebab("maxConnections") == "max-connections"
  {
    hide Kebab;
    TwoWords("max", 'C', "onnections");
    assert "max" + ['C'] + "onnections" == "maxConnections";
  }

  lemma KebabConcurrency()
    ensures Kebab("maxConcurrency") == "max-concurrency"
  {
    hide Kebab;
    TwoWords("max", 'C', "oncurrency");
    assert "max" + ['C'] + "oncurrency" == "maxConcurrency";
  }

  lemma KebabReuseTimes()
    ensures Kebab("cMaxReuseTimes") == "c-max-reuse-times"
  {
    hide Kebab;
    FourWords("c", 'M', "ax", 'R', "euse", 'T', "imes");
    assert "c" + ['M'] + ("ax" + ['R'] + ("euse" + ['T'] + "imes")) == "cMaxReuseTimes";
  }

  lemma KebabRequestTimes()
    ensures Kebab("hMaxRequestTimes") == "h-max-request-times"
  {
    hide Kebab;
    FourWords("h", 'M', "ax", 'R', "equest", 'T', "imes");
    assert "h" + ['M'] + ("ax" + ['R'] + ("equest" + ['T'] + "imes")) == "hMaxRequestTimes";
  }

  lemma KebabReusableSecs()
    ensures Kebab("hMaxReusableSecs") == "h-max-reusable-secs"
  {
    hide Kebab;
    FourWords("h", 'M', "ax", 'R', "eusable", 'S', "ecs");
    assert "h" + ['M'] + ("ax" + ['R'] + ("eusable" + ['S'] + "ecs")) == "hMaxReusableSecs";
  }

  lemma KebabKeepAlive()
    ensures Kebab("hKeepAlivePeriod") == "h-keep-alive-period"
  {
    hide Kebab;
    FourWords("h", 'K', "eep", 'A', "live", 'P', "eriod");
    assert "h" + ['K'] + ("eep" + ['A'] + ("live" + ['P'] + "eriod")) == "hKeepAlivePeriod";
  }

  /** Every reuse setting is named after its xmux field. */
  lemma ReuseNames(key: string)
    requires KnownKey(key)
    ensures ReuseKey(key) == Kebab(key)
  {
    KebabConnections();
    KebabConcurrency();
    KebabReuseTimes();
    KebabRequestTimes();
    KebabReusableSecs();
    KebabKeepAlive();
    hide Kebab;
  }

  /** The fields that are supported at all. */
  lemma SupportedFields(key: string, v: Value)
    ensures Supported(key, v) ==>
              key in ["maxConnections", "maxConcurrency", "cMaxReuseTimes", "hMaxRequestTimes", "hMaxReusableSecs", "hKeepAlivePeriod"]
  {
    hide ParserRange, ParserInteger;
    var all := ["maxConnections", "maxConcurrency", "cMaxReuseTimes", "hMaxRequestTimes", "hMaxReusableSecs", "hKeepAlivePeriod"];
    assert all[0] in all && all[1] in all && all[2] in all && all[3] in all && all[4] in all && all[5] in all;
  }

  /** An integer is a range for the parser exactly from 0 to 2^53 - 1. */
  lemma IntRangeExactly(n: int)
    requires n <= MAX_INT
    ensures ParserRange(Int(n), 0, 0) == if 0 <= n < 0x20_0000_0000_0000 then Some((n, n)) else None
  {
    hide TrimSpace, Atoi;
    var t := IntText(n);
    if n >= 0 {
      NumeralEdges(t);
      SplitLast(t, '-');
      TokenOfNumeral(n, MAX_INT);
    } else {
      var d := Itoa(-n);
      NumeralEdges(d);
      TrimKeepsSign(d);
      SplitStep("", '-', d);
      SplitLast(d, '-');
      assert "" + ['-'] + d == "-" + d && [""] + [d] == ["", d];
      assert Token("", SAFE).None? by { TrimKeepsEdges(""); }
    }
  }

  lemma TrimKeepsSign(d: string)
    requires AllDigits(d) && d != ""
    ensures Trimmed("-" + d)
  {
    var s := "-" + d;
    assert IsDigit(d[|d| - 1]) && s[|s| - 1] == d[|d| - 1];
    TrimKeepsEdges(s);
  }

  /** The parser reads a written integer of either sign exactly within 2^53 - 1. */
  lemma IntegerReads(n: int)
    requires -MAX_INT <= n <= MAX_INT
    ensures ParserInteger(Str(IntText(n))) == if -0x20_0000_0000_0000 < n < 0x20_0000_0000_0000 then Some(n) else None
  {
    hide TrimSpace;
    if n >= 0 {
      NumeralEdges(IntText(n));
      AtoiOfItoa(n);
    } else {
      NumeralEdges(Itoa(-n));
      TrimKeepsSign(Itoa(-n));
      DigitsOfItoa(-n);
      assert ("-" + Itoa(-n))[1..] == Itoa(-n);
    }
  }

  // ---- merging, leaf by leaf ----

  /** The value at a path of field names. */
  function At(v: Value, path: seq<string>): Value
    decreases |path|
  {
    if path == [] then v
    else if v.Obj? && path[0] in v.fields then At(v.fields[path[0]], path[1..])
    else Null
  }

  /** Nothing in the base stands at the path or on the way to it. */
  predicate Free(base: Value, path: seq<string>)
    decreases |path|
  {
    base == Null || (path != [] && base.Obj? && (path[0] !in base.fields || Free(base.fields[path[0]], path[1..])))
  }

  /** A leaf of the remainder comes through wherever the base leaves room, at any depth. */
  lemma {:induction false} MergeAddsLeaf(base: Value, rest: Value, path: seq<string>)
    requires Free(base, path) && At(rest, path) != Null
    ensures At(MergeValue(base, rest), path) == At(rest, path)
    decreases |path|
  {
    if base != Null {
      assert rest.Obj? && path[0] in rest.fields;
      var m := MergeValue(base, rest);
      if path[0] in base.fields {
        MergeAddsLeaf(base.fields[path[0]], rest.fields[path[0]], path[1..]);
      }
    }
  }

  /** A leaf of the base stays whatever the remainder holds there. */
  lemma {:induction false} MergeKeepsLeaf(base: Value, rest: Value, path: seq<string>)
    requires At(base, path) != Null && !At(base, path).Obj?
    ensures At(MergeValue(base, rest), path) == At(base, path)
    decreases |path|
  {
    if path != [] && rest.Obj? && path[0] in rest.fields {
      MergeKeepsLeaf(base.fields[path[0]], rest.fields[path[0]], path[1..]);
    }
  }

  // ---- floating-point numbers ----

  /** A whole number is read as that integer, within 2^53 - 1 by the parser and within 64
      bits by the producer. */
  lemma WholeNumbersRead(n: int)
    requires n <= MAX_INT
    ensures ParserInteger(Float(n as real)) == if -0x20_0000_0000_0000 < n < 0x20_0000_0000_0000 then Some(n) else None
    ensures ParserRange(Float(n as real), 0, 0) == if 0 <= n < 0x20_0000_0000_0000 then Some((n, n)) else None
    ensures ProducerInteger(Float(n as real)) == if -0x8000_0000_0000_0000 <= n then Some(n) else None
    ensures ProducerRange(Float(n as real), 0, 0) == ProducerRange(Int(n), 0, 0)
  {
    hide RangeOfText;
    assert (n as real).Floor == n;
    IntRangeExactly(n);
  }

  /** A fraction is read as nothing. */
  lemma FractionsRefused(f: real)
    requires f.Floor as real != f
    ensures ParserInteger(Float(f)).None? && ProducerInteger(Float(f)).None?
    ensures ParserRange(Float(f), 0, 0).None? && ProducerRange(Float(f), 0, 0).None?
  {
    hide RangeOfText;
  }
}
