/** Five-field cron schedules: parsing, matching and the search for the next minute. */
module Cron {
  import opened GoStrings
  import opened Numerals

  datatype Result<+T> = Ok(value: T) | Err

  /** The five sets of allowed values. */
  datatype Schedule = Schedule(minutes: set<int>, hours: set<int>, days: set<int>, months: set<int>, weekdays: set<int>)

  // ---- fields ----

  /** One term of a field, as written: `start-end/step`. */
  datatype Term = Term(start: int, end: int, step: int)

  function TermStep(part: string): Option<int> {
    var i := IndexByte(part, '/');
    if i < 0 then Some(1)
    else
      var s := Atoi(part[i + 1..]);
      if s.Some? && s.value > 0 then s else None
  }

  function TermRange(base: string, lo: int, hi: int): Option<(int, int)> {
    if base == "*" then Some((lo, hi))
    else
      var k := IndexByte(base, '-');
      if k >= 0 then
        var a, b := Atoi(base[..k]), Atoi(base[k + 1..]);
        if a.Some? && b.Some? then Some((a.value, b.value)) else None
      else
        var v := Atoi(base);
        if v.Some? then Some((v.value, v.value)) else None
  }

  /** The meaning of one comma-separated part of a field. */
  function TermOf(part: string, lo: int, hi: int): (t: Option<Term>)
    ensures t.Some? ==> lo <= t.value.start <= t.value.end <= hi && t.value.step > 0
  {
    var i := IndexByte(part, '/');
    var step := TermStep(part);
    var range := TermRange(if i >= 0 then part[..i] else part, lo, hi);
    if part == "" || step.None? || range.None? then None
    else
      var (a, b) := range.value;
      if a < lo || b > hi || a > b then None else Some(Term(a, b, step.value))
  }

  /** The n-th value of the written progression. */
  function Nth(t: Term, n: nat): int {
    t.start + n * t.step
  }

  /** `v` lies on the term's progression, within its end. */
  ghost predicate OnTerm(v: int, t: Term) {
    v <= t.end && exists n: nat :: v == Nth(t, n)
  }

  /** `v` lies on the progression of one of the field's parts. */
  ghost predicate OnField(v: int, parts: seq<string>, lo: int, hi: int) {
    exists k :: 0 <= k < |parts| && OnPart(v, parts[k], lo, hi)
  }

  ghost predicate OnPart(v: int, part: string, lo: int, hi: int) {
    var t := TermOf(part, lo, hi);
    t.Some? && OnTerm(v, t.value)
  }

  method ParseTerm(part: string, lo: int, hi: int) returns (t: Option<Term>)
    ensures t == TermOf(part, lo, hi)
  {
    hide Atoi, IndexByte;
    if part == "" {
      return None;
    }
    var step, base := 1, part;
    var i := IndexByte(part, '/');
    if i >= 0 {
      base := part[..i];
      var s := Atoi(part[i + 1..]);
      if s.None? || s.value <= 0 {
        return None;
      }
      step := s.value;
    }
    var start, end := lo, hi;
    if base == "*" {
    } else if IndexByte(base, '-') >= 0 {
      var k := IndexByte(base, '-');
      var a, b := Atoi(base[..k]), Atoi(base[k + 1..]);
      if a.None? || b.None? {
        return None;
      }
      start, end := a.value, b.value;
    } else {
      var v := Atoi(base);
      if v.None? {
        return None;
      }
      start, end := v.value, v.value;
    }
    if start < lo || end > hi || start > end {
      return None;
    }
    return Some(Term(start, end, step));
  }

  /** parseField: an error when some part is malformed or out of range, and otherwise
      exactly the values on the written progressions. */
  method ParseField(f: string, lo: int, hi: int) returns (r: Result<set<int>>)
    ensures r.Err? <==> exists part :: part in Split(f, ',') && TermOf(part, lo, hi).None?
    ensures r.Ok? ==> forall v :: v in r.value <==> OnField(v, Split(f, ','), lo, hi)
  {
    hide TermOf, OnField, OnPart;
    var out: set<int> := {};
    var parts := Split(f, ',');
    NoParts(parts, lo, hi);
    for n := 0 to |parts|
      invariant forall k :: 0 <= k < n ==> TermOf(parts[k], lo, hi).Some?
      invariant forall v :: v in out <==> OnField(v, parts[..n], lo, hi)
    {
      var term := ParseTerm(parts[n], lo, hi);
      if term.None? {
        assert parts[n] in parts;
        return Err;
      }
      out := AddProgression(out, term.value);
      forall v
        ensures v in out <==> OnField(v, parts[..n + 1], lo, hi)
      {
        OneMorePart(v, parts, n, lo, hi);
        OnPartIs(v, parts[n], lo, hi);
      }
    }
    assert parts[..|parts|] == parts;
    return Ok(out);
  }

  lemma NoParts(parts: seq<string>, lo: int, hi: int)
    ensures forall v :: !OnField(v, parts[..0], lo, hi)
  {
  }

  lemma OnPartIs(v: int, part: string, lo: int, hi: int)
    requires TermOf(part, lo, hi).Some?
    ensures OnPart(v, part, lo, hi) <==> OnTerm(v, TermOf(part, lo, hi).value)
  {
  }

  lemma OneMorePart(v: int, parts: seq<string>, n: nat, lo: int, hi: int)
    requires n < |parts|
    ensures OnField(v, parts[..n + 1], lo, hi) <==> OnField(v, parts[..n], lo, hi) || OnPart(v, parts[n], lo, hi)
  {
    hide OnPart;
    var before, after := parts[..n], parts[..n + 1];
    assert forall k :: 0 <= k < n ==> before[k] == after[k];
    assert after[n] == parts[n];
    if OnField(v, after, lo, hi) {
      var k :| 0 <= k < n + 1 && OnPart(v, after[k], lo, hi);
      assert k < n ==> OnPart(v, before[k], lo, hi);
    }
  }

  /** for v := start; v <= end; v += step: adds v. */
  method AddProgression(out: set<int>, t: Term) returns (r: set<int>)
    requires t.step > 0
    ensures forall v :: v in r <==> v in out || OnTerm(v, t)
  {
    r := out;
    var v := t.start;
    ghost var n: nat := 0;
    while v <= t.end
      invariant v == Nth(t, n)
      invariant forall w :: w in r <==> w in out || exists m: nat :: m < n && w == Nth(t, m)
      invariant forall m: nat :: m < n ==> Nth(t, m) <= t.end
      decreases t.end - v
    {
      r := r + {v};
      v := v + t.step;
      n := n + 1;
    }
    forall m: nat | Nth(t, m) <= t.end
      ensures m < n
    {
      if m >= n { NthGrows(t, n, m); }
    }
  }

  lemma NthGrows(t: Term, n: nat, m: nat)
    requires t.step > 0 && n <= m
    ensures Nth(t, n) <= Nth(t, m)
  {
    assert (m - n) * t.step >= 0;
  }

  // ---- the loop on 64-bit integers ----

  const TWO64 := 0x1_0000_0000_0000_0000

  /** The sum of a 64-bit integer and a positive one. */
  function Wrap(n: int): int {
    if n > MAX_INT then n - TWO64 else n
  }

  /** The loop variable after n rounds. */
  function Nth64(t: Term, n: nat): int {
    if n == 0 then t.start else Wrap(Nth64(t, n - 1) + t.step)
  }

  /** The loop adds `v`: it comes by before the variable first exceeds the end. */
  ghost predicate Visited(v: int, t: Term) {
    exists n: nat :: v == Nth64(t, n) && forall m: nat :: m <= n ==> Nth64(t, m) <= t.end
  }

  lemma {:induction false} NoWrap(t: Term, n: nat)
    requires 0 <= t.start <= t.end <= 59 && 0 < t.step && t.start + t.step <= MAX_INT
    requires forall m: nat :: m < n ==> Nth64(t, m) <= t.end
    ensures Nth64(t, n) == Nth(t, n)
    decreases n
  {
    if n == 1 {
      assert Nth64(t, 0) == t.start;
    } else if n > 1 {
      NoWrap(t, n - 1);
      assert Nth(t, n) == Nth(t, n - 1) + t.step;
      assert Nth(t, n - 1) == t.start + (n - 1) * t.step && (n - 1) * t.step >= t.step;
    }
  }

  lemma {:induction false} OnTermIsVisited(t: Term, n: nat)
    requires 0 <= t.start <= t.end <= 59 && 0 < t.step && t.start + t.step <= MAX_INT
    requires Nth(t, n) <= t.end
    ensures forall m: nat :: m <= n ==> Nth64(t, m) == Nth(t, m) && Nth64(t, m) <= t.end
    decreases n
  {
    if n > 0 {
      NthGrows(t, n - 1, n);
      OnTermIsVisited(t, n - 1);
    }
    NoWrap(t, n);
  }

  /** The 64-bit loop adds exactly the written progression if and only if its first step
      does not wrap around. */
  lemma WrapExactly(t: Term)
    requires 0 <= t.start <= t.end <= 59 && 0 < t.step <= MAX_INT
    ensures (forall v :: Visited(v, t) <==> OnTerm(v, t)) <==> t.start + t.step <= MAX_INT
  {
    if t.start + t.step <= MAX_INT {
      forall v
        ensures Visited(v, t) <==> OnTerm(v, t)
      {
        if Visited(v, t) {
          var n: nat :| v == Nth64(t, n) && forall m: nat :: m <= n ==> Nth64(t, m) <= t.end;
          NoWrap(t, n);
        }
        if OnTerm(v, t) {
          var n: nat :| v == Nth(t, n);
          OnTermIsVisited(t, n);
        }
      }
    } else {
      var v := t.start + t.step - TWO64;
      assert Nth64(t, 0) == t.start && Nth64(t, 1) == v;
      assert Visited(v, t);
      if OnTerm(v, t) {
        var n: nat :| v == Nth(t, n);
        NthGrows(t, 0, n);
      }
    }
  }

  /** An example: the term 5/9223372036854775807 also adds 3. */
  lemma WrapExample()
    ensures Visited(3, Term(5, 5, MAX_INT))
  {
    var t := Term(5, 5, MAX_INT);
    assert Nth64(t, 0) == 5 && Nth64(t, 1) == 5 + MAX_INT - TWO64 && Nth64(t, 2) == 3;
    forall m: nat | m <= 2
      ensures Nth64(t, m) <= t.end
    {
      assert m == 0 || m == 1 || m == 2;
    }
  }

  // ---- whole expressions ----

  /** strings.Fields: the runs of characters between white space. */
  function Words(s: string, word: string): seq<string> {
    if s == "" then (if word == "" then [] else [word])
    else if LeadingSpace(s) > 0 then
      (if word == "" then [] else [word]) + Words(s[LeadingSpace(s)..], "")
    else Words(s[1..], word + [s[0]])
  }

  /** The bounds of the five fields. */
  const LOW := [0, 0, 1, 1, 0]
  const HIGH := [59, 23, 31, 12, 6]

  /** The values of field `i` of an expression. */
  ghost predicate OnExpression(v: int, words: seq<string>, i: nat)
    requires |words| == 5 && i < 5
  {
    OnField(v, Split(words[i], ','), LOW[i], HIGH[i])
  }

  ghost predicate BadField(words: seq<string>, i: nat)
    requires |words| == 5 && i < 5
  {
    exists part :: part in Split(words[i], ',') && TermOf(part, LOW[i], HIGH[i]).None?
  }

  /** What Parse returns: nonempty sets inside the bounds of their fields. */
  predicate Parsed(s: Schedule) {
    && s.minutes != {} && (forall v :: v in s.minutes ==> 0 <= v <= 59)
    && s.hours != {} && (forall v :: v in s.hours ==> 0 <= v <= 23)
    && s.days != {} && (forall v :: v in s.days ==> 1 <= v <= 31)
    && s.months != {} && (forall v :: v in s.months ==> 1 <= v <= 12)
    && s.weekdays != {} && (forall v :: v in s.weekdays ==> 0 <= v <= 6)
  }

  lemma OnFieldBounds(v: int, parts: seq<string>, lo: int, hi: int)
    requires OnField(v, parts, lo, hi)
    ensures lo <= v <= hi
  {
    var k :| 0 <= k < |parts| && OnPart(v, parts[k], lo, hi);
    var t := TermOf(parts[k], lo, hi).value;
    var n: nat :| v == Nth(t, n);
    NthGrows(t, 0, n);
  }

  /** A field without a malformed part has a value, and only values within its bounds. */
  lemma FieldIsInhabited(values: set<int>, f: string, lo: int, hi: int)
    requires forall part :: part in Split(f, ',') ==> TermOf(part, lo, hi).Some?
    requires forall v :: v in values <==> OnField(v, Split(f, ','), lo, hi)
    ensures values != {} && forall v :: v in values ==> lo <= v <= hi
  {
    var parts := Split(f, ',');
    var t := TermOf(parts[0], lo, hi).value;
    assert Nth(t, 0) == t.start;
    assert OnTerm(t.start, t);
    assert OnPart(t.start, parts[0], lo, hi);
    assert t.start in values;
    forall v | v in values {
      OnFieldBounds(v, parts, lo, hi);
    }
  }

  /** The values of field `i`: those on its written progressions. */
  ghost function FieldValues(words: seq<string>, i: nat): set<int>
    requires |words| == 5 && i < 5
  {
    set v | LOW[i] <= v <= HIGH[i] && OnExpression(v, words, i)
  }

  /** What a cron expression means. */
  ghost function Meaning(expr: string): Result<Schedule> {
    var words := Words(TrimSpace(expr), "");
    if |words| != 5 || exists i: nat :: i < 5 && BadField(words, i) then Err
    else Ok(Schedule(FieldValues(words, 0), FieldValues(words, 1), FieldValues(words, 2), FieldValues(words, 3), FieldValues(words, 4)))
  }

  lemma FieldValuesInhabited(words: seq<string>, i: nat)
    requires |words| == 5 && i < 5 && !BadField(words, i)
    ensures FieldValues(words, i) != {} && forall v :: v in FieldValues(words, i) ==> LOW[i] <= v <= HIGH[i]
  {
    hide OnField, TermOf;
    forall v | OnField(v, Split(words[i], ','), LOW[i], HIGH[i]) {
      OnFieldBounds(v, Split(words[i], ','), LOW[i], HIGH[i]);
    }
    FieldIsInhabited(FieldValues(words, i), words[i], LOW[i], HIGH[i]);
  }

  /** A well-formed expression means nonempty sets within the bounds of their fields. */
  lemma MeaningIsParsed(expr: string)
    requires Meaning(expr).Ok?
    ensures Parsed(Meaning(expr).value)
  {
    hide FieldValues, BadField, TrimSpace, Words;
    var words := Words(TrimSpace(expr), "");
    forall i: nat | i < 5 {
      FieldValuesInhabited(words, i);
    }
    assert LOW[0] == 0 && LOW[1] == 0 && LOW[2] == 1 && LOW[3] == 1 && LOW[4] == 0;
    assert HIGH[0] == 59 && HIGH[1] == 23 && HIGH[2] == 31 && HIGH[3] == 12 && HIGH[4] == 6;
  }

  lemma SameValues(values: set<int>, words: seq<string>, i: nat)
    requires |words| == 5 && i < 5
    requires forall v :: v in values <==> OnField(v, Split(words[i], ','), LOW[i], HIGH[i])
    ensures values == FieldValues(words, i)
  {
    hide OnField;
    forall v | v in values {
      OnFieldBounds(v, Split(words[i], ','), LOW[i], HIGH[i]);
    }
  }

  /** Parse: an error unless there are five well-formed fields; otherwise each set holds
      exactly the values on the written progressions of its field. */
  method Parse(expr: string) returns (r: Result<Schedule>)
    ensures r == Meaning(expr)
    ensures r.Ok? ==> Parsed(r.value)
  {
    hide OnField, TermOf, Words, TrimSpace, FieldValues, Parsed;
    var fields := Words(TrimSpace(expr), "");
    if |fields| != 5 {
      return Err;
    }
    var sets: seq<set<int>> := [];
    for i := 0 to 5
      invariant |sets| == i
      invariant forall k: nat :: k < i ==> !BadField(fields, k)
      invariant forall k: nat :: k < i ==> sets[k] == FieldValues(fields, k)
    {
      var field := ParseField(fields[i], LOW[i], HIGH[i]);
      if field.Err? {
        assert BadField(fields, i);
        return Err;
      }
      SameValues(field.value, fields, i);
      sets := sets + [field.value];
    }
    MeaningIsParsed(expr);
    return Ok(Schedule(sets[0], sets[1], sets[2], sets[3], sets[4]));
  }
}
