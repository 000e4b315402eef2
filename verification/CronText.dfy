/** Schedules as people write them, and what parsing makes of them. */
module CronText {
  import opened GoStrings
  import opened Numerals
  import opened Cron

  /** One term of a field: `*`, `v` or `a-b`, with a step or without. */
  datatype Span = Every | One(v: nat) | Range(a: nat, b: nat)
  datatype Written = Written(span: Span, step: Option<nat>)

  function SpanText(p: Span): string {
    match p
    case Every => "*"
    case One(v) => Itoa(v)
    case Range(a, b) => Itoa(a) + "-" + Itoa(b)
  }

  function TermText(w: Written): string {
    SpanText(w.span) + if w.step.None? then "" else "/" + Itoa(w.step.value)
  }

  /** The term a field with these bounds should mean; a bare value stands for itself. */
  function TermFor(w: Written, lo: int, hi: int): Term {
    var step := if w.step.None? then 1 else w.step.value;
    match w.span
    case Every => Term(lo, hi, step)
    case One(v) => Term(v, v, step)
    case Range(a, b) => Term(a, b, step)
  }

  /** The numbers fit the machine. */
  predicate Sized(w: Written) {
    && (w.step.Some? ==> w.step.value <= MAX_INT)
    && match w.span
       case Every => true
       case One(v) => v <= MAX_INT
       case Range(a, b) => a <= MAX_INT && b <= MAX_INT
  }

  /** The step is positive, and the span lies in order within the bounds. */
  predicate Proper(w: Written, lo: int, hi: int) {
    var t := TermFor(w, lo, hi);
    t.step > 0 && lo <= t.start <= t.end <= hi
  }

  lemma DigitsAreNo(s: string, c: char)
    requires AllDigits(s) && !IsDigit(c)
    ensures c !in s
  {
    assert forall i :: 0 <= i < |s| ==> IsDigit(s[i]);
  }

  lemma NotFound(s: string, c: char)
    requires c !in s
    ensures IndexByte(s, c) == -1
  {
    IndexByteIsFirst(s, c);
  }

  lemma FoundBetween(a: string, c: char, b: string)
    requires c !in a
    ensures var s := a + [c] + b;
            IndexByte(s, c) == |a| && s[..|a|] == a && s[|a| + 1..] == b
  {
    var s := a + [c] + b;
    assert s[..|a|] == a && s[|a|] == c;
    IndexByteUnique(s, c, |a|);
  }

  lemma SpanReads(p: Span, lo: int, hi: int)
    requires Sized(Written(p, None))
    ensures var t := TermFor(Written(p, None), lo, hi);
            TermRange(SpanText(p), lo, hi) == Some((t.start, t.end))
    ensures '/' !in SpanText(p) && SpanText(p) != ""
  {
    hide Itoa, Atoi;
    match p
    case Every => {}
    case One(v) => {
      DigitsAreNo(Itoa(v), '-');
      DigitsAreNo(Itoa(v), '/');
      DigitsAreNo(Itoa(v), '*');
      NotFound(Itoa(v), '-');
      AtoiOfItoa(v);
      assert '*' in "*";
    }
    case Range(a, b) => {
      DigitsAreNo(Itoa(a), '-');
      DigitsAreNo(Itoa(a), '/');
      DigitsAreNo(Itoa(b), '/');
      FoundBetween(Itoa(a), '-', Itoa(b));
      AtoiOfItoa(a);
      AtoiOfItoa(b);
      assert |SpanText(p)| > 1;
    }
  }

  /** A written term is read as the term it stands for, or refused when its step is zero or
      its span is out of order or out of bounds. */
  lemma TermReads(w: Written, lo: int, hi: int)
    requires Sized(w)
    ensures TermOf(TermText(w), lo, hi) == if Proper(w, lo, hi) then Some(TermFor(w, lo, hi)) else None
  {
    hide Itoa, Atoi, TermRange;
    var base := SpanText(w.span);
    SpanReads(w.span, lo, hi);
    if w.step.None? {
      assert base + "" == base;
      NotFound(base, '/');
    } else {
      assert TermText(w) == base + ['/'] + Itoa(w.step.value);
      FoundBetween(base, '/', Itoa(w.step.value));
      AtoiOfItoa(w.step.value);
    }
  }

  // ---- fields ----

  function TermTexts(ws: seq<Written>): (ts: seq<string>)
    ensures |ts| == |ws| && forall i :: 0 <= i < |ws| ==> ts[i] == TermText(ws[i])
  {
    if ws == [] then [] else [TermText(ws[0])] + TermTexts(ws[1..])
  }

  function FieldText(ws: seq<Written>): string {
    Join(TermTexts(ws), ",")
  }

  /** The characters of a written field. */
  predicate FieldChars(s: string) {
    forall i :: 0 <= i < |s| ==> IsDigit(s[i]) || s[i] == '*' || s[i] == '-' || s[i] == '/' || s[i] == ','
  }

  lemma TermChars(w: Written)
    ensures FieldChars(TermText(w)) && ',' !in TermText(w) && TermText(w) != ""
  {
    hide Itoa;
    match w.span
    case Every => StepChars(w, "*");
    case One(v) => StepChars(w, Itoa(v));
    case Range(a, b) => {
      assert forall i :: 0 <= i < |Itoa(a)| ==> IsDigit(Itoa(a)[i]);
      assert forall i :: 0 <= i < |Itoa(b)| ==> IsDigit(Itoa(b)[i]);
      StepChars(w, Itoa(a) + "-" + Itoa(b));
    }
  }

  lemma StepChars(w: Written, base: string)
    requires base == SpanText(w.span) && base != ""
    requires forall i :: 0 <= i < |base| ==> IsDigit(base[i]) || base[i] == '*' || base[i] == '-'
    ensures FieldChars(TermText(w)) && ',' !in TermText(w) && TermText(w) != ""
  {
    hide Itoa;
    var t := TermText(w);
    if w.step.Some? {
      var n := Itoa(w.step.value);
      assert forall i :: 0 <= i < |n| ==> IsDigit(n[i]);
      assert t == base + ("/" + n);
    } else {
      assert t == base;
    }
  }

  lemma {:induction false} FieldIsText(ws: seq<Written>)
    requires ws != []
    ensures FieldChars(FieldText(ws)) && FieldText(ws) != ""
    decreases |ws|
  {
    hide TermText;
    TermChars(ws[0]);
    JoinCons(TermText(ws[0]), TermTexts(ws[1..]), ",");
    if |ws| > 1 {
      FieldIsText(ws[1..]);
    }
  }

  lemma FieldSplits(ws: seq<Written>)
    requires ws != []
    ensures Split(FieldText(ws), ',') == TermTexts(ws)
  {
    hide TermText;
    forall p | p in TermTexts(ws)
      ensures ',' !in p
    {
      var i :| 0 <= i < |ws| && TermTexts(ws)[i] == p;
      TermChars(ws[i]);
    }
    SplitJoin(TermTexts(ws), ',');
  }

  ghost predicate OnWritten(v: int, ws: seq<Written>, lo: int, hi: int) {
    exists k :: 0 <= k < |ws| && OnTerm(v, TermFor(ws[k], lo, hi))
  }

  /** The values of a written field are those of its terms. */
  lemma FieldReads(v: int, ws: seq<Written>, lo: int, hi: int)
    requires ws != [] && forall k :: 0 <= k < |ws| ==> Sized(ws[k]) && Proper(ws[k], lo, hi)
    ensures OnField(v, Split(FieldText(ws), ','), lo, hi) <==> OnWritten(v, ws, lo, hi)
  {
    hide TermText, TermOf, OnTerm, TermFor, Sized, Proper, FieldText;
    FieldSplits(ws);
    forall k | 0 <= k < |ws|
      ensures OnPart(v, TermTexts(ws)[k], lo, hi) <==> OnTerm(v, TermFor(ws[k], lo, hi))
    {
      TermReads(ws[k], lo, hi);
    }
  }

  // ---- expressions ----

  function FieldTexts(fs: seq<seq<Written>>): (ts: seq<string>)
    ensures |ts| == |fs| && forall i :: 0 <= i < |fs| ==> ts[i] == FieldText(fs[i])
  {
    if fs == [] then [] else [FieldText(fs[0])] + FieldTexts(fs[1..])
  }

  /** The fields with single spaces between them. */
  function ExpressionText(fs: seq<seq<Written>>): string {
    Join(FieldTexts(fs), " ")
  }

  predicate IsWord(s: string) {
    s != "" && forall i :: 0 <= i < |s| ==> IsPlain(s[i])
  }

  lemma {:induction false} OverWord(w: string, rest: string, word: string)
    requires forall i :: 0 <= i < |w| ==> IsPlain(w[i])
    ensures Words(w + rest, word) == Words(rest, word + w)
    decreases |w|
  {
    if w == "" {
      assert w + rest == rest && word + w == word;
    } else {
      assert (w + rest)[1..] == w[1..] + rest;
      assert (word + [w[0]]) + w[1..] == word + w;
      OverWord(w[1..], rest, word + [w[0]]);
    }
  }

  lemma {:induction false} WordsOfJoined(ws: seq<string>)
    requires forall i :: 0 <= i < |ws| ==> IsWord(ws[i])
    ensures Words(Join(ws, " "), "") == ws
    decreases |ws|
  {
    if ws != [] {
      var w, rest := ws[0], if |ws| == 1 then "" else " " + Join(ws[1..], " ");
      assert [w] + ws[1..] == ws;
      JoinCons(w, ws[1..], " ");
      assert Join(ws, " ") == w + rest;
      OverWord(w, rest, "");
      assert "" + w == w;
      if |ws| > 1 {
        assert rest[1..] == Join(ws[1..], " ");
        assert LeadingSpace(rest) == 1;
        WordsOfJoined(ws[1..]);
      }
    }
  }

  lemma {:induction false} JoinedEdges(ws: seq<string>)
    requires ws != [] && forall i :: 0 <= i < |ws| ==> IsWord(ws[i])
    ensures var s := Join(ws, " "); s != "" && IsPlain(s[0]) && IsPlain(s[|s| - 1])
    decreases |ws|
  {
    JoinCons(ws[0], ws[1..], " ");
    assert [ws[0]] + ws[1..] == ws;
    if |ws| > 1 {
      JoinedEdges(ws[1..]);
    }
  }

  /** A written expression splits into its fields. */
  lemma ExpressionSplits(fs: seq<seq<Written>>)
    requires fs != [] && forall i :: 0 <= i < |fs| ==> fs[i] != []
    ensures Words(TrimSpace(ExpressionText(fs)), "") == FieldTexts(fs)
  {
    hide FieldText, Words, TrimSpace;
    var ws := FieldTexts(fs);
    forall i | 0 <= i < |ws|
      ensures IsWord(ws[i])
    {
      FieldIsText(fs[i]);
    }
    JoinedEdges(ws);
    TrimKeepsEdges(ExpressionText(fs));
    WordsOfJoined(ws);
  }

  /** Every term of field i is proper within the bounds of that field. */
  predicate ProperField(ws: seq<Written>, i: nat)
    requires i < 5
  {
    forall k :: 0 <= k < |ws| ==> Proper(ws[k], [0, 0, 1, 1, 0][i], [59, 23, 31, 12, 6][i])
  }

  /** A written five-field expression means exactly the values written in each field, with
      minutes 0-59, hours 0-23, days 1-31, months 1-12 and weekdays 0-6; it is refused
      exactly when some term is improper. */
  lemma ExpressionReads(fs: seq<seq<Written>>)
    requires |fs| == 5 && forall i, k :: 0 <= i < 5 && 0 <= k < |fs[i]| ==> Sized(fs[i][k])
    requires forall i :: 0 <= i < 5 ==> fs[i] != []
    ensures var r := Meaning(ExpressionText(fs));
            && (r.Ok? <==> forall i :: 0 <= i < 5 ==> ProperField(fs[i], i))
            && (r.Ok? ==>
                  && (forall v :: v in r.value.minutes <==> OnWritten(v, fs[0], 0, 59))
                  && (forall v :: v in r.value.hours <==> OnWritten(v, fs[1], 0, 23))
                  && (forall v :: v in r.value.days <==> OnWritten(v, fs[2], 1, 31))
                  && (forall v :: v in r.value.months <==> OnWritten(v, fs[3], 1, 12))
                  && (forall v :: v in r.value.weekdays <==> OnWritten(v, fs[4], 0, 6)))
  {
    hide OnWritten, FieldText, Words, ProperField, FieldValues, BadField, TrimSpace, ExpressionText;
    ExpressionSplits(fs);
    var words := FieldTexts(fs);
    forall i: nat | i < 5
      ensures BadField(words, i) <==> !ProperField(fs[i], i)
    {
      BadExactly(words, fs, i);
    }
    if forall i :: 0 <= i < 5 ==> ProperField(fs[i], i) {
      ValuesAre(words, fs, 0);
      ValuesAre(words, fs, 1);
      ValuesAre(words, fs, 2);
      ValuesAre(words, fs, 3);
      ValuesAre(words, fs, 4);
    }
  }

  lemma BadExactly(words: seq<string>, fs: seq<seq<Written>>, i: nat)
    requires |fs| == 5 && i < 5 && words == FieldTexts(fs) && fs[i] != []
    requires forall k :: 0 <= k < |fs[i]| ==> Sized(fs[i][k])
    ensures BadField(words, i) <==> !ProperField(fs[i], i)
  {
    hide TermText, TermOf, FieldText, Sized, Proper;
    var ws := fs[i];
    FieldSplits(ws);
    forall k | 0 <= k < |ws|
      ensures TermOf(TermTexts(ws)[k], LOW[i], HIGH[i]).None? <==> !Proper(ws[k], LOW[i], HIGH[i])
    {
      TermReads(ws[k], LOW[i], HIGH[i]);
    }
    if !ProperField(ws, i) {
      var k :| 0 <= k < |ws| && !Proper(ws[k], LOW[i], HIGH[i]);
      assert TermTexts(ws)[k] in TermTexts(ws);
    }
  }

  lemma ValuesAre(words: seq<string>, fs: seq<seq<Written>>, i: nat)
    requires |fs| == 5 && i < 5 && words == FieldTexts(fs) && fs[i] != [] && ProperField(fs[i], i)
    requires forall k :: 0 <= k < |fs[i]| ==> Sized(fs[i][k])
    ensures forall v :: v in FieldValues(words, i) <==> OnWritten(v, fs[i], LOW[i], HIGH[i])
  {
    hide OnWritten, FieldText, OnField, Sized, Proper;
    forall v
      ensures v in FieldValues(words, i) <==> OnWritten(v, fs[i], LOW[i], HIGH[i])
    {
      FieldReads(v, fs[i], LOW[i], HIGH[i]);
      if OnField(v, Split(words[i], ','), LOW[i], HIGH[i]) {
        OnFieldBounds(v, Split(words[i], ','), LOW[i], HIGH[i]);
      }
    }
  }
}
