/** Numbering or dropping proxies that share the same key fields. */
module Duplicates {
  import opened GoStrings
  import opened Numerals
  import opened Proxies

  datatype Position = Front | Back | Neither

  /** The operator's options; `numbers` is the template split at its spaces. */
  datatype Options = Options(fields: seq<string>, numbers: seq<string>, link: string, position: Position)

  function FieldText(p: Proxy, field: string): string {
    if field in p then p[field] else "-"
  }

  function FieldTexts(p: Proxy, fields: seq<string>): seq<string> {
    if fields == [] then [] else [FieldText(p, fields[0])] + FieldTexts(p, fields[1..])
  }

  /** joinFields */
  function Key(p: Proxy, fields: seq<string>): string {
    Join(FieldTexts(p, fields), "_")
  }

  function Keys(ps: seq<Proxy>, fields: seq<string>): (ks: seq<string>)
    ensures |ks| == |ps| && forall i :: 0 <= i < |ps| ==> ks[i] == Key(ps[i], fields)
  {
    seq(|ps|, i requires 0 <= i < |ps| => Key(ps[i], fields))
  }

  // ---- occurrences ----

  function Count(ks: seq<string>, k: string): (n: nat)
    ensures n <= |ks|
  {
    if ks == [] then 0 else Count(ks[..|ks| - 1], k) + if ks[|ks| - 1] == k then 1 else 0
  }

  lemma CountSnoc(ks: seq<string>, i: nat, k: string)
    requires i < |ks|
    ensures Count(ks[..i + 1], k) == Count(ks[..i], k) + if ks[i] == k then 1 else 0
  {
    assert ks[..i + 1][..i] == ks[..i];
  }

  /** The i-th key's place, from 1, among the equal ones. */
  function Rank(ks: seq<string>, i: nat): nat
    requires i < |ks|
  {
    Count(ks[..i + 1], ks[i])
  }

  lemma {:induction false} CountGrows(ks: seq<string>, i: nat, j: nat, k: string)
    requires i <= j <= |ks|
    ensures Count(ks[..i], k) <= Count(ks[..j], k)
    decreases j - i
  {
    if i < j {
      CountSnoc(ks, j - 1, k);
      CountGrows(ks, i, j - 1, k);
    }
  }

  /** The members of a group are ranked 1, 2, ... up to the group's size. */
  lemma RanksGrow(ks: seq<string>, i: nat, j: nat)
    requires i < j < |ks| && ks[i] == ks[j]
    ensures 1 <= Rank(ks, i) < Rank(ks, j) <= Count(ks, ks[i])
  {
    hide Count;
    CountSnoc(ks, i, ks[i]);
    CountSnoc(ks, j, ks[j]);
    CountGrows(ks, i + 1, j, ks[i]);
    CountGrows(ks, j + 1, |ks|, ks[i]);
    assert ks[..|ks|] == ks;
  }

  lemma RankFits(ks: seq<string>, i: nat)
    requires i < |ks|
    ensures 1 <= Rank(ks, i) <= Count(ks, ks[i])
  {
    CountSnoc(ks, i, ks[i]);
    CountGrows(ks, i + 1, |ks|, ks[i]);
    assert ks[..|ks|] == ks;
  }

  /** Every rank up to the group's size is taken. */
  lemma {:induction false} RankTaken(ks: seq<string>, k: string, r: nat) returns (i: nat)
    requires 1 <= r <= Count(ks, k)
    ensures i < |ks| && ks[i] == k && Rank(ks, i) == r
    decreases |ks|
  {
    var n := |ks| - 1;
    assert ks[..n + 1] == ks;
    if ks[n] == k && Count(ks, k) == r {
      i := n;
    } else {
      i := RankTaken(ks[..n], k, r);
      assert ks[..n][..i + 1] == ks[..i + 1];
    }
  }

  // ---- numbering ----

  /** The common width: as many digits as the largest rank has. */
  function Width(ks: seq<string>): nat {
    if ks == [] then 0
    else
      var w, l := Width(ks[..|ks| - 1]), |Itoa(Count(ks, ks[|ks| - 1]))|;
      if l > w then l else w
  }

  lemma {:induction false} RankFitsWidth(ks: seq<string>, i: nat)
    requires i < |ks|
    ensures |Itoa(Rank(ks, i))| <= Width(ks)
    decreases |ks|
  {
    var n := |ks| - 1;
    assert ks[..n + 1] == ks;
    if i < n {
      RankFitsWidth(ks[..n], i);
      assert ks[..n][..i + 1] == ks[..i + 1];
    }
  }

  /** ... and no wider. */
  lemma {:induction false} WidthIsReached(ks: seq<string>) returns (i: nat)
    requires ks != []
    ensures i < |ks| && |Itoa(Rank(ks, i))| == Width(ks)
    decreases |ks|
  {
    var n := |ks| - 1;
    assert ks[..n + 1] == ks;
    if n > 0 && |Itoa(Count(ks, ks[n]))| <= Width(ks[..n]) {
      i := WidthIsReached(ks[..n]);
      assert ks[..n][..i + 1] == ks[..i + 1];
    } else {
      i := n;
    }
  }

  /** The template's word for a digit. */
  function Token(numbers: seq<string>, d: nat): string {
    if d < |numbers| then numbers[d] else "undefined"
  }

  function Written(numbers: seq<string>, n: nat): string
  {
    if n == 0 then "" else Written(numbers, n / 10) + Token(numbers, n % 10)
  }

  function Repeat(word: string, n: nat): string {
    if n == 0 then "" else word + Repeat(word, n - 1)
  }

  /** The label of rank n: its digits in template words behind enough zeros. */
  function Label(numbers: seq<string>, n: nat, width: nat): string {
    var l := |Itoa(n)|;
    Repeat(Token(numbers, 0), if l < width then width - l else 0) + Written(numbers, n)
  }

  lemma NoRepeat(word: string)
    ensures Repeat(word, 0) == ""
  {
  }

  lemma RepeatSnoc(word: string, n: nat)
    ensures word + Repeat(word, n) == Repeat(word, n + 1)
  {
  }

  /** The loops that build a label. */
  method BuildLabel(numbers: seq<string>, count: nat, width: nat) returns (num: string)
    requires count > 0
    ensures num == Label(numbers, count, width)
  {
    num := "";
    hide Repeat;
    var cnt: nat, digits: nat := count, 0;
    assert Written(numbers, count) + "" == Written(numbers, count);
    while cnt > 0
      invariant Written(numbers, cnt) + num == Written(numbers, count)
      invariant if cnt > 0 then |Itoa(cnt)| + digits == |Itoa(count)| else digits == |Itoa(count)|
    {
      var tok := "undefined";
      if cnt % 10 < |numbers| {
        tok := numbers[cnt % 10];
      }
      Assoc(Written(numbers, cnt / 10), tok, num);
      num := tok + num;
      cnt := cnt / 10;
      digits := digits + 1;
    }
    assert Written(numbers, 0) + num == num;
    ghost var written := num;
    var pads: nat := 0;
    NoRepeat(Token(numbers, 0));
    assert "" + written == written;
    while digits < width
      invariant pads == digits - |Itoa(count)|
      invariant pads == 0 || digits <= width
      invariant num == Repeat(Token(numbers, 0), pads) + written
    {
      var pad := if |numbers| > 0 then numbers[0] else "undefined";
      RepeatSnoc(pad, pads);
      Assoc(pad, Repeat(pad, pads), written);
      num := pad + num;
      digits := digits + 1;
      pads := pads + 1;
    }
  }

  function Named(p: Proxy, o: Options, num: string): Proxy {
    match o.position
    case Front => p["name" := num + o.link + Name(p)]
    case Back => p["name" := Name(p) + o.link + num]
    case Neither => p
  }

  /** What the numbering makes of each proxy. */
  function Renamed(ps: seq<Proxy>, o: Options): (out: seq<Proxy>)
    ensures |out| == |ps|
  {
    var ks := Keys(ps, o.fields);
    seq(|ps|, i requires 0 <= i < |ps| =>
      if Count(ks, ks[i]) <= 1 then ps[i] else Named(ps[i], o, Label(o.numbers, Rank(ks, i), Width(ks))))
  }

  lemma WidthSnoc(ks: seq<string>, i: nat)
    requires i < |ks|
    ensures var l := |Itoa(Rank(ks, i))|;
            Width(ks[..i + 1]) == if l > Width(ks[..i]) then l else Width(ks[..i])
  {
    assert ks[..i + 1][..i] == ks[..i];
  }

  /** The counting loop of the rename action. */
  method CountKeys(ps: seq<Proxy>, fields: seq<string>) returns (counter: map<string, nat>, maxLen: nat)
    ensures var ks := Keys(ps, fields);
            && (forall k :: k in counter ==> counter[k] == Count(ks, k))
            && (forall i :: 0 <= i < |ps| ==> ks[i] in counter)
            && maxLen == Width(ks)
  {
    hide Width, Rank, Key, Count, Itoa;
    ghost var ks := Keys(ps, fields);
    counter, maxLen := map[], 0;
    CountsNothing();
    assert ks[..0] == [];
    for i := 0 to |ps|
      invariant forall k :: k in counter ==> counter[k] == Count(ks[..i], k)
      invariant forall k :: k !in counter ==> Count(ks[..i], k) == 0
      invariant forall j :: 0 <= j < i ==> ks[j] in counter
      invariant maxLen == Width(ks[..i])
    {
      var key := Key(ps[i], fields);
      forall k { CountSnoc(ks, i, k); }
      RankIs(ks, i);
      WidthSnoc(ks, i);
      counter := counter[key := (if key in counter then counter[key] else 0) + 1];
      var l := |Itoa(counter[key])|;
      if l > maxLen {
        maxLen := l;
      }
    }
    assert ks[..|ps|] == ks;
  }

  lemma RenamedAt(ps: seq<Proxy>, o: Options, i: nat)
    requires i < |ps|
    ensures var ks := Keys(ps, o.fields);
            Renamed(ps, o)[i] ==
            if Count(ks, ks[i]) <= 1 then ps[i] else Named(ps[i], o, Label(o.numbers, Rank(ks, i), Width(ks)))
  {
  }

  /** The rename action. */
  method NumberDuplicates(ps: seq<Proxy>, o: Options) returns (out: seq<Proxy>)
    ensures out == Renamed(ps, o)
  {
    hide Width, Rank, Label, Key, Count, Renamed, Named;
    ghost var ks := Keys(ps, o.fields);
    var counter, maxLen := CountKeys(ps, o.fields);
    var increment: map<string, nat> := map[];
    out := [];
    CountsNothing();
    assert ks[..0] == [];
    for i := 0 to |ps|
      invariant |out| == i
      invariant forall j :: 0 <= j < i ==> out[j] == Renamed(ps, o)[j]
      invariant forall k :: k in increment ==> increment[k] == Count(ks[..i], k) + 1 && Count(ks, k) > 1
      invariant forall k :: k !in increment && Count(ks, k) > 1 ==> Count(ks[..i], k) == 0
    {
      var key := Key(ps[i], o.fields);
      forall k { CountSnoc(ks, i, k); }
      RankIs(ks, i);
      RenamedAt(ps, o, i);
      if counter[key] <= 1 {
        out := out + [ps[i]];
      } else {
        if key !in increment {
          increment := increment[key := 1];
        }
        var cnt := increment[key];
        increment := increment[key := increment[key] + 1];
        var num := BuildLabel(o.numbers, cnt, maxLen);
        out := out + [Named(ps[i], o, num)];
      }
    }
  }

  lemma CountsNothing()
    ensures forall k :: Count([], k) == 0
    ensures Width([]) == 0
  {
  }

  lemma RankIs(ks: seq<string>, i: nat)
    requires i < |ks|
    ensures Rank(ks, i) == Count(ks[..i + 1], ks[i])
  {
  }

  // ---- what the labels promise ----

  /** Ten distinct words of one length. */
  predicate GoodTemplate(numbers: seq<string>) {
    && |numbers| >= 10
    && (forall i, j :: 0 <= i < j < 10 ==> numbers[i] != numbers[j])
    && (forall i :: 0 <= i < 10 ==> |numbers[i]| == |numbers[0]|)
  }

  /** A label of the given number of digits, zeros in front included. */
  function Padded(numbers: seq<string>, n: nat, width: nat): string
    decreases width
  {
    if width == 0 then "" else Padded(numbers, n / 10, width - 1) + Token(numbers, n % 10)
  }

  lemma {:induction false} PaddedZero(numbers: seq<string>, width: nat)
    ensures Padded(numbers, 0, width) == Repeat(Token(numbers, 0), width)
    decreases width
  {
    if width > 0 {
      PaddedZero(numbers, width - 1);
      RepeatCommutes(Token(numbers, 0), width - 1);
    }
  }

  lemma {:induction false} RepeatCommutes(word: string, n: nat)
    ensures Repeat(word, n) + word == Repeat(word, n + 1)
    decreases n
  {
    if n > 0 {
      RepeatCommutes(word, n - 1);
      Assoc(word, Repeat(word, n - 1), word);
    } else {
      assert "" + word == word + "";
    }
  }

  lemma {:induction false} LabelIsPadded(numbers: seq<string>, n: nat, width: nat)
    requires 0 < n && |Itoa(n)| <= width
    ensures Label(numbers, n, width) == Padded(numbers, n, width)
    decreases n
  {
    var z := Token(numbers, 0);
    var w := width - |Itoa(n)|;
    if n < 10 {
      PaddedZero(numbers, width - 1);
      assert n / 10 == 0 && n % 10 == n;
      assert Written(numbers, n) == Written(numbers, 0) + Token(numbers, n);
      assert "" + Token(numbers, n) == Token(numbers, n);
    } else {
      LabelIsPadded(numbers, n / 10, width - 1);
      Assoc(Repeat(z, w), Written(numbers, n / 10), Token(numbers, n % 10));
    }
  }

  lemma {:induction false} PaddedLength(numbers: seq<string>, n: nat, width: nat)
    requires GoodTemplate(numbers)
    ensures |Padded(numbers, n, width)| == width * |numbers[0]|
    decreases width
  {
    if width > 0 {
      PaddedLength(numbers, n / 10, width - 1);
      assert width * |numbers[0]| == (width - 1) * |numbers[0]| + |numbers[0]|;
    }
  }

  function Power10(width: nat): nat {
    if width == 0 then 1 else 10 * Power10(width - 1)
  }

  lemma {:induction false} BelowPower(n: nat)
    ensures n < Power10(|Itoa(n)|)
    decreases n
  {
    if n >= 10 {
      BelowPower(n / 10);
      assert |Itoa(n)| == |Itoa(n / 10)| + 1;
    } else {
      assert |Itoa(n)| == 1 && Power10(1) == 10 * Power10(0);
    }
  }

  lemma {:induction false} PowerGrows(a: nat, b: nat)
    requires a <= b
    ensures Power10(a) <= Power10(b)
    decreases b
  {
    if a < b {
      PowerGrows(a, b - 1);
    }
  }

  lemma SplitEqual(a: string, x: string, b: string, y: string)
    requires a + x == b + y && |a| == |b|
    ensures a == b && x == y
  {
    assert (a + x)[..|a|] == a && (b + y)[..|b|] == b;
    assert (a + x)[|a|..] == x && (b + y)[|b|..] == y;
  }

  lemma {:induction false} PaddedInjective(numbers: seq<string>, m: nat, n: nat, width: nat)
    requires GoodTemplate(numbers) && m < Power10(width) && n < Power10(width)
    requires Padded(numbers, m, width) == Padded(numbers, n, width)
    ensures m == n
    decreases width
  {
    if width > 0 {
      PaddedLength(numbers, m / 10, width - 1);
      PaddedLength(numbers, n / 10, width - 1);
      SplitEqual(Padded(numbers, m / 10, width - 1), Token(numbers, m % 10), Padded(numbers, n / 10, width - 1), Token(numbers, n % 10));
      PaddedInjective(numbers, m / 10, n / 10, width - 1);
    }
  }

  /** Labels of different ranks of one list differ. */
  lemma LabelsDiffer(numbers: seq<string>, ks: seq<string>, i: nat, j: nat)
    requires GoodTemplate(numbers) && i < j < |ks| && ks[i] == ks[j]
    ensures Label(numbers, Rank(ks, i), Width(ks)) != Label(numbers, Rank(ks, j), Width(ks))
  {
    hide Label, Padded, Rank, Width;
    var w, m, n := Width(ks), Rank(ks, i), Rank(ks, j);
    RanksGrow(ks, i, j);
    RankFitsWidth(ks, i);
    RankFitsWidth(ks, j);
    LabelIsPadded(numbers, m, w);
    LabelIsPadded(numbers, n, w);
    BelowPower(m);
    BelowPower(n);
    PowerGrows(|Itoa(m)|, w);
    PowerGrows(|Itoa(n)|, w);
    if Label(numbers, m, w) == Label(numbers, n, w) {
      PaddedInjective(numbers, m, n, w);
    }
  }

  /** Each digit as the template writes it. */
  function Translate(numbers: seq<string>, s: string): string
    requires AllDigits(s)
  {
    if s == "" then ""
    else Translate(numbers, s[..|s| - 1]) + Token(numbers, s[|s| - 1] as int - '0' as int)
  }

  /** A label is the base-ten numeral of the rank in template words, padded with the
      template's zero to the common width. */
  lemma {:induction false} WrittenIsNumeral(numbers: seq<string>, n: nat)
    requires n > 0
    ensures Written(numbers, n) == Translate(numbers, Itoa(n))
    decreases n
  {
    var s := Itoa(n);
    if n < 10 {
      assert s[..0] == "";
      assert n / 10 == 0 && n % 10 == n;
    } else {
      WrittenIsNumeral(numbers, n / 10);
      assert s[..|s| - 1] == Itoa(n / 10);
    }
  }

  predicate OneCharacterWords(numbers: seq<string>) {
    |numbers| >= 10 && forall i :: 0 <= i < 10 ==> |numbers[i]| == 1
  }

  /** With one-character words every label of a list has exactly the common width. */
  lemma LabelWidth(numbers: seq<string>, ks: seq<string>, i: nat)
    requires OneCharacterWords(numbers) && i < |ks|
    ensures |Label(numbers, Rank(ks, i), Width(ks))| == Width(ks)
  {
    hide Label, Rank, Width;
    RankFits(ks, i);
    RankFitsWidth(ks, i);
    LabelIsPadded(numbers, Rank(ks, i), Width(ks));
    PaddedOneCharacter(numbers, Rank(ks, i), Width(ks));
  }

  lemma {:induction false} PaddedOneCharacter(numbers: seq<string>, n: nat, width: nat)
    requires OneCharacterWords(numbers)
    ensures |Padded(numbers, n, width)| == width
    decreases width
  {
    if width > 0 {
      PaddedOneCharacter(numbers, n / 10, width - 1);
    }
  }

  /** Grouped by name, renamed proxies of one group get different names; a proxy alone in
      its group, and every field but the name, stays as it was. */
  lemma NamesDiffer(ps: seq<Proxy>, o: Options, i: nat, j: nat)
    requires GoodTemplate(o.numbers) && o.position != Neither && i < j < |ps|
    requires Name(ps[i]) == Name(ps[j]) && Key(ps[i], o.fields) == Key(ps[j], o.fields)
    ensures Name(Renamed(ps, o)[i]) != Name(Renamed(ps, o)[j])
  {
    hide Label, Rank, Width, Count;
    var ks := Keys(ps, o.fields);
    RanksGrow(ks, i, j);
    LabelsDiffer(o.numbers, ks, i, j);
    var a, b := Label(o.numbers, Rank(ks, i), Width(ks)), Label(o.numbers, Rank(ks, j), Width(ks));
    assert Count(ks, ks[i]) > 1;
    var name := Name(ps[i]);
    match o.position
    case Front =>
      if a + o.link + name == b + o.link + name {
        SameFront(a + o.link, b + o.link, name);
        SameFront(a, b, o.link);
      }
    case Back =>
      if name + o.link + a == name + o.link + b {
        SplitEqual(name + o.link, a, name + o.link, b);
      }
  }

  lemma SameFront(a: string, b: string, x: string)
    requires a + x == b + x
    ensures a == b
  {
    assert |a + x| == |b + x|;
    SplitEqual(a, x, b, x);
  }

  lemma OthersStay(ps: seq<Proxy>, o: Options, i: nat)
    requires i < |ps|
    ensures var ks := Keys(ps, o.fields); Count(ks, ks[i]) <= 1 ==> Renamed(ps, o)[i] == ps[i]
    ensures forall f :: f != "name" ==> (f in Renamed(ps, o)[i] <==> f in ps[i])
    ensures forall f :: f != "name" && f in ps[i] ==> Renamed(ps, o)[i][f] == ps[i][f]
  {
    hide Label, Rank, Width, Count;
  }

  // ---- dropping ----

  /** The proxies whose key no earlier one has. */
  function FirstOnes(ps: seq<Proxy>, fields: seq<string>): seq<Proxy> {
    if ps == [] then []
    else
      var n := |ps| - 1;
      FirstOnes(ps[..n], fields) + if Key(ps[n], fields) in Keys(ps[..n], fields) then [] else [ps[n]]
  }

  /** The delete action. */
  method DropDuplicates(ps: seq<Proxy>, fields: seq<string>) returns (out: seq<Proxy>)
    ensures out == FirstOnes(ps, fields)
  {
    hide Key;
    out := [];
    var seen: set<string> := {};
    for i := 0 to |ps|
      invariant out == FirstOnes(ps[..i], fields)
      invariant forall k :: k in seen <==> k in Keys(ps[..i], fields)
    {
      assert ps[..i + 1][..i] == ps[..i];
      assert Keys(ps[..i + 1], fields) == Keys(ps[..i], fields) + [Key(ps[i], fields)];
      var key := Key(ps[i], fields);
      if key in seen {
        continue;
      }
      seen := seen + {key};
      out := out + [ps[i]];
    }
    assert ps[..|ps|] == ps;
  }

  /** Dropping leaves each key exactly once. */
  lemma {:induction false} DropKeepsKeys(ps: seq<Proxy>, fields: seq<string>)
    ensures forall k :: Count(Keys(FirstOnes(ps, fields), fields), k) == if k in Keys(ps, fields) then 1 else 0
    decreases |ps|
  {
    hide Key;
    if ps != [] {
      var n := |ps| - 1;
      DropKeepsKeys(ps[..n], fields);
      var ks, before, key := Keys(ps, fields), Keys(ps[..n], fields), Key(ps[n], fields);
      assert ks == before + [key];
      var f := FirstOnes(ps[..n], fields);
      if key !in before {
        assert Keys(f + [ps[n]], fields) == Keys(f, fields) + [key];
        assert (Keys(f, fields) + [key])[..|f|] == Keys(f, fields);
      } else {
        assert f + [] == f;
      }
    }
  }

  /** A list whose keys all differ is left alone. */
  lemma {:induction false} DropKeepsDistinct(ps: seq<Proxy>, fields: seq<string>)
    requires forall i, j :: 0 <= i < j < |ps| ==> Key(ps[i], fields) != Key(ps[j], fields)
    ensures FirstOnes(ps, fields) == ps
    decreases |ps|
  {
    hide Key;
    if ps != [] {
      var n := |ps| - 1;
      DropKeepsDistinct(ps[..n], fields);
      assert ps == ps[..n] + [ps[n]];
    }
  }

  /** A key counted once stands in one place. */
  lemma CountedOnce(ks: seq<string>, i: nat, j: nat)
    requires i < j < |ks| && Count(ks, ks[i]) <= 1
    ensures ks[i] != ks[j]
  {
    hide Count;
    if ks[i] == ks[j] {
      RanksGrow(ks, i, j);
    }
  }

  /** Dropping twice changes nothing more. */
  lemma DropTwice(ps: seq<Proxy>, fields: seq<string>)
    ensures FirstOnes(FirstOnes(ps, fields), fields) == FirstOnes(ps, fields)
  {
    hide Key, Count, FirstOnes;
    var out := FirstOnes(ps, fields);
    var ks := Keys(out, fields);
    DropKeepsKeys(ps, fields);
    forall i, j | 0 <= i < j < |out|
      ensures Key(out[i], fields) != Key(out[j], fields)
    {
      CountedOnce(ks, i, j);
    }
    DropKeepsDistinct(out, fields);
  }

  // ---- names and keys, spelled out ----

  /** The new name: the old one, the link and the label, or the other way round. */
  lemma NamedReads(p: Proxy, o: Options, num: string)
    ensures o.position == Back ==> Name(p) + o.link <= Name(Named(p, o, num)) && Name(Named(p, o, num))[|Name(p) + o.link|..] == num
    ensures o.position == Front ==>
              var n := Name(Named(p, o, num)); |num| <= |n| && n[..|num|] == num && n[|num|..] == o.link + Name(p)
    ensures o.position == Neither ==> Named(p, o, num) == p
  {
    var front := num + o.link + Name(p);
    assert front[..|num|] == num && front[|num|..] == o.link + Name(p);
    var back := Name(p) + o.link + num;
    assert back[..|Name(p) + o.link|] == Name(p) + o.link && back[|Name(p) + o.link|..] == num;
  }

  /** A key is the fields' texts with underscores between them, and a dash for a field the
      proxy lacks. */
  lemma KeyReads(p: Proxy, fields: seq<string>)
    requires fields != [] && forall i :: 0 <= i < |fields| ==> '_' !in (if fields[i] in p then p[fields[i]] else "-")
    ensures Split(Key(p, fields), '_') == seq(|fields|, i requires 0 <= i < |fields| => if fields[i] in p then p[fields[i]] else "-")
  {
    FieldTextsAre(p, fields);
    assert ['_'] == "_";
    SplitJoin(FieldTexts(p, fields), '_');
  }

  lemma {:induction false} FieldTextsAre(p: Proxy, fields: seq<string>)
    ensures FieldTexts(p, fields) == seq(|fields|, i requires 0 <= i < |fields| => if fields[i] in p then p[fields[i]] else "-")
    decreases |fields|
  {
    if fields != [] {
      FieldTextsAre(p, fields[1..]);
      assert forall i :: 0 < i < |fields| ==> fields[i] == fields[1..][i - 1];
    }
  }

  // ---- templates without words ----

  lemma {:induction false} RepeatJoined(word: string, a: nat, b: nat)
    ensures Repeat(word, a) + Repeat(word, b) == Repeat(word, a + b)
    decreases a
  {
    if a > 0 {
      RepeatJoined(word, a - 1, b);
      Assoc(word, Repeat(word, a - 1), Repeat(word, b));
    } else {
      assert "" + Repeat(word, b) == Repeat(word, b);
    }
  }

  lemma {:induction false} WrittenWithoutWords(n: nat)
    ensures n > 0 ==> Written([], n) == Repeat("undefined", |Itoa(n)|)
    decreases n
  {
    if n >= 10 {
      WrittenWithoutWords(n / 10);
      RepeatCommutes("undefined", |Itoa(n / 10)|);
    } else if n > 0 {
      assert Written([], n / 10) == "";
      assert |Itoa(n)| == 1 && Repeat("undefined", 1) == "undefined" + Repeat("undefined", 0);
    }
  }

  /** Without words every digit and every place of padding reads "undefined". */
  lemma LabelWithoutWords(n: nat, width: nat)
    requires n > 0
    ensures Label([], n, width) == Repeat("undefined", if |Itoa(n)| < width then width else |Itoa(n)|)
  {
    WrittenWithoutWords(n);
    RepeatJoined("undefined", if |Itoa(n)| < width then width - |Itoa(n)| else 0, |Itoa(n)|);
  }
}
