/** Which commas do not cut a line: those inside quotes and inside bracket groups. */
module SurgeSegments {
  import opened GoStrings
  import opened SurgeHeaders
  import opened SurgeFields
  import opened Qx

  /** What a bracket group holds. */
  datatype Inner = Text(text: string) | Kept(q: char, text: string)

  /** What an option's value is made of. */
  datatype Piece = Bare(text: string) | Quoted(q: char, text: string) | Group(inner: seq<Inner>)

  predicate IsInner(i: Inner) {
    match i
    case Text(t) => forall c :: c in t ==> c != ']' && !IsQuote(c)
    case Kept(q, t) => IsQuote(q) && q !in t
  }

  predicate IsPiece(p: Piece) {
    match p
    case Bare(t) => forall c :: c in t ==> c != ',' && c != '[' && !IsQuote(c)
    case Quoted(q, t) => IsQuote(q) && q !in t
    case Group(inner) => forall i :: i in inner ==> IsInner(i)
  }

  function OneInner(i: Inner): string {
    match i
    case Text(t) => t
    case Kept(q, t) => [q] + t + [q]
  }

  function InnerText(inner: seq<Inner>): string {
    if inner == [] then "" else OneInner(inner[0]) + InnerText(inner[1..])
  }

  function PieceText(p: Piece): string {
    match p
    case Bare(t) => t
    case Quoted(q, t) => [q] + t + [q]
    case Group(inner) => "[" + (InnerText(inner) + "]")
  }

  function ValueText(ps: seq<Piece>): string {
    if ps == [] then "" else PieceText(ps[0]) + ValueText(ps[1..])
  }

  lemma {:induction false} OverText(t: string, x: string)
    requires IsInner(Text(t))
    ensures BracketLength(t + x) == |t| + BracketLength(x)
    decreases |t|
  {
    if t == "" {
      assert t + x == x;
    } else {
      assert t[0] in t && (t + x)[1..] == t[1..] + x;
      OverText(t[1..], x);
    }
  }

  lemma QuoteCloses(q: char, t: string, x: string)
    requires q !in t
    ensures var u := [q] + t + [q] + x; u[1..] == t + [q] + x && IndexByte(u[1..], q) == |t| && u[|t| + 2..] == x
  {
    var u := [q] + t + [q] + x;
    assert u[1..] == t + [q] + x;
    assert u[1..][..|t|] == t;
    IndexByteUnique(u[1..], q, |t|);
  }

  lemma OverOne(i: Inner, x: string)
    requires IsInner(i)
    ensures BracketLength(OneInner(i) + x) == |OneInner(i)| + BracketLength(x)
  {
    match i
    case Text(t) => OverText(t, x);
    case Kept(q, t) =>
      QuoteCloses(q, t, x);
      assert ([q] + t + [q] + x)[0] == q;
  }

  lemma GroupEnds(x: string)
    ensures BracketLength("]" + x) == 1
  {
  }

  lemma {:induction false} OverInner(inner: seq<Inner>, x: string)
    requires forall i :: i in inner ==> IsInner(i)
    ensures BracketLength(InnerText(inner) + ("]" + x)) == |InnerText(inner)| + 1
    decreases |inner|
  {
    hide BracketLength, OneInner, IsInner;
    if inner == [] {
      assert InnerText(inner) + ("]" + x) == "]" + x;
      GroupEnds(x);
    } else {
      assert inner[0] in inner && forall i :: i in inner[1..] ==> i in inner;
      OverInner(inner[1..], x);
      Assoc(OneInner(inner[0]), InnerText(inner[1..]), "]" + x);
      OverOne(inner[0], InnerText(inner[1..]) + ("]" + x));
    }
  }

  lemma {:induction false} OverBare(t: string, x: string)
    requires IsPiece(Bare(t))
    ensures PlainLength(t + x) == |t| + PlainLength(x)
    decreases |t|
  {
    if t == "" {
      assert t + x == x;
    } else {
      assert t[0] in t && (t + x)[1..] == t[1..] + x;
      OverBare(t[1..], x);
    }
  }

  lemma OverQuoted(q: char, t: string, x: string)
    requires IsQuote(q) && q !in t
    ensures PlainLength([q] + t + [q] + x) == |t| + 2 + PlainLength(x)
  {
    QuoteCloses(q, t, x);
    assert ([q] + t + [q] + x)[0] == q;
  }

  lemma OverGroup(inner: seq<Inner>, x: string)
    requires forall i :: i in inner ==> IsInner(i)
    ensures PlainLength("[" + (InnerText(inner) + "]") + x) == |InnerText(inner)| + 2 + PlainLength(x)
  {
    hide IsInner, InnerText, BracketLength;
    var t := InnerText(inner);
    var u := "[" + (t + "]") + x;
    OverInner(inner, x);
    assert u[0] == '[' && u[1..] == t + ("]" + x) && u[|t| + 2..] == x;
  }

  lemma OverPiece(p: Piece, x: string)
    requires IsPiece(p)
    ensures PlainLength(PieceText(p) + x) == |PieceText(p)| + PlainLength(x)
  {
    hide PlainLength, IsInner, InnerText;
    match p
    case Bare(t) => OverBare(t, x);
    case Quoted(q, t) => OverQuoted(q, t, x);
    case Group(inner) => OverGroup(inner, x);
  }

  lemma {:induction false} OverValue(ps: seq<Piece>, x: string)
    requires forall p :: p in ps ==> IsPiece(p)
    ensures PlainLength(ValueText(ps) + x) == |ValueText(ps)| + PlainLength(x)
    decreases |ps|
  {
    hide IsPiece, PieceText, PlainLength;
    if ps == [] {
      assert ValueText(ps) + x == x;
    } else {
      assert ps[0] in ps && forall p :: p in ps[1..] ==> p in ps;
      OverValue(ps[1..], x);
      OverPiece(ps[0], ValueText(ps[1..]) + x);
      assert ValueText(ps) + x == PieceText(ps[0]) + (ValueText(ps[1..]) + x);
    }
  }

  /** An option other than the header options. */
  datatype Field = Field(key: string, value: seq<Piece>)

  predicate IsField(f: Field) {
    && PlainKey(f.key)
    && (forall p :: p in f.value ==> IsPiece(p))
    && (ValueText(f.value) != "" ==> !IsSurgeSpace(ValueText(f.value)[0]))
  }

  function FieldText(f: Field): string {
    f.key + "=" + ValueText(f.value)
  }

  function Texts(fs: seq<Field>): (r: seq<string>)
    ensures |r| == |fs|
    ensures forall i :: 0 <= i < |fs| ==> r[i] == FieldText(fs[i])
  {
    if fs == [] then [] else [FieldText(fs[0])] + Texts(fs[1..])
  }

  lemma KeyShape(key: string, y: string)
    requires PlainKey(key)
    ensures var u := key + "=" + y;
            SkipSpaces(u) == u && KeyLength(u) == |key| && u[..|key|] == key && u[|key|] == '=' && u[|key| + 1..] == y
    ensures OptionKey(key) == ToLower(key)
  {
    var u := key + "=" + y;
    assert u[0] == key[0] && u[..|key|] == key && u[|key|] == '=' && u[|key| + 1..] == y;
    KeyEnds(key, y);
    TrimKeepsEdges(key);
  }

  lemma {:induction false} KeyEnds(key: string, y: string)
    requires forall i :: 0 <= i < |key| ==> key[i] != ',' && key[i] != '='
    ensures KeyLength(key + "=" + y) == |key|
    decreases |key|
  {
    var u := key + "=" + y;
    if key == "" {
      assert u[0] == '=';
    } else {
      assert u[0] == key[0] && u[1..] == key[1..] + "=" + y;
      KeyEnds(key[1..], y);
    }
  }

  /** A field reaches up to the comma behind it, whatever its quotes and groups hold. */
  lemma FieldReaches(f: Field, tail: string)
    requires IsField(f) && (tail == "" || tail[0] == ',')
    ensures FieldLength(FieldText(f) + tail) == |FieldText(f)|
  {
    hide PlainKey, IsPiece, KeyLength, OptionKey, PlainLength, ValueText;
    var y := ValueText(f.value) + tail;
    assert FieldText(f) + tail == f.key + "=" + y;
    KeyShape(f.key, y);
    OverValue(f.value, tail);
    assert SkipSpaces(y) == y;
    NotSpecial(f.key, y);
    assert y[0..] == y;
    NothingAhead(tail);
  }

  lemma NothingAhead(tail: string)
    requires tail == "" || tail[0] == ','
    ensures PlainLength(tail) == 0
  {
  }

  lemma NotSpecial(key: string, y: string)
    requires PlainKey(key)
    ensures ValueLength(ToLower(key), y) == 0
  {
  }

  /** Fields joined by commas are cut back into themselves. */
  lemma {:induction false} FieldsRead(f: Field, fs: seq<Field>)
    requires IsField(f) && forall g :: g in fs ==> IsField(g)
    ensures Fields(FieldText(f) + Tail(Texts(fs))) == Some(TrimAll([FieldText(f)] + Texts(fs)))
    decreases |fs|
  {
    hide Fields, IsField, FieldText, FieldLength, TrimSpace, TrimAll;
    assert FieldText(f) != "" by { NotEmpty(f); }
    TrimAllCons(FieldText(f), Texts(fs));
    if fs == [] {
      assert FieldText(f) + Tail(Texts(fs)) == FieldText(f);
      FieldReaches(f, "");
      assert FieldText(f) + "" == FieldText(f);
      LastField(FieldText(f));
      assert [TrimSpace(FieldText(f))] + TrimAll(Texts(fs)) == [TrimSpace(FieldText(f))];
    } else {
      assert fs[0] in fs && forall g :: g in fs[1..] ==> g in fs;
      var more := FieldText(fs[0]) + Tail(Texts(fs[1..]));
      TailIs(Texts(fs));
      assert Texts(fs)[1..] == Texts(fs[1..]);
      hide Tail;
      FieldReaches(f, "," + more);
      CutField(FieldText(f), more);
      FieldsRead(fs[0], fs[1..]);
      assert Texts(fs) == [FieldText(fs[0])] + Texts(fs[1..]);
    }
  }

  lemma NotEmpty(f: Field)
    ensures FieldText(f) != ""
  {
    assert FieldText(f)[|f.key|] == '=';
  }
}
