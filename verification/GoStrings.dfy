/** The Go string operations the program relies on.  A Go string is a sequence of
    bytes; here a `char` below 256 stands for one byte. */
module GoStrings {

  datatype Option<+T> = None | Some(value: T)

  predicate IsBytes(s: string) {
    forall i :: 0 <= i < |s| ==> s[i] as int < 256
  }

  /** Go strings proper: every element is a byte. */
  type Bytes = s: string | IsBytes(s)

  lemma Assoc(a: string, b: string, c: string)
    ensures (a + b) + c == a + (b + c)
  {
  }

  predicate IsAsciiSpace(c: char) {
    c == ' ' || '\t' <= c <= '\r'
  }

  /** An ASCII character that is not white space. */
  predicate IsPlain(c: char) {
    c < '\U{80}' && !IsAsciiSpace(c)
  }

  /** The UTF-8 forms of the white-space runes of two and of three bytes. */
  predicate IsSpace2(a: char, b: char) {
    a == '\U{C2}' && (b == '\U{85}' || b == '\U{A0}')
  }

  predicate IsSpace3(a: char, b: char, c: char) {
    || (a == '\U{E1}' && b == '\U{9A}' && c == '\U{80}')
    || (a == '\U{E2}' && b == '\U{80}' && ('\U{80}' <= c <= '\U{8A}' || c == '\U{A8}' || c == '\U{A9}' || c == '\U{AF}'))
    || (a == '\U{E2}' && b == '\U{81}' && c == '\U{9F}')
    || (a == '\U{E3}' && b == '\U{80}' && c == '\U{80}')
  }

  /** How many bytes the white-space rune at the front takes; 0 when there is none. */
  function LeadingSpace(s: string): (n: nat)
    ensures n <= |s|
  {
    if |s| >= 1 && IsAsciiSpace(s[0]) then 1
    else if |s| >= 2 && IsSpace2(s[0], s[1]) then 2
    else if |s| >= 3 && IsSpace3(s[0], s[1], s[2]) then 3
    else 0
  }

  /** How many bytes the white-space rune at the back takes; 0 when there is none. */
  function TrailingSpace(s: string): (n: nat)
    ensures n <= |s|
    ensures forall i :: |s| - n <= i < |s| ==> !IsPlain(s[i])
  {
    var k := |s|;
    if k >= 1 && IsAsciiSpace(s[k - 1]) then 1
    else if k >= 2 && IsSpace2(s[k - 2], s[k - 1]) then 2
    else if k >= 3 && IsSpace3(s[k - 3], s[k - 2], s[k - 1]) then 3
    else 0
  }

  function TrimLeft(s: string): string {
    var n := LeadingSpace(s);
    if n == 0 then s else TrimLeft(s[n..])
  }

  function TrimRight(s: string): string {
    var n := TrailingSpace(s);
    if n == 0 then s else TrimRight(s[..|s| - n])
  }

  /** strings.TrimSpace */
  function TrimSpace(s: string): string {
    TrimRight(TrimLeft(s))
  }

  predicate Trimmed(s: string) {
    TrimSpace(s) == s
  }

  lemma TrimLeftKeeps(s: string)
    requires s != "" && IsPlain(s[0])
    ensures TrimLeft(s) == s
  {
  }

  lemma {:induction false} TrimRightShrinks(s: string)
    ensures TrimRight(s) <= s
    decreases |s|
  {
    hide TrailingSpace;
    var n := TrailingSpace(s);
    if n > 0 {
      TrimRightShrinks(s[..|s| - n]);
    }
  }

  lemma {:induction false} TrimLeftShrinks(s: string)
    ensures |TrimLeft(s)| <= |s| && TrimLeft(s) == s[|s| - |TrimLeft(s)|..]
    decreases |s|
  {
    hide LeadingSpace;
    var n := LeadingSpace(s);
    if n > 0 {
      TrimLeftShrinks(s[n..]);
    }
  }

  /** Trimming on the right never reaches past a plain character. */
  lemma {:induction false} TrimRightStops(a: string, c: char, b: string)
    requires IsPlain(c)
    ensures TrimRight(a + [c] + b) == a + [c] + TrimRight(b)
    decreases |b|
  {
    var s := a + [c] + b;
    var n := TrailingSpace(s);
    assert s[|a|] == c;
    assert n == TrailingSpace(b);
    if n > 0 {
      assert s[..|s| - n] == a + [c] + b[..|b| - n];
      TrimRightStops(a, c, b[..|b| - n]);
    }
  }

  /** A string with plain edges is trimmed. */
  lemma TrimKeepsEdges(s: string)
    requires s == "" || (IsPlain(s[0]) && IsPlain(s[|s| - 1]))
    ensures Trimmed(s)
  {
    if s != "" {
      TrimLeftKeeps(s);
      TrimRightStops(s[..|s| - 1], s[|s| - 1], "");
      assert s[..|s| - 1] + [s[|s| - 1]] + "" == s;
    }
  }

  /** Nothing is cut from either edge of a trimmed string. */
  lemma TrimmedHasNoEdges(s: string)
    requires Trimmed(s)
    ensures TrimLeft(s) == s && TrimRight(s) == s
  {
    TrimLeftShrinks(s);
    TrimRightShrinks(TrimLeft(s));
  }

  lemma {:induction false} TrimLeftDone(s: string)
    ensures LeadingSpace(TrimLeft(s)) == 0
    decreases |s|
  {
    hide LeadingSpace;
    var n := LeadingSpace(s);
    if n > 0 {
      TrimLeftDone(s[n..]);
    }
  }

  lemma {:induction false} TrimRightDone(s: string)
    ensures TrailingSpace(TrimRight(s)) == 0
    decreases |s|
  {
    hide TrailingSpace;
    var n := TrailingSpace(s);
    if n > 0 {
      TrimRightDone(s[..|s| - n]);
    }
  }

  /** Trimming twice is trimming once. */
  lemma TrimTwice(s: string)
    ensures Trimmed(TrimSpace(s))
  {
    TrimLeftDone(s);
    TrimRightDone(TrimLeft(s));
    TrimRightShrinks(TrimLeft(s));
  }

  /** Trimming brings no character in. */
  lemma TrimKeepsOut(s: string, c: char)
    requires c !in s
    ensures c !in TrimSpace(s)
  {
    TrimLeftShrinks(s);
    TrimRightShrinks(TrimLeft(s));
    hide TrimLeft, TrimRight;
    var t, u := TrimLeft(s), TrimSpace(s);
    assert forall i :: 0 <= i < |u| ==> u[i] == t[i];
    assert forall i :: 0 <= i < |t| ==> t[i] == s[|s| - |t| + i];
  }

  /** Trimming only takes something away. */
  lemma TrimShrinks(s: string)
    ensures |TrimSpace(s)| <= |s| && (|TrimSpace(s)| == |s| ==> TrimSpace(s) == s)
  {
    TrimLeftShrinks(s);
    TrimRightShrinks(TrimLeft(s));
  }

  /** strings.IndexByte: the first position of `c`, or -1. */
  function IndexByte(s: string, c: char): (k: int)
    ensures -1 <= k < |s|
  {
    if s == "" then -1
    else if s[0] == c then 0
    else
      var r := IndexByte(s[1..], c);
      if r == -1 then -1 else r + 1
  }

  lemma {:induction false} IndexByteIsFirst(s: string, c: char)
    ensures var k := IndexByte(s, c);
            if k == -1 then c !in s else s[k] == c && c !in s[..k]
    decreases |s|
  {
    if s != "" && s[0] != c {
      IndexByteIsFirst(s[1..], c);
      var k := IndexByte(s, c);
      if k != -1 {
        assert s[..k] == [s[0]] + s[1..][..k - 1];
      } else {
        assert s == [s[0]] + s[1..];
      }
    }
  }

  lemma {:induction false} IndexByteUnique(s: string, c: char, k: nat)
    requires k < |s| && s[k] == c && c !in s[..k]
    ensures IndexByte(s, c) == k
    decreases k
  {
    if k > 0 {
      assert s[0] in s[..k];
      assert s[1..][..k - 1] == s[..k][1..];
      IndexByteUnique(s[1..], c, k - 1);
    }
  }

  /** strings.Split on a one-byte separator. */
  function Split(s: string, c: char): (parts: seq<string>)
    ensures |parts| >= 1
    ensures forall p :: p in parts ==> c !in p
  {
    if s == "" then [""]
    else
      var rest := Split(s[1..], c);
      if s[0] == c then [""] + rest else [[s[0]] + rest[0]] + rest[1..]
  }

  /** strings.Join */
  function Join(parts: seq<string>, sep: string): string {
    if parts == [] then ""
    else if |parts| == 1 then parts[0]
    else parts[0] + sep + Join(parts[1..], sep)
  }

  lemma JoinCons(a: string, rest: seq<string>, sep: string)
    ensures Join([a] + rest, sep) == if rest == [] then a else a + sep + Join(rest, sep)
  {
    assert ([a] + rest)[1..] == rest;
  }

  lemma {:induction false} SplitStep(a: string, c: char, b: string)
    requires c !in a
    ensures Split(a + [c] + b, c) == [a] + Split(b, c)
    decreases |a|
  {
    var s := a + [c] + b;
    if a == "" {
      assert s[1..] == b;
    } else {
      assert s[1..] == a[1..] + [c] + b;
      SplitStep(a[1..], c, b);
      assert [a[0]] + a[1..] == a;
    }
  }

  lemma {:induction false} SplitLast(a: string, c: char)
    requires c !in a
    ensures Split(a, c) == [a]
    decreases |a|
  {
    if a != "" {
      SplitLast(a[1..], c);
      assert [a[0]] + a[1..] == a;
    }
  }

  /** Splitting undoes joining when no part holds the separator. */
  lemma {:induction false} SplitJoin(parts: seq<string>, c: char)
    requires parts != [] && forall p :: p in parts ==> c !in p
    ensures Split(Join(parts, [c]), c) == parts
    decreases |parts|
  {
    hide Split;
    assert parts[0] in parts && forall p :: p in parts[1..] ==> p in parts;
    assert [parts[0]] + parts[1..] == parts;
    if |parts| == 1 {
      SplitLast(parts[0], c);
    } else {
      SplitJoin(parts[1..], c);
      SplitStep(parts[0], c, Join(parts[1..], [c]));
    }
  }

  /** Joining undoes splitting. */
  lemma {:induction false} JoinSplit(s: string, c: char)
    ensures Join(Split(s, c), [c]) == s
    decreases |s|
  {
    if s != "" {
      JoinSplit(s[1..], c);
      var rest := Split(s[1..], c);
      if s[0] == c {
        assert ([""] + rest)[1..] == rest;
      } else {
        assert ([[s[0]] + rest[0]] + rest[1..])[1..] == rest[1..];
      }
    }
  }

  lemma {:induction false} JoinAppend(xs: seq<string>, ys: seq<string>, sep: string)
    requires xs != [] && ys != []
    ensures Join(xs + ys, sep) == Join(xs, sep) + sep + Join(ys, sep)
    decreases |xs|
  {
    if |xs| == 1 {
      assert (xs + ys)[1..] == ys;
    } else {
      assert (xs + ys)[1..] == xs[1..] + ys;
      JoinAppend(xs[1..], ys, sep);
    }
  }

  /** ASCII lower-casing.  strings.ToLower maps no other rune to a letter that the
      compared option keys contain. */
  function ToLower(s: string): (t: string)
    ensures |t| == |s|
    ensures forall i :: 0 <= i < |s| ==> t[i] == if 'A' <= s[i] <= 'Z' then s[i] + ' ' else s[i]
  {
    seq(|s|, i requires 0 <= i < |s| => if 'A' <= s[i] <= 'Z' then s[i] + ' ' else s[i])
  }

  /** The items trimmed, without the empty ones. */
  function NonBlank(items: seq<string>): (urls: seq<string>)
    ensures |urls| <= |items|
  {
    if items == [] then []
    else
      var t := TrimSpace(items[0]);
      (if t == "" then [] else [t]) + NonBlank(items[1..])
  }

  lemma {:induction false} NonBlankSnoc(items: seq<string>, item: string)
    ensures NonBlank(items + [item]) == NonBlank(items) + if TrimSpace(item) == "" then [] else [TrimSpace(item)]
    decreases |items|
  {
    hide TrimSpace;
    if items == [] {
      assert [item][1..] == [] && [] + [item] == [item];
    } else {
      assert (items + [item])[1..] == items[1..] + [item];
      NonBlankSnoc(items[1..], item);
      var t, u := TrimSpace(items[0]), TrimSpace(item);
      var head, last := if t == "" then [] else [t], if u == "" then [] else [u];
      assert head + (NonBlank(items[1..]) + last) == head + NonBlank(items[1..]) + last;
    }
  }

  // ---- which runes are white space ----

  /** The UTF-8 form of a code point of the basic plane. */
  function Utf8(r: nat): (s: string)
    requires r < 0x1_0000
    ensures 1 <= |s| <= 3
  {
    if r < 0x80 then [r as char]
    else if r < 0x800 then [(0xC0 + r / 64) as char, (0x80 + r % 64) as char]
    else [(0xE0 + r / 4096) as char, (0x80 + r / 64 % 64) as char, (0x80 + r % 64) as char]
  }

  /** The code points with the property White_Space. */
  predicate IsSpaceRune(r: nat) {
    9 <= r <= 13 || 0x2000 <= r <= 0x200A || r in {0x20, 0x85, 0xA0, 0x1680, 0x2028, 0x2029, 0x202F, 0x205F, 0x3000}
  }

  lemma TwoBytes(r: nat, a: char, b: char)
    requires 0x80 <= r < 0x800 && a == (0xC0 + r / 64) as char && b == (0x80 + r % 64) as char
    ensures IsSpace2(a, b) <==> IsSpaceRune(r)
    ensures a >= '\U{80}' && b >= '\U{80}'
  {
  }

  lemma ThreeBytes(r: nat, a: char, b: char, c: char)
    requires 0x800 <= r < 0x1_0000
    requires a == (0xE0 + r / 4096) as char && b == (0x80 + r / 64 % 64) as char && c == (0x80 + r % 64) as char
    ensures IsSpace3(a, b, c) <==> IsSpaceRune(r)
    ensures a >= '\U{E0}' && '\U{80}' <= b < '\U{C0}' && '\U{80}' <= c < '\U{C0}'
  {
    assert r == (r / 4096) * 4096 + (r / 64 % 64) * 64 + r % 64;
  }

  lemma LeadingBytes(u: string, x: string)
    requires 1 <= |u| <= 3
    ensures var s := u + x;
            s[0] == u[0] && (|u| > 1 ==> s[1] == u[1]) && (|u| > 2 ==> s[2] == u[2])
  {
  }

  lemma TrailingBytes(u: string, x: string)
    requires 1 <= |u| <= 3
    ensures var s, n := x + u, |u|;
            && s[|s| - 1] == u[n - 1] && (n > 1 ==> s[|s| - 2] == u[n - 2]) && (n > 2 ==> s[|s| - 3] == u[n - 3])
  {
  }

  /** At both edges exactly these code points are trimmed, whole. */
  lemma SpaceRunesAre(r: nat, x: string)
    requires r < 0x1_0000
    ensures LeadingSpace(Utf8(r) + x) == if IsSpaceRune(r) then |Utf8(r)| else 0
    ensures TrailingSpace(x + Utf8(r)) == if IsSpaceRune(r) then |Utf8(r)| else 0
  {
    var u := Utf8(r);
    LeadingBytes(u, x);
    TrailingBytes(u, x);
    if r >= 0x800 {
      ThreeBytes(r, u[0], u[1], u[2]);
      hide IsSpaceRune;
    } else if r >= 0x80 {
      TwoBytes(r, u[0], u[1]);
      hide IsSpaceRune;
    }
  }
}
