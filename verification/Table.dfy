/** A name-keyed table whose rows carry positions, and the plain list it stands for. */
module Table {
  import opened GoStrings

  datatype Row<D> = Row(id: nat, name: string, data: D, pos: int)

  /** Rows in insertion order; `nextId` is the next automatic key. */
  datatype Table<D> = Table(rows: seq<Row<D>>, nextId: nat)

  datatype Place = Top | Bottom

  // ---- the statements ----

  predicate Has<D>(rows: seq<Row<D>>, name: string) {
    exists i :: 0 <= i < |rows| && rows[i].name == name
  }

  /** MIN(pos) and MAX(pos) */
  function MinPos<D>(rows: seq<Row<D>>): (m: int)
    requires rows != []
    ensures forall r :: r in rows ==> m <= r.pos
  {
    if |rows| == 1 then rows[0].pos
    else
      var m := MinPos(rows[1..]);
      if rows[0].pos < m then rows[0].pos else m
  }

  function MaxPos<D>(rows: seq<Row<D>>): (m: int)
    requires rows != []
    ensures forall r :: r in rows ==> r.pos <= m
  {
    if |rows| == 1 then rows[0].pos
    else
      var m := MaxPos(rows[1..]);
      if rows[0].pos > m then rows[0].pos else m
  }

  /** COALESCE(MIN(pos), 1) - 1 or COALESCE(MAX(pos), 0) + 1 */
  function NewPos<D>(rows: seq<Row<D>>, place: Place): int {
    match place
    case Top => (if rows == [] then 1 else MinPos(rows)) - 1
    case Bottom => (if rows == [] then 0 else MaxPos(rows)) + 1
  }

  /** UPDATE: the same change on every row. */
  function MapRows<D>(rows: seq<Row<D>>, f: Row<D> -> Row<D>): (r: seq<Row<D>>)
    ensures |r| == |rows| && forall i :: 0 <= i < |rows| ==> r[i] == f(rows[i])
  {
    if rows == [] then [] else [f(rows[0])] + MapRows(rows[1..], f)
  }

  /** DELETE keeps the rows of other names. */
  function Without<D>(rows: seq<Row<D>>, name: string): (r: seq<Row<D>>)
    ensures forall x :: x in r ==> x in rows && x.name != name
    ensures forall x :: x in rows && x.name != name ==> x in r
  {
    if rows == [] then []
    else (if rows[0].name == name then [] else [rows[0]]) + Without(rows[1..], name)
  }

  function SetData<D>(name: string, data: D): Row<D> -> Row<D> {
    (r: Row<D>) => if r.name == name then r.(data := data) else r
  }

  function SetNameData<D>(oldName: string, newName: string, data: D): Row<D> -> Row<D> {
    (r: Row<D>) => if r.name == oldName then r.(name := newName, data := data) else r
  }

  /** INSERT ... ON CONFLICT(name) DO UPDATE SET data */
  function Upsert<D>(t: Table<D>, name: string, data: D, place: Place): Table<D> {
    if Has(t.rows, name) then t.(rows := MapRows(t.rows, SetData(name, data)))
    else Table(t.rows + [Row(t.nextId, name, data, NewPos(t.rows, place))], t.nextId + 1)
  }

  /** UPDATE SET name, data WHERE name; None on a UNIQUE violation. */
  function Rename<D>(t: Table<D>, oldName: string, name: string, data: D): Option<Table<D>> {
    if name != oldName && Has(t.rows, oldName) && Has(t.rows, name) then None
    else Some(t.(rows := MapRows(t.rows, SetNameData(oldName, name, data))))
  }

  function Delete<D>(t: Table<D>, name: string): Table<D> {
    t.(rows := Without(t.rows, name))
  }

  // ---- SELECT ... ORDER BY pos, id ----

  predicate Before<D>(a: Row<D>, b: Row<D>) {
    a.pos < b.pos || (a.pos == b.pos && a.id < b.id)
  }

  function Insert<D>(r: Row<D>, sorted: seq<Row<D>>): (s: seq<Row<D>>)
    ensures multiset(s) == multiset(sorted) + multiset{r}
  {
    if sorted == [] then [r]
    else if Before(r, sorted[0]) then [r] + sorted
    else
      assert sorted == [sorted[0]] + sorted[1..];
      [sorted[0]] + Insert(r, sorted[1..])
  }

  function Listed<D>(rows: seq<Row<D>>): (s: seq<Row<D>>)
    ensures multiset(s) == multiset(rows)
  {
    if rows == [] then []
    else
      assert rows == rows[..|rows| - 1] + [rows[|rows| - 1]];
      Insert(rows[|rows| - 1], Listed(rows[..|rows| - 1]))
  }

  predicate Sorted<D>(s: seq<Row<D>>) {
    forall i, j :: 0 <= i < j < |s| ==> s[i].pos < s[j].pos
  }

  ghost predicate Elsewhere<D>(s: seq<Row<D>>, r: Row<D>) {
    forall x :: x in s ==> x.pos != r.pos
  }

  lemma InInsert<D>(r: Row<D>, s: seq<Row<D>>, x: Row<D>)
    ensures x in Insert(r, s) <==> x in s || x == r
  {
    assert x in Insert(r, s) <==> x in multiset(Insert(r, s));
  }

  lemma InListed<D>(rows: seq<Row<D>>, x: Row<D>)
    ensures x in Listed(rows) <==> x in rows
  {
    assert x in Listed(rows) <==> x in multiset(Listed(rows));
  }

  /** Putting a smallest row in front keeps the order. */
  lemma ConsSorted<D>(r: Row<D>, s: seq<Row<D>>)
    requires Sorted(s) && forall x :: x in s ==> r.pos < x.pos
    ensures Sorted([r] + s)
  {
    assert forall j :: 0 < j < |[r] + s| ==> ([r] + s)[j] == s[j - 1] && s[j - 1] in s;
  }

  lemma {:induction false} InsertSorted<D>(r: Row<D>, s: seq<Row<D>>)
    requires Sorted(s) && Elsewhere(s, r)
    ensures Sorted(Insert(r, s))
    decreases |s|
  {
    if s != [] {
      assert s[0] in s && s == [s[0]] + s[1..];
      if Before(r, s[0]) {
        assert forall j :: 0 < j < |s| ==> s[0].pos < s[j].pos;
        ConsSorted(r, s);
      } else {
        InsertSorted(r, s[1..]);
        forall x | x in Insert(r, s[1..])
          ensures s[0].pos < x.pos
        {
          InInsert(r, s[1..], x);
        }
        ConsSorted(s[0], Insert(r, s[1..]));
      }
    }
  }

  // ---- well-formed tables ----

  predicate Apart<D>(a: Row<D>, b: Row<D>) {
    a.name != b.name && a.pos != b.pos && a.id != b.id
  }

  predicate AllApart<D>(rows: seq<Row<D>>) {
    forall i, j :: 0 <= i < j < |rows| ==> Apart(rows[i], rows[j])
  }

  /** Names, keys and positions are pairwise distinct, and keys are below the next one. */
  ghost predicate Valid<D>(t: Table<D>) {
    && AllApart(t.rows)
    && forall x :: x in t.rows ==> x.id < t.nextId
  }

  lemma ApartFromLast<D>(rows: seq<Row<D>>)
    requires AllApart(rows) && rows != []
    ensures AllApart(rows[..|rows| - 1])
    ensures Elsewhere(Listed(rows[..|rows| - 1]), rows[|rows| - 1])
  {
    var n := |rows| - 1;
    forall x | x in Listed(rows[..n])
      ensures x.pos != rows[n].pos
    {
      InListed(rows[..n], x);
      var i :| 0 <= i < n && rows[i] == x;
      assert Apart(rows[i], rows[n]);
    }
  }

  lemma {:induction false} ListedSorted<D>(rows: seq<Row<D>>)
    requires AllApart(rows)
    ensures Sorted(Listed(rows))
    decreases |rows|
  {
    if rows != [] {
      var n := |rows| - 1;
      ApartFromLast(rows);
      ListedSorted(rows[..n]);
      InsertSorted(rows[n], Listed(rows[..n]));
    }
  }

  // ---- the plain list ----

  /** What a caller sees: names and data in listed order. */
  function View<D>(s: seq<Row<D>>): (v: seq<(string, D)>)
    ensures |v| == |s| && forall i :: 0 <= i < |s| ==> v[i] == (s[i].name, s[i].data)
  {
    if s == [] then [] else [(s[0].name, s[0].data)] + View(s[1..])
  }

  function List<D>(t: Table<D>): seq<(string, D)> {
    View(Listed(t.rows))
  }

  predicate InList<D>(xs: seq<(string, D)>, name: string) {
    exists i :: 0 <= i < |xs| && xs[i].0 == name
  }

  /** Replacing an item where it stands. */
  function Replace<D>(xs: seq<(string, D)>, oldName: string, name: string, data: D): (ys: seq<(string, D)>)
    ensures |ys| == |xs|
    ensures forall i :: 0 <= i < |xs| ==> ys[i] == if xs[i].0 == oldName then (name, data) else xs[i]
  {
    if xs == [] then []
    else [if xs[0].0 == oldName then (name, data) else xs[0]] + Replace(xs[1..], oldName, name, data)
  }

  function Remove<D>(xs: seq<(string, D)>, name: string): seq<(string, D)> {
    if xs == [] then []
    else (if xs[0].0 == name then [] else [xs[0]]) + Remove(xs[1..], name)
  }

  // ---- how listing meets the statements ----

  /** A change that leaves keys and positions alone. */
  ghost predicate KeepsOrder<D(!new)>(f: Row<D> -> Row<D>) {
    forall r :: f(r).pos == r.pos && f(r).id == r.id
  }

  lemma {:induction false} InsertMap<D(!new)>(r: Row<D>, s: seq<Row<D>>, f: Row<D> -> Row<D>)
    requires KeepsOrder(f)
    ensures Insert(f(r), MapRows(s, f)) == MapRows(Insert(r, s), f)
    decreases |s|
  {
    if s != [] {
      var t := MapRows(s[1..], f);
      assert MapRows(s, f) == [f(s[0])] + t;
      if Before(r, s[0]) {
        assert ([r] + s)[1..] == s;
      } else {
        InsertMap(r, s[1..], f);
        assert ([s[0]] + Insert(r, s[1..]))[1..] == Insert(r, s[1..]);
        assert ([f(s[0])] + t)[1..] == t;
      }
    } else {
      assert MapRows([r], f) == [f(r)];
    }
  }

  lemma {:induction false} ListedMap<D(!new)>(rows: seq<Row<D>>, f: Row<D> -> Row<D>)
    requires KeepsOrder(f)
    ensures Listed(MapRows(rows, f)) == MapRows(Listed(rows), f)
    decreases |rows|
  {
    if rows != [] {
      var n := |rows| - 1;
      ListedMap(rows[..n], f);
      InsertMap(rows[n], Listed(rows[..n]), f);
      assert MapRows(rows, f)[..n] == MapRows(rows[..n], f);
    }
  }

  lemma WithoutCons<D>(r: Row<D>, s: seq<Row<D>>, name: string)
    ensures Without([r] + s, name) == if r.name == name then Without(s, name) else [r] + Without(s, name)
  {
    assert ([r] + s)[1..] == s;
  }

  lemma {:induction false} InsertWithout<D>(r: Row<D>, s: seq<Row<D>>, name: string)
    requires Sorted(s) && Elsewhere(s, r)
    ensures Without(Insert(r, s), name) == if r.name == name then Without(s, name) else Insert(r, Without(s, name))
    decreases |s|
  {
    if s == [] {
      WithoutCons(r, [], name);
      assert [r] + [] == [r];
    } else {
      assert s[0] in s && s == [s[0]] + s[1..];
      assert forall j :: 0 < j < |s| ==> s[0].pos < s[j].pos;
      assert Sorted(s[1..]);
      var rest := s[1..];
      hide Without, Sorted;
      if Before(r, s[0]) {
        WithoutCons(r, s, name);
        InsertBeforeAll(r, Without(s, name));
      } else {
        InsertWithout(r, rest, name);
        WithoutCons(s[0], Insert(r, rest), name);
        WithoutCons(s[0], rest, name);
        InsertAfterHead(r, s[0], Without(rest, name));
      }
    }
  }

  lemma InsertAfterHead<D>(r: Row<D>, x: Row<D>, s: seq<Row<D>>)
    requires !Before(r, x)
    ensures Insert(r, [x] + s) == [x] + Insert(r, s)
  {
    assert ([x] + s)[1..] == s;
  }

  lemma InsertBeforeAll<D>(r: Row<D>, s: seq<Row<D>>)
    requires forall x :: x in s ==> Before(r, x)
    ensures Insert(r, s) == [r] + s
  {
    assert s != [] ==> s[0] in s;
  }

  lemma {:induction false} InsertAfterAll<D>(r: Row<D>, s: seq<Row<D>>)
    requires forall x :: x in s ==> x.pos < r.pos
    ensures Insert(r, s) == s + [r]
    decreases |s|
  {
    if s != [] {
      assert s[0] in s && forall x :: x in s[1..] ==> x in s;
      InsertAfterAll(r, s[1..]);
      assert s + [r] == [s[0]] + (s[1..] + [r]);
    }
  }

  lemma {:induction false} WithoutSnoc<D>(s: seq<Row<D>>, r: Row<D>, name: string)
    ensures Without(s + [r], name) == Without(s, name) + if r.name == name then [] else [r]
    decreases |s|
  {
    if s != [] {
      assert (s + [r])[1..] == s[1..] + [r];
      WithoutSnoc(s[1..], r, name);
    } else {
      assert s + [r] == [r] && [r][1..] == [];
    }
  }

  lemma ListedSnoc<D>(s: seq<Row<D>>, r: Row<D>)
    ensures Listed(s + [r]) == Insert(r, Listed(s))
  {
    assert (s + [r])[..|s|] == s;
  }

  /** One more row, listed and filtered in either order. */
  lemma ListedWithoutStep<D>(before: seq<Row<D>>, r: Row<D>, name: string)
    requires Sorted(Listed(before)) && Elsewhere(Listed(before), r)
    requires Listed(Without(before, name)) == Without(Listed(before), name)
    ensures Listed(Without(before + [r], name)) == Without(Listed(before + [r]), name)
  {
    hide Insert, Without, Listed, Sorted, Elsewhere;
    ListedSnoc(before, r);
    InsertWithout(r, Listed(before), name);
    WithoutSnoc(before, r, name);
    var w := Without(before, name);
    if r.name != name {
      ListedSnoc(w, r);
    } else {
      assert w + [] == w;
    }
  }

  lemma {:induction false} ListedWithout<D>(rows: seq<Row<D>>, name: string)
    requires AllApart(rows)
    ensures Listed(Without(rows, name)) == Without(Listed(rows), name)
    decreases |rows|
  {
    if rows == [] {
    } else {
      hide Without, Insert, Sorted, Elsewhere, AllApart, Listed;
      var n := |rows| - 1;
      var before := rows[..n];
      assert rows == before + [rows[n]];
      ApartFromLast(rows);
      ListedWithout(before, name);
      ListedSorted(before);
      ListedWithoutStep(before, rows[n], name);
    }
  }

  lemma {:induction false} ViewReplace<D>(s: seq<Row<D>>, oldName: string, newName: string, data: D)
    ensures View(MapRows(s, SetNameData(oldName, newName, data))) == Replace(View(s), oldName, newName, data)
  {
  }

  lemma ViewSetData<D>(s: seq<Row<D>>, name: string, data: D)
    ensures View(MapRows(s, SetData(name, data))) == Replace(View(s), name, name, data)
  {
  }

  lemma {:induction false} ViewWithout<D>(s: seq<Row<D>>, name: string)
    ensures View(Without(s, name)) == Remove(View(s), name)
    decreases |s|
  {
    if s != [] {
      ViewWithout(s[1..], name);
      if s[0].name != name {
        assert ([s[0]] + Without(s[1..], name))[1..] == Without(s[1..], name);
      }
    }
  }

  lemma ListHas<D>(t: Table<D>, name: string)
    ensures InList(List(t), name) <==> Has(t.rows, name)
  {
    var s := Listed(t.rows);
    if Has(t.rows, name) {
      var i :| 0 <= i < |t.rows| && t.rows[i].name == name;
      assert t.rows[i] in multiset(t.rows);
      assert t.rows[i] in s;
      var j :| 0 <= j < |s| && s[j] == t.rows[i];
      assert List(t)[j].0 == name;
    }
    if InList(List(t), name) {
      var j :| 0 <= j < |List(t)| && List(t)[j].0 == name;
      assert s[j] in multiset(s);
      assert s[j] in t.rows;
    }
  }

  // ---- each statement, on the table and on the list ----

  function SaveInList<D>(xs: seq<(string, D)>, name: string, data: D, place: Place): seq<(string, D)> {
    if InList(xs, name) then Replace(xs, name, name, data)
    else if place == Top then [(name, data)] + xs
    else xs + [(name, data)]
  }

  function RenameInList<D>(xs: seq<(string, D)>, oldName: string, newName: string, data: D): Option<seq<(string, D)>> {
    if newName != oldName && InList(xs, oldName) && InList(xs, newName) then None
    else Some(Replace(xs, oldName, newName, data))
  }

  lemma NewPosIsOutside<D>(rows: seq<Row<D>>, place: Place, r: Row<D>)
    requires r in rows
    ensures if place == Top then NewPos(rows, place) < r.pos else r.pos < NewPos(rows, place)
  {
  }

  /** A change that keeps keys and positions keeps a table well-formed if names stay apart. */
  lemma MapValid<D(!new)>(t: Table<D>, f: Row<D> -> Row<D>)
    requires Valid(t) && KeepsOrder(f)
    requires forall a, b :: a in t.rows && b in t.rows && a.name != b.name ==> f(a).name != f(b).name
    ensures Valid(t.(rows := MapRows(t.rows, f)))
  {
    var rows := MapRows(t.rows, f);
    forall i, j | 0 <= i < j < |rows|
      ensures Apart(rows[i], rows[j])
    {
      assert Apart(t.rows[i], t.rows[j]) && t.rows[i] in t.rows && t.rows[j] in t.rows;
      assert rows[i] == f(t.rows[i]) && rows[j] == f(t.rows[j]);
    }
    forall x | x in rows
      ensures x.id < t.nextId
    {
      var i :| 0 <= i < |rows| && rows[i] == x;
      assert t.rows[i] in t.rows;
    }
  }

  lemma NewRowValid<D>(t: Table<D>, name: string, data: D, place: Place)
    requires Valid(t) && !Has(t.rows, name)
    ensures Valid(Upsert(t, name, data, place))
  {
    var r := Row(t.nextId, name, data, NewPos(t.rows, place));
    var rows := t.rows + [r];
    forall i, j | 0 <= i < j < |rows|
      ensures Apart(rows[i], rows[j])
    {
      assert rows[i] == t.rows[i] && t.rows[i] in t.rows;
      if j == |t.rows| {
        NewPosIsOutside(t.rows, place, t.rows[i]);
      } else {
        assert Apart(t.rows[i], t.rows[j]);
      }
    }
  }

  lemma ViewSnoc<D>(s: seq<Row<D>>, r: Row<D>)
    ensures View(s + [r]) == View(s) + [(r.name, r.data)] && View([r] + s) == [(r.name, r.data)] + View(s)
  {
  }

  /** An upsert of a new name pushes it to the front or to the back. */
  lemma InsertRefines<D>(t: Table<D>, name: string, data: D, place: Place)
    requires Valid(t) && !Has(t.rows, name)
    ensures List(Upsert(t, name, data, place)) == if place == Top then [(name, data)] + List(t) else List(t) + [(name, data)]
  {
    var r := Row(t.nextId, name, data, NewPos(t.rows, place));
    var s := Listed(t.rows);
    ListedSnoc(t.rows, r);
    ViewSnoc(s, r);
    forall x | x in s
      ensures if place == Top then r.pos < x.pos else x.pos < r.pos
    {
      InListed(t.rows, x);
      NewPosIsOutside(t.rows, place, x);
    }
    if place == Top {
      InsertBeforeAll(r, s);
    } else {
      InsertAfterAll(r, s);
    }
  }

  /** An upsert of an existing name changes its data and never moves it. */
  lemma UpdateRefines<D(!new)>(t: Table<D>, name: string, data: D, place: Place)
    requires Valid(t) && Has(t.rows, name)
    ensures Valid(Upsert(t, name, data, place))
    ensures List(Upsert(t, name, data, place)) == Replace(List(t), name, name, data)
  {
    var f := SetData(name, data);
    MapValid(t, f);
    ListedMap(t.rows, f);
    ViewSetData(Listed(t.rows), name, data);
  }

  lemma UpsertRefines<D(!new)>(t: Table<D>, name: string, data: D, place: Place)
    requires Valid(t)
    ensures Valid(Upsert(t, name, data, place))
    ensures List(Upsert(t, name, data, place)) == SaveInList(List(t), name, data, place)
  {
    hide Upsert, List, InList, Has, Valid;
    ListHas(t, name);
    if Has(t.rows, name) {
      UpdateRefines(t, name, data, place);
    } else {
      InsertRefines(t, name, data, place);
      NewRowValid(t, name, data, place);
    }
  }

  /** A rename changes name and data where the row stands; it fails exactly when both
      names exist and differ. */
  lemma RenameRefines<D(!new)>(t: Table<D>, oldName: string, newName: string, data: D)
    requires Valid(t)
    ensures var r, l := Rename(t, oldName, newName, data), RenameInList(List(t), oldName, newName, data);
            if r.None? then l.None? else l == Some(List(r.value)) && Valid(r.value)
  {
    hide Has, InList, MapRows, Listed, View;
    ListHas(t, oldName);
    ListHas(t, newName);
    if Rename(t, oldName, newName, data).Some? {
      var f := SetNameData(oldName, newName, data);
      forall a, b | a in t.rows && b in t.rows && a.name != b.name
        ensures f(a).name != f(b).name
      {
        HasRow(t.rows, a);
        HasRow(t.rows, b);
      }
      MapValid(t, f);
      ListedMap(t.rows, f);
      ViewReplace(Listed(t.rows), oldName, newName, data);
    }
  }

  lemma HasRow<D>(rows: seq<Row<D>>, r: Row<D>)
    requires r in rows
    ensures Has(rows, r.name)
  {
  }

  lemma {:induction false} WithoutApart<D>(rows: seq<Row<D>>, name: string)
    requires AllApart(rows)
    ensures AllApart(Without(rows, name))
    decreases |rows|
  {
    if rows != [] {
      assert rows == [rows[0]] + rows[1..];
      WithoutApart(rows[1..], name);
      WithoutCons(rows[0], rows[1..], name);
      var w := Without(rows[1..], name);
      forall x | x in w
        ensures Apart(rows[0], x)
      {
        assert x in rows[1..];
        var i :| 0 <= i < |rows[1..]| && rows[1..][i] == x;
        assert Apart(rows[0], rows[i + 1]);
      }
      assert forall i :: 0 <= i < |w| ==> w[i] in w;
    }
  }

  lemma DeleteRefines<D>(t: Table<D>, name: string)
    requires Valid(t)
    ensures Valid(Delete(t, name)) && List(Delete(t, name)) == Remove(List(t), name)
  {
    WithoutApart(t.rows, name);
    ListedWithout(t.rows, name);
    ViewWithout(Listed(t.rows), name);
  }

  // ---- runs ----

  datatype Statement<D> = Save(name: string, data: D, place: Place) | Move(oldName: string, newName: string, data: D) | Drop(name: string)

  /** A statement that violates UNIQUE leaves the table as it was. */
  function Run<D>(t: Table<D>, ops: seq<Statement<D>>): Table<D>
    decreases |ops|
  {
    if ops == [] then t
    else
      var next := match ops[0]
        case Save(name, data, place) => Upsert(t, name, data, place)
        case Move(oldName, newName, data) =>
          (var r := Rename(t, oldName, newName, data); if r.None? then t else r.value)
        case Drop(name) => Delete(t, name);
      Run(next, ops[1..])
  }

  function RunList<D>(xs: seq<(string, D)>, ops: seq<Statement<D>>): seq<(string, D)>
    decreases |ops|
  {
    if ops == [] then xs
    else
      var next := match ops[0]
        case Save(name, data, place) => SaveInList(xs, name, data, place)
        case Move(oldName, newName, data) =>
          (var r := RenameInList(xs, oldName, newName, data); if r.None? then xs else r.value)
        case Drop(name) => Remove(xs, name);
      RunList(next, ops[1..])
  }

  /** Over any run of statements the listed rows are the plain list: push-front,
      push-back, replace-in-place, rename-in-place and remove.  Positions stay distinct. */
  lemma {:induction false} RunRefines<D(!new)>(t: Table<D>, ops: seq<Statement<D>>)
    requires Valid(t)
    ensures Valid(Run(t, ops)) && List(Run(t, ops)) == RunList(List(t), ops)
    decreases |ops|
  {
    hide List, SaveInList, RenameInList, Remove, Valid, Upsert, Rename, Delete;
    if ops != [] {
      match ops[0] {
        case Save(name, data, place) =>
          UpsertRefines(t, name, data, place);
          RunRefines(Upsert(t, name, data, place), ops[1..]);
        case Move(oldName, newName, data) =>
          RenameRefines(t, oldName, newName, data);
          var r := Rename(t, oldName, newName, data);
          RunRefines(if r.None? then t else r.value, ops[1..]);
        case Drop(name) =>
          DeleteRefines(t, name);
          RunRefines(Delete(t, name), ops[1..]);
      }
    }
  }
}
