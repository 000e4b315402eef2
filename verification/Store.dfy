/** Renaming or deleting a subscription together with every reference collections hold to
    it, inside one transaction. */
module Store {
  import opened GoStrings
  import opened Table

  /** An element of a collection's `subscriptions`: a name, or some other JSON value. */
  datatype Ref = Name(name: string) | Other(value: int)

  /** A collection record: its `name` when that is a string, its `subscriptions` when that
      is an array, and everything else it holds. */
  datatype Col = Col(name: Option<string>, subscriptions: Option<seq<Ref>>, rest: string)

  datatype Error = NameConflict | Failed

  datatype Edit = RenameTo(oldName: string, newName: string) | Forget(name: string)

  // ---- what the two loops do to one record ----

  function Target(e: Edit): string {
    if e.RenameTo? then e.oldName else e.name
  }

  function Renamed(refs: seq<Ref>, oldName: string, newName: string): (r: seq<Ref>)
    ensures |r| == |refs|
    ensures forall i :: 0 <= i < |refs| ==> r[i] == if refs[i] == Name(oldName) then Name(newName) else refs[i]
  {
    if refs == [] then [] else [if refs[0] == Name(oldName) then Name(newName) else refs[0]] + Renamed(refs[1..], oldName, newName)
  }

  function Forgotten(refs: seq<Ref>, name: string): (r: seq<Ref>)
    ensures forall x :: x in r <==> x in refs && x != Name(name)
    ensures |r| <= |refs| && (Name(name) in refs ==> |r| < |refs|)
  {
    if refs == [] then []
    else
      assert refs == [refs[0]] + refs[1..];
      (if refs[0] == Name(name) then [] else [refs[0]]) + Forgotten(refs[1..], name)
  }

  function EditRefs(e: Edit, refs: seq<Ref>): seq<Ref> {
    match e
    case RenameTo(o, n) => Renamed(refs, o, n)
    case Forget(n) => Forgotten(refs, n)
  }

  predicate Mentions(col: Col, name: string) {
    col.subscriptions.Some? && Name(name) in col.subscriptions.value
  }

  function Apply(e: Edit, col: Col): Col {
    if Mentions(col, Target(e)) then col.(subscriptions := Some(EditRefs(e, col.subscriptions.value))) else col
  }

  /** An edit changes exactly the records that mention its target. */
  lemma ApplyChanges(e: Edit, col: Col)
    requires e.RenameTo? ==> e.oldName != e.newName
    ensures Apply(e, col) != col <==> Mentions(col, Target(e))
  {
    if Mentions(col, Target(e)) {
      var refs := col.subscriptions.value;
      var i :| 0 <= i < |refs| && refs[i] == Name(Target(e));
      if e.RenameTo? {
        assert EditRefs(e, refs)[i] == Name(e.newName);
      }
    }
  }

  // ---- the loop over the listed records ----

  function Records(rows: seq<Row<Col>>): (cols: seq<Col>)
    ensures |cols| == |rows| && forall i :: 0 <= i < |rows| ==> cols[i] == rows[i].data
  {
    if rows == [] then [] else [rows[0].data] + Records(rows[1..])
  }

  /** Is the record written back? */
  predicate Written(e: Edit, col: Col) {
    Mentions(col, Target(e)) && col.name.Some? && col.name.value != ""
  }

  function WriteOne(t: Table<Col>, col: Col, e: Edit): Table<Col> {
    if Written(e, col) then Upsert(t, col.name.value, Apply(e, col), Bottom) else t
  }

  function WriteBack(t: Table<Col>, cols: seq<Col>, e: Edit): Table<Col>
    decreases |cols|
  {
    if cols == [] then t else WriteBack(WriteOne(t, cols[0], e), cols[1..], e)
  }

  lemma {:induction false} WriteBackSnoc(t: Table<Col>, cols: seq<Col>, col: Col, e: Edit)
    ensures WriteBack(t, cols + [col], e) == WriteOne(WriteBack(t, cols, e), col, e)
    decreases |cols|
  {
    hide WriteOne;
    if cols != [] {
      assert (cols + [col])[1..] == cols[1..] + [col];
      WriteBackSnoc(WriteOne(t, cols[0], e), cols[1..], col, e);
    } else {
      assert [col][1..] == [] && [] + [col] == [col];
    }
  }

  lemma WriteBackNext(t: Table<Col>, cols: seq<Col>, n: nat, e: Edit)
    requires n < |cols|
    ensures WriteBack(t, cols[..n + 1], e) == WriteOne(WriteBack(t, cols[..n], e), cols[n], e)
  {
    WriteBackSnoc(t, cols[..n], cols[n], e);
    assert cols[..n + 1] == cols[..n] + [cols[n]];
  }

  lemma NothingWritten(t: Table<Col>, e: Edit)
    ensures WriteBack(t, [], e) == t
  {
  }

  /** The references in all collections, edited where they stand. */
  function EditRow(e: Edit): Row<Col> -> Row<Col> {
    (r: Row<Col>) => r.(data := Apply(e, r.data))
  }

  function EditAll(t: Table<Col>, e: Edit): Table<Col> {
    t.(rows := MapRows(t.rows, EditRow(e)))
  }

  /** A row whose record is written back under the row's own name, if at all. */
  predicate Keyed(r: Row<Col>, e: Edit) {
    Mentions(r.data, Target(e)) ==> r.data.name == Some(r.name) && r.name != ""
  }

  ghost predicate AllKeyed(t: Table<Col>, e: Edit) {
    forall r :: r in t.rows ==> Keyed(r, e)
  }

  function EditNamed(done: set<string>, e: Edit): Row<Col> -> Row<Col> {
    (r: Row<Col>) => if r.name in done then r.(data := Apply(e, r.data)) else r
  }

  lemma NamesOnce<D>(rows: seq<Row<D>>, i: nat, k: nat)
    requires AllApart(rows) && i < |rows| && k < |rows|
    ensures i == k || rows[i].name != rows[k].name
  {
    if i < k {
      assert Apart(rows[i], rows[k]);
    } else if k < i {
      assert Apart(rows[k], rows[i]);
    }
  }

  lemma OnlyRow<D>(rows: seq<Row<D>>, x: Row<D>, i: nat)
    requires AllApart(rows) && x in rows && i < |rows| && rows[i].name == x.name
    ensures rows[i] == x
  {
    var k :| 0 <= k < |rows| && rows[k] == x;
    NamesOnce(rows, i, k);
  }

  lemma EditPoint(x: Row<Col>, r: Row<Col>, done: set<string>, e: Edit)
    requires r.name == x.name ==> r == x
    ensures SetData(x.name, Apply(e, x.data))(EditNamed(done, e)(r)) == EditNamed(done + {x.name}, e)(r)
  {
    hide Apply;
  }

  /** Updating row `x` on top of the edits already done. */
  lemma EditOneMore(rows: seq<Row<Col>>, done: set<string>, x: Row<Col>, e: Edit)
    requires AllApart(rows) && x in rows
    ensures MapRows(MapRows(rows, EditNamed(done, e)), SetData(x.name, Apply(e, x.data)))
            == MapRows(rows, EditNamed(done + {x.name}, e))
  {
    hide Apply, AllApart, EditNamed, SetData, MapRows;
    var u, v := MapRows(rows, EditNamed(done, e)), MapRows(rows, EditNamed(done + {x.name}, e));
    var w := MapRows(u, SetData(x.name, Apply(e, x.data)));
    forall i | 0 <= i < |rows|
      ensures w[i] == v[i]
    {
      if rows[i].name == x.name {
        OnlyRow(rows, x, i);
      }
      EditPoint(x, rows[i], done, e);
    }
  }

  lemma EditNoMore(rows: seq<Row<Col>>, done: set<string>, x: Row<Col>, e: Edit)
    requires AllApart(rows) && x in rows && Apply(e, x.data) == x.data
    ensures MapRows(rows, EditNamed(done, e)) == MapRows(rows, EditNamed(done + {x.name}, e))
  {
    hide Apply, AllApart;
    var u, v := MapRows(rows, EditNamed(done, e)), MapRows(rows, EditNamed(done + {x.name}, e));
    forall i | 0 <= i < |rows|
      ensures u[i] == v[i]
    {
      if rows[i].name == x.name {
        OnlyRow(rows, x, i);
      }
    }
  }

  lemma MapHas(rows: seq<Row<Col>>, done: set<string>, x: Row<Col>, e: Edit)
    requires x in rows
    ensures Has(MapRows(rows, EditNamed(done, e)), x.name)
  {
    var k :| 0 <= k < |rows| && rows[k] == x;
    assert MapRows(rows, EditNamed(done, e))[k].name == x.name;
  }

  /** One record written back: its row joins those already edited. */
  lemma WriteBackStep(t: Table<Col>, done: set<string>, x: Row<Col>, e: Edit)
    requires Valid(t) && AllKeyed(t, e) && x in t.rows
    ensures WriteOne(t.(rows := MapRows(t.rows, EditNamed(done, e))), x.data, e)
            == t.(rows := MapRows(t.rows, EditNamed(done + {x.name}, e)))
  {
    hide Apply, Mentions, Target, MapRows, AllApart, EditNamed, SetData, Has;
    assert Keyed(x, e);
    if Written(e, x.data) {
      MapHas(t.rows, done, x, e);
      EditOneMore(t.rows, done, x, e);
    } else {
      NotMentioned(e, x.data);
      EditNoMore(t.rows, done, x, e);
    }
  }

  lemma NotMentioned(e: Edit, col: Col)
    ensures !Mentions(col, Target(e)) ==> Apply(e, col) == col
  {
  }

  function NamesOf(rows: seq<Row<Col>>): (s: set<string>)
    ensures forall r :: r in rows ==> r.name in s
  {
    if rows == [] then {} else {rows[0].name} + NamesOf(rows[1..])
  }

  lemma {:induction false} WriteBackEdits(t: Table<Col>, done: set<string>, rest: seq<Row<Col>>, e: Edit)
    requires Valid(t) && AllKeyed(t, e) && forall x :: x in rest ==> x in t.rows
    ensures WriteBack(t.(rows := MapRows(t.rows, EditNamed(done, e))), Records(rest), e)
            == t.(rows := MapRows(t.rows, EditNamed(done + NamesOf(rest), e)))
    decreases |rest|
  {
    hide Valid, AllKeyed, WriteOne, EditNamed, MapRows;
    if rest == [] {
      assert done + NamesOf(rest) == done;
    } else {
      assert rest[0] in rest && rest == [rest[0]] + rest[1..];
      assert Records(rest)[1..] == Records(rest[1..]);
      WriteBackStep(t, done, rest[0], e);
      WriteBackEdits(t, done + {rest[0].name}, rest[1..], e);
      assert done + {rest[0].name} + NamesOf(rest[1..]) == done + NamesOf(rest);
    }
  }

  /** Writing back never gives an existing row a record stored under another name. */
  lemma {:induction false} WriteBackOrigin(t: Table<Col>, cols: seq<Col>, e: Edit, i: nat)
    requires i < |t.rows|
    ensures var w := WriteBack(t, cols, e);
            && i < |w.rows|
            && w.rows[i].name == t.rows[i].name
            && (w.rows[i].data == t.rows[i].data || (w.rows[i].data.name == Some(t.rows[i].name) && t.rows[i].name != ""))
    decreases |cols|
  {
    hide Mentions, Target, EditRefs;
    if cols != [] {
      WriteBackOrigin(WriteOne(t, cols[0], e), cols[1..], e, i);
    }
  }

  lemma KeyedSuffices(t: Table<Col>, e: Edit)
    requires Valid(t) && AllKeyed(t, e)
    ensures WriteBack(t, Records(Listed(t.rows)), e) == EditAll(t, e)
  {
    hide Valid, AllKeyed, Listed, WriteBack;
    var rows := Listed(t.rows);
    forall x | x in rows
      ensures x in t.rows
    {
      InListed(t.rows, x);
    }
    assert MapRows(t.rows, EditNamed({}, e)) == t.rows;
    WriteBackEdits(t, {}, rows, e);
    AllNamed(t, e);
  }

  lemma KeyedNeeded(t: Table<Col>, e: Edit, r: Row<Col>)
    requires r in t.rows && !Keyed(r, e)
    requires e.RenameTo? ==> e.oldName != e.newName
    ensures WriteBack(t, Records(Listed(t.rows)), e) != EditAll(t, e)
  {
    hide Listed, WriteBack;
    var i :| 0 <= i < |t.rows| && t.rows[i] == r;
    WriteBackOrigin(t, Records(Listed(t.rows)), e, i);
    ApplyChanges(e, r.data);
    assert EditAll(t, e).rows[i].data == Apply(e, r.data);
  }

  /** Writing the changed records back edits every collection where it stands, adding and
      moving nothing, exactly when each record that mentions the target is stored under
      its own non-empty name. */
  lemma WriteBackExactly(t: Table<Col>, e: Edit)
    requires Valid(t)
    requires e.RenameTo? ==> e.oldName != e.newName
    ensures WriteBack(t, Records(Listed(t.rows)), e) == EditAll(t, e) <==> AllKeyed(t, e)
  {
    hide WriteBack, EditAll, Valid, Keyed;
    if AllKeyed(t, e) {
      KeyedSuffices(t, e);
    } else {
      var r :| r in t.rows && !Keyed(r, e);
      KeyedNeeded(t, e, r);
    }
  }

  lemma AllNamed(t: Table<Col>, e: Edit)
    ensures MapRows(t.rows, EditNamed({} + NamesOf(Listed(t.rows)), e)) == EditAll(t, e).rows
  {
    forall i | 0 <= i < |t.rows|
      ensures t.rows[i].name in NamesOf(Listed(t.rows))
    {
      InListed(t.rows, t.rows[i]);
    }
  }

  lemma EditKeepsOrder(e: Edit)
    ensures KeepsOrder(EditRow(e))
  {
  }

  /** Editing every row leaves names and the listed order alone and edits each list. */
  lemma EditAllListed(t: Table<Col>, e: Edit)
    requires Valid(t)
    ensures Valid(EditAll(t, e))
    ensures var before, after := List(t), List(EditAll(t, e));
            |after| == |before| && forall i :: 0 <= i < |before| ==> after[i] == (before[i].0, Apply(e, before[i].1))
  {
    hide Apply, Listed, Valid, MapRows, View;
    EditKeepsOrder(e);
    assert forall r :: EditRow(e)(r).name == r.name && EditRow(e)(r).data == Apply(e, r.data);
    MapValid(t, EditRow(e));
    ListedMap(t.rows, EditRow(e));
  }

  // ---- references ----

  /** Every name a collection lists belongs to a subscription. */
  ghost predicate Resolved<S>(subs: Table<S>, cols: Table<Col>) {
    forall r, x :: r in cols.rows && r.data.subscriptions.Some? && x in r.data.subscriptions.value && x.Name? ==> Has(subs.rows, x.name)
  }

  lemma RenameKeepsOthers<S>(subs: Table<S>, oldName: string, newName: string, data: S, name: string)
    requires Rename(subs, oldName, newName, data).Some? && Has(subs.rows, name)
    ensures Has(Rename(subs, oldName, newName, data).value.rows, if name == oldName then newName else name)
  {
    var i :| 0 <= i < |subs.rows| && subs.rows[i].name == name;
    var after := Rename(subs, oldName, newName, data).value.rows;
    assert after[i].name == if name == oldName then newName else name;
  }

  lemma DeleteKeepsOthers<S>(subs: Table<S>, gone: string, name: string)
    requires Has(subs.rows, name) && name != gone
    ensures Has(Delete(subs, gone).rows, name)
  {
    var i :| 0 <= i < |subs.rows| && subs.rows[i].name == name;
    assert subs.rows[i] in Without(subs.rows, gone);
  }

  /** References that all resolved before a rename still resolve after it. */
  lemma RenameKeepsResolved<S>(subs: Table<S>, cols: Table<Col>, oldName: string, newName: string, data: S)
    requires Resolved(subs, cols) && Rename(subs, oldName, newName, data).Some?
    ensures Resolved(Rename(subs, oldName, newName, data).value, EditAll(cols, RenameTo(oldName, newName)))
  {
    hide Rename, Has;
    var e := RenameTo(oldName, newName);
    var after := EditAll(cols, e);
    forall r, x | r in after.rows && r.data.subscriptions.Some? && x in r.data.subscriptions.value && x.Name?
      ensures Has(Rename(subs, oldName, newName, data).value.rows, x.name)
    {
      var k :| 0 <= k < |after.rows| && after.rows[k] == r;
      var was := cols.rows[k].data.subscriptions.value;
      assert cols.rows[k] in cols.rows;
      var j :| 0 <= j < |r.data.subscriptions.value| && r.data.subscriptions.value[j] == x;
      assert was[j] in was && was[j].Name?;
      RenameKeepsOthers(subs, oldName, newName, data, was[j].name);
    }
  }

  lemma DeleteKeepsResolved<S>(subs: Table<S>, cols: Table<Col>, name: string)
    requires Resolved(subs, cols)
    ensures Resolved(Delete(subs, name), EditAll(cols, Forget(name)))
  {
    hide Delete, Has;
    var after := EditAll(cols, Forget(name));
    forall r, x | r in after.rows && r.data.subscriptions.Some? && x in r.data.subscriptions.value && x.Name?
      ensures Has(Delete(subs, name).rows, x.name)
    {
      var k :| 0 <= k < |after.rows| && after.rows[k] == r;
      assert cols.rows[k] in cols.rows;
      assert x in cols.rows[k].data.subscriptions.value && x != Name(name);
      DeleteKeepsOthers(subs, name, x.name);
    }
  }

  // ---- the transactions ----

  /** One open transaction: a private copy of the tables.  `ok(k)` says whether the k-th
      statement goes through. */
  class Tx<S(!new)> {
    var subs: Table<S>
    var collections: Table<Col>
    var step: nat
    const ok: nat -> bool

    constructor (db: Database<S>, ok: nat -> bool)
      ensures subs == db.subs && collections == db.collections && step == 0 && this.ok == ok
    {
      subs, collections, step, this.ok := db.subs, db.collections, 0, ok;
    }

    /** One statement is sent; does it go through? */
    method Send() returns (sent: bool)
      modifies this`step
      ensures sent == ok(old(step)) && step == old(step) + 1
    {
      sent := ok(step);
      step := step + 1;
    }

    method RenameSub(oldName: string, newName: string, data: S) returns (err: Option<Error>)
      modifies this
      ensures collections == old(collections)
      ensures var r := Rename(old(subs), oldName, newName, data);
              match err
              case None => r == Some(subs)
              case Some(NameConflict) => r.None? && subs == old(subs)
              case Some(Failed) => !ok(old(step)) && subs == old(subs)
    {
      var sent := Send();
      if !sent {
        return Some(Failed);
      }
      var r := Rename(subs, oldName, newName, data);
      if r.None? {
        return Some(NameConflict);
      }
      subs := r.value;
      return None;
    }

    method DeleteSub(name: string) returns (err: Option<Error>)
      modifies this
      ensures collections == old(collections)
      ensures if err.None? then subs == Delete(old(subs), name) else err == Some(Failed) && !ok(old(step)) && subs == old(subs)
    {
      var sent := Send();
      if !sent {
        return Some(Failed);
      }
      subs := Delete(subs, name);
      return None;
    }

    method ListCollections() returns (cols: Option<seq<Col>>)
      modifies this`step
      ensures if cols.None? then !ok(old(step)) else cols.value == Records(Listed(collections.rows))
    {
      var sent := Send();
      return if sent then Some(Records(Listed(collections.rows))) else None;
    }

    method UpsertCollection(name: string, col: Col, place: Place) returns (err: Option<Error>)
      modifies this
      ensures subs == old(subs)
      ensures if err.None? then collections == Upsert(old(collections), name, col, place)
              else err == Some(Failed) && !ok(old(step)) && collections == old(collections)
    {
      var sent := Send();
      if !sent {
        return Some(Failed);
      }
      collections := Upsert(collections, name, col, place);
      return None;
    }

    /** Replaces the old name in every list that holds it, writing changed records back. */
    method UpdateCollectionsReferencing(oldName: string, newName: string) returns (err: Option<Error>)
      modifies this
      ensures subs == old(subs)
      ensures err.None? ==> collections == WriteBack(old(collections), Records(Listed(old(collections).rows)), RenameTo(oldName, newName))
      ensures err.Some? ==> err == Some(Failed) && exists k :: !ok(k)
    {
      hide WriteBack, Upsert, Listed, Renamed;
      ghost var e := RenameTo(oldName, newName);
      var listed := ListCollections();
      if listed.None? {
        return Some(Failed);
      }
      var cols := listed.value;
      ghost var t0 := collections;
      assert WriteBack(t0, cols[..0], e) == t0 by { NothingWritten(t0, e); assert cols[..0] == []; }
      var n := 0;
      while n < |cols|
        invariant 0 <= n <= |cols|
        invariant subs == old(subs)
        invariant collections == WriteBack(t0, cols[..n], e)
      {
        var col := cols[n];
        WriteBackNext(t0, cols, n, e);
        n := n + 1;
        if col.subscriptions.None? {
          continue;
        }
        var names, changed := ReplaceRefs(col.subscriptions.value, oldName, newName);
        assert changed <==> Mentions(col, oldName);
        if changed {
          if col.name.Some? && col.name.value != "" {
            err := UpsertCollection(col.name.value, col.(subscriptions := Some(names)), Bottom);
            if err.Some? {
              return;
            }
          }
        }
      }
      assert cols[..n] == cols;
      return None;
    }

    /** Drops a name from every list that holds it, writing changed records back. */
    method RemoveSubscription(name: string) returns (err: Option<Error>)
      modifies this
      ensures subs == old(subs)
      ensures err.None? ==> collections == WriteBack(old(collections), Records(Listed(old(collections).rows)), Forget(name))
      ensures err.Some? ==> err == Some(Failed) && exists k :: !ok(k)
    {
      hide WriteBack, Upsert, Listed, Forgotten;
      ghost var e := Forget(name);
      var listed := ListCollections();
      if listed.None? {
        return Some(Failed);
      }
      var cols := listed.value;
      ghost var t0 := collections;
      assert WriteBack(t0, cols[..0], e) == t0 by { NothingWritten(t0, e); assert cols[..0] == []; }
      var n := 0;
      while n < |cols|
        invariant 0 <= n <= |cols|
        invariant subs == old(subs)
        invariant collections == WriteBack(t0, cols[..n], e)
      {
        var col := cols[n];
        WriteBackNext(t0, cols, n, e);
        n := n + 1;
        if col.subscriptions.None? {
          continue;
        }
        var names := col.subscriptions.value;
        var filtered, changed := FilterRefs(names, name);
        assert changed <==> Mentions(col, name);
        if changed {
          if col.name.Some? && col.name.value != "" {
            err := UpsertCollection(col.name.value, col.(subscriptions := Some(filtered)), Bottom);
            if err.Some? {
              return;
            }
          }
        }
      }
      assert cols[..n] == cols;
      return None;
    }
  }

  lemma {:induction false} ForgottenSnoc(refs: seq<Ref>, x: Ref, name: string)
    ensures Forgotten(refs + [x], name) == Forgotten(refs, name) + if x == Name(name) then [] else [x]
    decreases |refs|
  {
    if refs == [] {
      assert [x][1..] == [] && [] + [x] == [x];
    } else {
      assert (refs + [x])[1..] == refs[1..] + [x];
      ForgottenSnoc(refs[1..], x, name);
    }
  }

  /** The loop that overwrites the old name in place. */
  method ReplaceRefs(refs: seq<Ref>, oldName: string, newName: string) returns (names: seq<Ref>, changed: bool)
    ensures names == Renamed(refs, oldName, newName)
    ensures changed <==> Name(oldName) in refs
  {
    names, changed := refs, false;
    var i := 0;
    while i < |names|
      invariant 0 <= i <= |names| && |names| == |refs|
      invariant forall j :: 0 <= j < |refs| ==> names[j] == if j < i && refs[j] == Name(oldName) then Name(newName) else refs[j]
      invariant changed <==> exists j :: 0 <= j < i && refs[j] == Name(oldName)
    {
      if names[i] == Name(oldName) {
        names := names[i := Name(newName)];
        changed := true;
      }
      i := i + 1;
    }
  }

  /** The loop that keeps every element but the dropped name. */
  method FilterRefs(refs: seq<Ref>, name: string) returns (filtered: seq<Ref>, changed: bool)
    ensures filtered == Forgotten(refs, name)
    ensures changed <==> Name(name) in refs
  {
    filtered, changed := [], false;
    var i := 0;
    while i < |refs|
      invariant 0 <= i <= |refs|
      invariant filtered == Forgotten(refs[..i], name)
      invariant changed <==> Name(name) in refs[..i]
    {
      ForgottenSnoc(refs[..i], refs[i], name);
      assert refs[..i + 1] == refs[..i] + [refs[i]];
      if refs[i] == Name(name) {
        changed := true;
      } else {
        filtered := filtered + [refs[i]];
      }
      i := i + 1;
    }
    assert refs[..i] == refs;
  }

  /** The committed tables. */
  class Database<S(!new)> {
    var subs: Table<S>
    var collections: Table<Col>

    constructor (subs: Table<S>, collections: Table<Col>)
      ensures this.subs == subs && this.collections == collections
    {
      this.subs, this.collections := subs, collections;
    }

    ghost predicate Ready()
      reads this
    {
      Valid(subs) && Valid(collections)
    }

    method Commit(tx: Tx<S>) returns (err: Option<Error>)
      modifies this, tx
      ensures err.None? ==> subs == old(tx.subs) && collections == old(tx.collections)
      ensures err.Some? ==> err == Some(Failed) && (exists k :: !tx.ok(k)) && subs == old(subs) && collections == old(collections)
    {
      var sent := tx.Send();
      if !sent {
        return Some(Failed);
      }
      subs, collections := tx.subs, tx.collections;
      return None;
    }

    /** Renames a subscription and every reference to it.  An error at any statement leaves
        the store as it was; otherwise both tables change together. */
    method RenameSubscription(oldName: string, newName: string, data: S, ok: nat -> bool) returns (err: Option<Error>)
      requires Ready() && oldName != newName
      modifies this
      ensures Ready()
      ensures err.Some? ==> subs == old(subs) && collections == old(collections)
      ensures err.None? ==>
                && RenameInList(List(old(subs)), oldName, newName, data) == Some(List(subs))
                && collections == WriteBack(old(collections), Records(Listed(old(collections).rows)), RenameTo(oldName, newName))
      ensures err.None? && AllKeyed(old(collections), RenameTo(oldName, newName)) ==>
                && collections == EditAll(old(collections), RenameTo(oldName, newName))
                && (Resolved(old(subs), old(collections)) ==> Resolved(subs, collections))
      ensures err == Some(NameConflict) ==> InList(List(old(subs)), oldName) && InList(List(old(subs)), newName)
      ensures err == Some(Failed) ==> exists k :: !ok(k)
    {
      hide List, RenameInList, Listed, WriteBack, EditAll, AllKeyed, Valid, Resolved;
      if Resolved(subs, collections) && Rename(subs, oldName, newName, data).Some? {
        RenameKeepsResolved(subs, collections, oldName, newName, data);
      }
      var tx := new Tx(this, ok);
      err := tx.RenameSub(oldName, newName, data);
      RenameRefines(subs, oldName, newName, data);
      ConflictMeans(subs, oldName, newName, data);
      if err.Some? {
        return;
      }
      err := tx.UpdateCollectionsReferencing(oldName, newName);
      if err.Some? {
        return;
      }
      WriteBackValid(collections, Records(Listed(collections.rows)), RenameTo(oldName, newName));
      WriteBackExactly(collections, RenameTo(oldName, newName));
      err := Commit(tx);
    }

    /** Deletes a subscription and every reference to it, or changes nothing. */
    method DeleteSubscription(name: string, ok: nat -> bool) returns (err: Option<Error>)
      requires Ready()
      modifies this
      ensures Ready()
      ensures err.Some? ==> subs == old(subs) && collections == old(collections)
      ensures err.None? ==>
                && List(subs) == Remove(List(old(subs)), name)
                && collections == WriteBack(old(collections), Records(Listed(old(collections).rows)), Forget(name))
      ensures err.None? && AllKeyed(old(collections), Forget(name)) ==>
                && collections == EditAll(old(collections), Forget(name))
                && (Resolved(old(subs), old(collections)) ==> Resolved(subs, collections))
      ensures err.Some? ==> err == Some(Failed) && exists k :: !ok(k)
    {
      hide List, Remove, Listed, WriteBack, EditAll, AllKeyed, Valid, Resolved;
      if Resolved(subs, collections) {
        DeleteKeepsResolved(subs, collections, name);
      }
      var tx := new Tx(this, ok);
      err := tx.DeleteSub(name);
      DeleteRefines(subs, name);
      if err.Some? {
        return;
      }
      err := tx.RemoveSubscription(name);
      if err.Some? {
        return;
      }
      WriteBackValid(collections, Records(Listed(collections.rows)), Forget(name));
      WriteBackExactly(collections, Forget(name));
      err := Commit(tx);
    }
  }

  lemma ConflictMeans<S(!new)>(subs: Table<S>, oldName: string, newName: string, data: S)
    requires Valid(subs)
    ensures Rename(subs, oldName, newName, data).None? ==> InList(List(subs), oldName) && InList(List(subs), newName)
  {
    ListHas(subs, oldName);
    ListHas(subs, newName);
  }

  lemma {:induction false} WriteBackValid(t: Table<Col>, cols: seq<Col>, e: Edit)
    requires Valid(t)
    ensures Valid(WriteBack(t, cols, e))
    decreases |cols|
  {
    hide Valid, Upsert, Apply;
    if cols != [] {
      if Written(e, cols[0]) {
        UpsertRefines(t, cols[0].name.value, Apply(e, cols[0]), Bottom);
      }
      WriteBackValid(WriteOne(t, cols[0], e), cols[1..], e);
    }
  }
}
