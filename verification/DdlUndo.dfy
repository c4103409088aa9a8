/** Schema changes inside a transaction, the undo records they leave, and rolling them back. */
module DdlUndo {
  import opened CatalogMerges
  import opened Catalogs

  datatype Kind = Dml | CreateTable | DropTable | CreateIndex | DropIndex | AddColumn | DropColumn | RenameColumn

  // `info` indexes the transaction's list of DDL infos; row changes have none
  datatype UndoRecord = UndoRecord(kind: Kind, table: nat, info: nat)

  datatype SavedIndex = SavedIndex(id: nat, index: Index)

  datatype Info = Info(
    tableName: string, savedSchema: Schema, savedIndexes: seq<SavedIndex>, autoIds: seq<nat>,
    single: SavedIndex, column: nat, renameFrom: string)

  const NO_INDEX: SavedIndex := SavedIndex(0, Index("", 0, [], false))

  // ---------------------------------------------------------------------------
  // What a record remembers
  // ---------------------------------------------------------------------------

  // The list holds the indexes of one table, each once
  ghost predicate SavesIndexes(saved: seq<SavedIndex>, indexes: map<nat, Index>, table: nat) {
    && (forall k :: 0 <= k < |saved| ==>
          saved[k].id in indexes && saved[k].index == indexes[saved[k].id] && saved[k].index.table == table)
    && (forall i :: i in indexes && indexes[i].table == table ==> exists k :: 0 <= k < |saved| && saved[k].id == i)
    && (forall j, k :: 0 <= j < k < |saved| ==> saved[j].id != saved[k].id)
  }

  // One schema differs, and only in one table
  ghost predicate SchemaOnly(before: Cat, after: Cat, table: nat) {
    && table in before.tables && table in after.tables
    && after.tables == before.tables[table := before.tables[table].(schema := after.tables[table].schema)]
    && after.indexes == before.indexes
  }

  // A record and its info suffice to get from `after` back to `before`
  ghost predicate Reverses(r: UndoRecord, f: Info, before: Cat, after: Cat) {
    Wf(before) && Wf(after) &&
    match r.kind
    case Dml => before == after
    case CreateTable =>
      && r.table !in before.tables && r.table in after.tables && after.tables[r.table].name == f.tableName
      && after.tables - {r.table} == before.tables && Outside(after.indexes, r.table) == before.indexes
      && forall k :: 0 <= k < |f.autoIds| && f.autoIds[k] in after.indexes ==>
        after.indexes[f.autoIds[k]].table == r.table
    case DropTable =>
      && r.table in before.tables && before.tables[r.table] == Table(f.tableName, f.savedSchema)
      && after.tables == before.tables - {r.table} && after.indexes == Outside(before.indexes, r.table)
      && SavesIndexes(f.savedIndexes, before.indexes, r.table)
    case CreateIndex =>
      && after.tables == before.tables && f.single.id in after.indexes && f.single.index == after.indexes[f.single.id]
      && after.indexes - {f.single.id} == before.indexes
    case DropIndex =>
      && after.tables == before.tables && f.single.id in before.indexes && f.single.index == before.indexes[f.single.id]
      && after.indexes == before.indexes - {f.single.id}
    case AddColumn =>
      && SchemaOnly(before, after, r.table) && f.column == |before.tables[r.table].schema|
      && |after.tables[r.table].schema| == f.column + 1 &&
        after.tables[r.table].schema[..f.column] == before.tables[r.table].schema
    case DropColumn =>
      && SchemaOnly(before, after, r.table) && f.column < |before.tables[r.table].schema|
      && var s := before.tables[r.table].schema;
         !s[f.column].dropped && after.tables[r.table].schema == s[f.column := s[f.column].(dropped := true)]
    case RenameColumn =>
      && SchemaOnly(before, after, r.table) && f.column < |before.tables[r.table].schema|
      && var s, s' := before.tables[r.table].schema, after.tables[r.table].schema;
         f.renameFrom == s[f.column].name && f.column < |s'| &&
           s' == s[f.column := s[f.column].(name := s'[f.column].name)]
  }

  // DDL records among the first n
  function DdlCount(undo: seq<UndoRecord>, n: nat): nat
    requires n <= |undo|
  {
    if n == 0 then 0 else DdlCount(undo, n - 1) + if undo[n - 1].kind == Dml then 0 else 1
  }

  lemma {:induction false} DdlCountGrows(undo: seq<UndoRecord>, m: nat, n: nat)
    requires m <= n <= |undo|
    ensures DdlCount(undo, m) <= DdlCount(undo, n)
    decreases n
  {
    if m < n { DdlCountGrows(undo, m, n - 1); }
  }

  lemma {:induction false} DdlCountPrefix(undo: seq<UndoRecord>, undo': seq<UndoRecord>, n: nat)
    requires n <= |undo| && n <= |undo'| && undo[..n] == undo'[..n]
    ensures DdlCount(undo, n) == DdlCount(undo', n)
    decreases n
  {
    if n > 0 {
      assert undo[n - 1] == undo[..n][n - 1] == undo'[n - 1];
      assert undo[..n - 1] == undo[..n][..n - 1] && undo'[..n - 1] == undo'[..n][..n - 1];
      DdlCountPrefix(undo, undo', n - 1);
    }
  }

  // The catalog before record i, the last entry being the present one
  ghost function At(past: seq<Cat>, now: Cat, i: nat): Cat
    requires i <= |past|
  {
    if i < |past| then past[i] else now
  }

  // Record i is paired with its own info and leads from one catalog back to the one before
  ghost predicate Paired(undo: seq<UndoRecord>, infos: seq<Info>, past: seq<Cat>, now: Cat, i: nat)
    requires i < |undo| == |past|
  {
    if undo[i].kind == Dml then At(past, now, i) == At(past, now, i + 1)
    else
      && undo[i].info == DdlCount(undo, i) < |infos|
      && Reverses(undo[i], infos[undo[i].info], At(past, now, i), At(past, now, i + 1))
  }

  ghost predicate Sound(undo: seq<UndoRecord>, infos: seq<Info>, past: seq<Cat>, now: Cat) {
    && |undo| == |past| && |infos| == DdlCount(undo, |undo|)
    && forall i {:trigger Paired(undo, infos, past, now, i)} :: 0 <= i < |undo| ==> Paired(undo, infos, past, now, i)
  }

  // record_ddl
  lemma DdlRecorded(undo: seq<UndoRecord>, infos: seq<Info>, past: seq<Cat>, before: Cat, r: UndoRecord, f: Info,
                    after: Cat)
    requires Sound(undo, infos, past, before) && r.kind != Dml && r.info == |infos| && Reverses(r, f, before, after)
    ensures Sound(undo + [r], infos + [f], past + [before], after)
  {
    var undo', infos', past' := undo + [r], infos + [f], past + [before];
    DdlCountPrefix(undo, undo', |undo|);
    forall i | 0 <= i < |undo'| ensures Paired(undo', infos', past', after, i) {
      DdlCountPrefix(undo, undo', i);
      if i < |undo| { assert Paired(undo, infos, past, before, i); }
    }
  }

  lemma DmlRecorded(undo: seq<UndoRecord>, infos: seq<Info>, past: seq<Cat>, now: Cat, r: UndoRecord)
    requires Sound(undo, infos, past, now) && r.kind == Dml
    ensures Sound(undo + [r], infos, past + [now], now)
  {
    var undo', past' := undo + [r], past + [now];
    DdlCountPrefix(undo, undo', |undo|);
    forall i | 0 <= i < |undo'| ensures Paired(undo', infos, past', now, i) {
      DdlCountPrefix(undo, undo', i);
      if i < |undo| { assert Paired(undo, infos, past, now, i); }
    }
  }

  // truncate_undo: the records before the mark, with the infos they index
  lemma Truncated(undo: seq<UndoRecord>, infos: seq<Info>, past: seq<Cat>, now: Cat, mark: nat)
    requires Sound(undo, infos, past, now) && mark < |undo|
    ensures DdlCount(undo, mark) <= |infos|
    ensures Sound(undo[..mark], infos[..DdlCount(undo, mark)], past[..mark], past[mark])
  {
    DdlCountGrows(undo, mark, |undo|);
    var undo', infos', past' := undo[..mark], infos[..DdlCount(undo, mark)], past[..mark];
    DdlCountPrefix(undo, undo', mark);
    forall i | 0 <= i < mark ensures Paired(undo', infos', past', past[mark], i) {
      DdlCountPrefix(undo, undo', i);
      DdlCountGrows(undo, i + 1, mark);
      assert Paired(undo, infos, past, now, i);
    }
  }

  // ---------------------------------------------------------------------------
  // What others do meanwhile
  // ---------------------------------------------------------------------------

  // The record speaks of none of their tables, and of none of the numbers of their indexes
  ghost predicate Elsewhere(r: UndoRecord, f: Info, d: Cat, theirs: set<nat>) {
    match r.kind
    case Dml => true
    case CreateTable => r.table !in theirs && forall k :: 0 <= k < |f.autoIds| ==>
      f.autoIds[k] !in TheirIndexes(d.indexes, theirs)
    case CreateIndex => f.single.index.table !in theirs
    case DropIndex => f.single.index.table !in theirs
    case _ => r.table !in theirs
  }

  // A record that leads back still does when the tables of others have changed at both ends
  lemma ReversesElsewhere(r: UndoRecord, f: Info, before: Cat, after: Cat, d: Cat, theirs: set<nat>)
    requires Reverses(r, f, before, after) && Elsewhere(r, f, d, theirs) && Wf(d)
    requires Clear(before, d, theirs) && Clear(after, d, theirs)
    ensures Reverses(r, f, Merge(before, d, theirs), Merge(after, d, theirs))
  {
    MergeWf(before, d, theirs);
    MergeWf(after, d, theirs);
    match r.kind
    case Dml =>
    case CreateTable => TableElsewhere(r.table, before, after, d, theirs);
    case DropTable =>
      TableElsewhere(r.table, after, before, d, theirs);
      SavedElsewhere(f.savedIndexes, r.table, before, d, theirs);
    case CreateIndex => IndexElsewhere(f.single, before, after, d, theirs);
    case DropIndex => IndexElsewhere(f.single, after, before, d, theirs);
    case _ => SchemaElsewhere(r.table, before, after, d, theirs);
  }

  // `with` has one table more than `without`, and its indexes
  lemma TableElsewhere(table: nat, without: Cat, with: Cat, d: Cat, theirs: set<nat>)
    requires table in with.tables && with.tables - {table} == without.tables && table !in theirs
    requires Outside(with.indexes, table) == without.indexes
    ensures var w', w := Merge(without, d, theirs), Merge(with, d, theirs);
            && table in w.tables && w.tables[table] == with.tables[table]
            && w.tables - {table} == w'.tables && Outside(w.indexes, table) == w'.indexes
  {
    TableTakenOut(with.tables, d.tables, table, theirs);
    IndexesTakenOut(with.indexes, d.indexes, table, theirs);
  }

  lemma SavedElsewhere(saved: seq<SavedIndex>, table: nat, c: Cat, d: Cat, theirs: set<nat>)
    requires SavesIndexes(saved, c.indexes, table) && table !in theirs && Clear(c, d, theirs)
    ensures SavesIndexes(saved, Merge(c, d, theirs).indexes, table)
  {
    assert forall i :: i in OwnIndexes(c.indexes, theirs) ==> i !in TheirIndexes(d.indexes, theirs);
  }

  // `with` has one index more than `without`
  lemma IndexElsewhere(x: SavedIndex, without: Cat, with: Cat, d: Cat, theirs: set<nat>)
    requires with.tables == without.tables && x.id in with.indexes && x.index == with.indexes[x.id]
    requires with.indexes - {x.id} == without.indexes && x.index.table !in theirs && Clear(with, d, theirs)
    ensures var w', w := Merge(without, d, theirs), Merge(with, d, theirs);
            w.tables == w'.tables && x.id in w.indexes && x.index == w.indexes[x.id] && w.indexes - {x.id} == w'.indexes
  {
    assert x.id in OwnIndexes(with.indexes, theirs);
    IndexTakenOut(with.indexes, d.indexes, x.id, theirs);
  }

  lemma SchemaElsewhere(table: nat, before: Cat, after: Cat, d: Cat, theirs: set<nat>)
    requires SchemaOnly(before, after, table) && table !in theirs
    ensures var b, a := Merge(before, d, theirs), Merge(after, d, theirs);
            SchemaOnly(b, a, table) && b.tables[table] == before.tables[table] && a.tables[table] == after.tables[table]
  {
  }

  ghost function MergedPast(past: seq<Cat>, d: Cat, theirs: set<nat>): seq<Cat> {
    seq(|past|, i requires 0 <= i < |past| => Merge(past[i], d, theirs))
  }

  // No record and no catalog gone by collides with what others have now
  ghost predicate NoCollision(undo: seq<UndoRecord>, infos: seq<Info>, past: seq<Cat>, d: Cat, theirs: set<nat>) {
    && (forall i :: 0 <= i < |past| ==> Clear(past[i], d, theirs))
    && (forall i :: 0 <= i < |undo| && undo[i].kind != Dml && undo[i].info < |infos| ==>
          Elsewhere(undo[i], infos[undo[i].info], d, theirs))
  }

  // The undo records of a transaction stay good while others change their own tables; what they lead back to has the
  // tables of others as they are now
  lemma OthersKeepSound(undo: seq<UndoRecord>, infos: seq<Info>, past: seq<Cat>, now: Cat, d: Cat, theirs: set<nat>)
    requires Sound(undo, infos, past, now) && Wf(now) && Wf(d) && ChangedOnly(now, d, theirs)
    requires NoCollision(undo, infos, past, d, theirs)
    ensures Sound(undo, infos, MergedPast(past, d, theirs), d)
    ensures At(MergedPast(past, d, theirs), d, 0) == Merge(At(past, now, 0), d, theirs)
  {
    var past' := MergedPast(past, d, theirs);
    MergeNow(now, d, theirs);
    assert forall i :: 0 <= i <= |past| ==> At(past', d, i) == Merge(At(past, now, i), d, theirs);
    forall i | 0 <= i < |undo| ensures Paired(undo, infos, past', d, i) {
      assert Paired(undo, infos, past, now, i);
      if undo[i].kind != Dml {
        ReversesElsewhere(undo[i], infos[undo[i].info], At(past, now, i), At(past, now, i + 1), d, theirs);
      }
    }
  }

  // A column of that name is visible in the table
  ghost predicate Shows(c: Cat, tableName: string, column: string) {
    && tableName in c.names && c.names[tableName] in c.tables
    && var s := c.tables[c.names[tableName]].schema;
       exists k :: 0 <= k < |s| && s[k].name == column && !s[k].dropped
  }

  lemma ShowsAt(c: Cat, tableName: string, column: string)
    requires tableName in c.names && c.names[tableName] in c.tables
    ensures var s := c.tables[c.names[tableName]].schema; Shows(c, tableName, column) <==> ColumnIndex(s, column) < |s|
  {
  }

  ghost predicate SchemaBecomes(c: Cat, c': Cat, tableName: string, schema: Schema) {
    && tableName in c.names && c.names[tableName] in c.tables && c'.names == c.names
    && c'.tables == c.tables[c.names[tableName] := Table(tableName, schema)]
    && c'.indexes == c.indexes && c'.indexNames == c.indexNames
  }

  // The positions of visible columns
  ghost predicate KeysFor(keys: seq<nat>, columns: seq<string>, schema: Schema) {
    && |keys| == |columns|
    && forall i :: 0 <= i < |keys| ==> keys[i] == ColumnIndex(schema, columns[i]) < |schema|
  }

  // Some index of the table uses the column
  ghost predicate KeyColumn(c: Cat, table: nat, column: nat) {
    exists i :: i in c.indexes && c.indexes[i].table == table && column in c.indexes[i].keys
  }

  function AutoName(table: string, column: Column): string {
    table + "_" + column.name + (if column.primary then "_pkey" else "_key")
  }

  // The automatic index of column i, by its position in the statement
  ghost predicate AutoIndex(x: Index, id: nat, table: string, schema: Schema, i: nat) {
    i < |schema| && (schema[i].primary || schema[i].unique) && x == Index(AutoName(table, schema[i]), id, [i], true)
  }

  // Why column i needs no further automatic index
  ghost predicate AutoDone(c: Cat, id: nat, table: string, schema: Schema, i: nat)
    requires i < |schema|
  {
    || (!schema[i].primary && !schema[i].unique)
    || AutoName(table, schema[i]) in c.indexNames || ArtifactName(AutoName(table, schema[i]))
    || (id in c.tables ==> i >= |c.tables[id].schema|)
  }

  function Blank(name: string): Info {
    Info(name, [], [], [], NO_INDEX, 0, "")
  }

  // The first k saved indexes are back
  ghost predicate Restoring(saved: seq<SavedIndex>, k: nat, before: map<nat, Index>, now: map<nat, Index>, table: nat) {
    && k <= |saved|
    && (forall i :: i in now ==> i in before && now[i] == before[i])
    && (forall i :: i in before && before[i].table != table ==> i in now)
    && (forall j :: 0 <= j < k ==> saved[j].id in now)
    && (forall i :: i in now && before[i].table == table ==> exists j :: 0 <= j < k && saved[j].id == i)
  }

  lemma NotYetRestored(saved: seq<SavedIndex>, k: nat, before: map<nat, Index>, now: map<nat, Index>, table: nat)
    requires SavesIndexes(saved, before, table) && Restoring(saved, k, before, now, table) && k < |saved|
    ensures saved[k].id !in now
  {
  }

  lemma RestoredOne(saved: seq<SavedIndex>, k: nat, before: map<nat, Index>, now: map<nat, Index>, table: nat)
    requires SavesIndexes(saved, before, table) && Restoring(saved, k, before, now, table) && k < |saved|
    ensures Restoring(saved, k + 1, before, now[saved[k].id := saved[k].index], table)
  {
    var now' := now[saved[k].id := saved[k].index];
    forall i | i in now' && before[i].table == table ensures exists j :: 0 <= j < k + 1 && saved[j].id == i {
      if i == saved[k].id { assert saved[k].id == i; }
    }
  }

  // A dropped object's name is free: nobody else can have had it
  lemma TableNameFree(before: Cat, now: Cat, id: nat)
    requires Wf(before) && Wf(now) && id in before.tables && now.tables == before.tables - {id}
    ensures before.tables[id].name !in now.names
  {
    var n := before.tables[id].name;
    assert TableOk(before, id);
    forall t | t in now.tables ensures now.tables[t].name != n { assert TableOk(before, t); }
    forall m | m in now.names ensures m != n { assert NameOk(now, m); }
  }

  lemma IndexNameFree(before: Cat, now: Cat, id: nat)
    requires Wf(before) && Wf(now) && id in before.indexes && id !in now.indexes
    requires forall i :: i in now.indexes ==> i in before.indexes && now.indexes[i] == before.indexes[i]
    ensures before.indexes[id].name !in now.indexNames
  {
    var n := before.indexes[id].name;
    assert IndexOk(before, id);
    forall i | i in now.indexes ensures now.indexes[i].name != n { assert IndexOk(before, i); }
    forall m | m in now.indexNames ensures m != n { assert IndexNameOk(now, m); }
  }

  lemma RestoredAll(saved: seq<SavedIndex>, before: map<nat, Index>, now: map<nat, Index>, table: nat)
    requires SavesIndexes(saved, before, table) && Restoring(saved, |saved|, before, now, table)
    ensures now == before
  {
  }

  // The part of a database that schema changes and their rollback touch
  class Session {
    const catalog: Catalog
    var undo: seq<UndoRecord>
    var infos: seq<Info>

    // the catalog the transaction found, and the one before each record, with the changes of others
    ghost var start: Cat
    ghost var past: seq<Cat>

    ghost predicate Valid()
      reads this, catalog
    {
      catalog.Valid() && Sound(undo, infos, past, catalog.Now()) && At(past, catalog.Now(), 0) == start
    }

    constructor (c: Catalog)
      requires c.Valid()
      ensures Valid() && catalog == c && undo == [] && start == c.Now()
    {
      catalog := c;
      start := c.Now();
      undo, infos, past := [], [], [];
    }

    method RecordDdl(kind: Kind, table: nat, info: Info, ghost before: Cat)
      requires kind != Dml && catalog.Valid() && Sound(undo, infos, past, before) && At(past, before, 0) == start
      requires Reverses(UndoRecord(kind, table, |infos|), info, before, catalog.Now())
      modifies this
      ensures Valid() && undo == old(undo) + [UndoRecord(kind, table, |old(infos)|)] && past == old(past) + [before]
      ensures start == old(start) && infos == old(infos) + [info]
    {
      DdlRecorded(undo, infos, past, before, UndoRecord(kind, table, |infos|), info, catalog.Now());
      var idx := |infos|;
      infos := infos + [info];
      undo := undo + [UndoRecord(kind, table, idx)];
      past := past + [before];
    }

    // A row change: nothing of it shows in the catalog
    method RecordDml(table: nat)
      requires Valid()
      modifies this
      ensures Valid() && |undo| == |old(undo)| + 1 && past == old(past) + [catalog.Now()] && start == old(start)
    {
      DmlRecorded(undo, infos, past, catalog.Now(), UndoRecord(Dml, table, 0));
      undo := undo + [UndoRecord(Dml, table, 0)];
      past := past + [catalog.Now()];
    }

    // -------------------------------------------------------------------------
    // Schema changes. Each either changes nothing or is recorded.
    // -------------------------------------------------------------------------

    // What every change promises
    twostate predicate Recorded(ok: bool)
      reads this, catalog
    {
      && past == (if ok then old(past) + [old(catalog.Now())] else old(past))
      && |undo| == |old(undo)| + (if ok then 1 else 0) && start == old(start)
      && (!ok ==> catalog.Now() == old(catalog.Now()))
    }

    ghost function SchemaOf(tableName: string): Schema
      reads catalog
    {
      if tableName in catalog.names && catalog.names[tableName] in catalog.tables
      then catalog.tables[catalog.names[tableName]].schema else []
    }

    method CreateTable(name: string, schema: Schema) returns (ok: bool)
      requires Valid()
      modifies this, catalog
      ensures Valid() && Recorded(ok)
      ensures ok <==> !ArtifactName(name) && Sanitized(schema) != [] && name !in old(catalog.names)
      ensures ok ==> name in catalog.names && catalog.names[name] !in old(catalog.tables)
      ensures ok ==> catalog.tables == old(catalog.tables)[catalog.names[name] := Table(name, Sanitized(schema))]
      ensures ok ==> Outside(catalog.indexes, catalog.names[name]) == old(catalog.indexes)
      // its indexes are those of primary and unique columns, and of all of them unless the name is taken or the
      // position lies behind the end of what is left of the schema
      ensures ok ==> forall x :: x in catalog.indexes && catalog.indexes[x].table == catalog.names[name] ==>
                exists i: nat :: AutoIndex(catalog.indexes[x], catalog.names[name], name, schema, i)
      ensures ok ==> forall i :: 0 <= i < |schema| ==> AutoDone(catalog.Now(), catalog.names[name], name, schema, i)
      // the undo record lists exactly them
      ensures ok ==> |infos| == |old(infos)| + 1 && forall x :: x in catalog.indexes ==>
                (x in infos[|old(infos)|].autoIds <==> catalog.indexes[x].table == catalog.names[name])
    {
      ghost var before := catalog.Now();
      var id := catalog.CreateTable(name, schema);
      if id == 0 { return false; }
      var autos := AutoIndexes(id, name, schema, before);
      assert catalog.tables - {id} == before.tables;
      assert TableOk(catalog.Now(), id);
      RecordDdl(Kind.CreateTable, id, Blank(name).(autoIds := autos), before);
      return true;
    }

    method AutoIndexes(id: nat, name: string, schema: Schema, ghost before: Cat) returns (autos: seq<nat>)
      requires catalog.Valid() && Wf(before) && id !in before.tables && id in catalog.tables
      requires catalog.indexes == before.indexes
      modifies catalog
      ensures catalog.Valid() && catalog.tables == old(catalog.tables) && Outside(catalog.indexes, id) == before.indexes
      ensures forall x :: x in catalog.indexes ==> (x in autos <==> catalog.indexes[x].table == id)
      ensures forall x :: x in catalog.indexes && catalog.indexes[x].table == id ==>
                exists i: nat :: AutoIndex(catalog.indexes[x], id, name, schema, i)
      ensures forall i :: 0 <= i < |schema| ==> AutoDone(catalog.Now(), id, name, schema, i)
    {
      autos := [];
      forall i | i in before.indexes ensures before.indexes[i].table != id { assert IndexOk(before, i); }
      assert Outside(before.indexes, id) == before.indexes;
      for i := 0 to |schema|
        invariant catalog.Valid() && catalog.tables == old(catalog.tables)
        invariant Outside(catalog.indexes, id) == before.indexes
        invariant forall x :: x in catalog.indexes ==> (x in autos <==> catalog.indexes[x].table == id)
        invariant forall x :: x in autos ==> x in catalog.indexes
        invariant forall x :: x in catalog.indexes && catalog.indexes[x].table == id ==>
                    exists k: nat :: AutoIndex(catalog.indexes[x], id, name, schema, k)
        invariant forall k :: 0 <= k < i ==> AutoDone(catalog.Now(), id, name, schema, k)
      {
        var col := schema[i];
        if !col.primary && !col.unique { continue; }
        var suffix := if col.primary then "_pkey" else "_key";
        ghost var was, earlier := catalog.indexes, catalog.Now();
        assert name + "_" + col.name + suffix == AutoName(name, col);
        var indexId := catalog.CreateIndex(name + "_" + col.name + suffix, id, [i], true);
        if indexId != 0 {
          assert Outside(catalog.indexes, id) == Outside(was, id);
          autos := autos + [indexId];
          assert AutoIndex(catalog.indexes[indexId], id, name, schema, i);
        }
        assert AutoDone(catalog.Now(), id, name, schema, i);
        forall k | 0 <= k < i ensures AutoDone(catalog.Now(), id, name, schema, k) {
          assert AutoDone(earlier, id, name, schema, k);
        }
      }
    }

    method DropTable(name: string, locked: bool) returns (ok: bool)
      requires Valid()
      modifies this, catalog
      ensures Valid() && Recorded(ok)
      ensures ok <==> locked && name in old(catalog.names)
      ensures ok ==> undo == old(undo) + [UndoRecord(Kind.DropTable, old(catalog.names)[name], |old(infos)|)]
      ensures ok ==> catalog.tables == old(catalog.tables) - {old(catalog.names)[name]}
      ensures catalog.nextTable == old(catalog.nextTable)
      ensures ok ==> catalog.indexes == Outside(old(catalog.indexes), old(catalog.names)[name])
    {
      ghost var before := catalog.Now();
      if name !in catalog.names || !locked { return false; }
      var id := catalog.names[name];
      assert NameOk(catalog.Now(), name);
      var info := Blank(name).(savedSchema := catalog.tables[id].schema);
      var saved := SaveIndexes(id);
      info := info.(savedIndexes := saved);
      var dropped := catalog.DropTable(name);
      RecordDdl(Kind.DropTable, id, info, before);
      return true;
    }

    method SaveIndexes(table: nat) returns (saved: seq<SavedIndex>)
      ensures SavesIndexes(saved, catalog.indexes, table)
    {
      saved := [];
      var todo := catalog.indexes.Keys;
      while todo != {}
        invariant todo <= catalog.indexes.Keys
        invariant forall k :: 0 <= k < |saved| ==>
                    && saved[k].id in catalog.indexes && saved[k].id !in todo
                    && saved[k].index == catalog.indexes[saved[k].id] && saved[k].index.table == table
        invariant forall i :: i in catalog.indexes && i !in todo && catalog.indexes[i].table == table ==>
                    exists k :: 0 <= k < |saved| && saved[k].id == i
        invariant forall j, k :: 0 <= j < k < |saved| ==> saved[j].id != saved[k].id
        decreases |todo|
      {
        var i :| i in todo;
        todo := todo - {i};
        if catalog.indexes[i].table == table {
          ghost var was := saved;
          saved := saved + [SavedIndex(i, catalog.indexes[i])];
          assert saved[|was|].id == i;
          forall x | x in catalog.indexes && x !in todo && catalog.indexes[x].table == table
            ensures exists k :: 0 <= k < |saved| && saved[k].id == x
          {
            if x != i {
              var k :| 0 <= k < |was| && was[k].id == x;
              assert saved[k].id == x;
            }
          }
        }
      }
    }

    // `built` is whether the rows could be read, were unique where they must be, and loaded
    method CreateIndex(name: string, tableName: string, columns: seq<string>, unique: bool, locked: bool, built: bool)
      returns (ok: bool)
      requires Valid()
      modifies this, catalog
      ensures Valid() && Recorded(ok)
      ensures ok <==>
                && locked && built && tableName in old(catalog.names) && name !in old(catalog.indexNames) &&
                  !ArtifactName(name)
                && columns != [] && forall i :: 0 <= i < |columns| ==> Shows(old(catalog.Now()), tableName, columns[i])
      ensures ok ==> name in catalog.indexNames && catalog.indexNames[name] !in old(catalog.indexes)
      ensures ok ==>
                var id, table := catalog.indexNames[name], old(catalog.names)[tableName];
                && id in catalog.indexes && table in old(catalog.tables)
                && catalog.indexes == old(catalog.indexes)[id := catalog.indexes[id]]
                && catalog.indexes[id] == Index(name, table, catalog.indexes[id].keys, unique)
                && KeysFor(catalog.indexes[id].keys, columns, old(catalog.tables)[table].schema)
    {
      ghost var before := catalog.Now();
      if tableName !in catalog.names || name in catalog.indexNames || !locked { return false; }
      var id := catalog.names[tableName];
      assert NameOk(catalog.Now(), tableName);
      ghost var schema := catalog.tables[id].schema;
      forall i | 0 <= i < |columns|
        ensures Shows(before, tableName, columns[i]) <==> ColumnIndex(schema, columns[i]) < |schema|
      {
        ShowsAt(before, tableName, columns[i]);
      }
      var found, keys := KeyColumns(id, columns);
      if !found { return false; }
      var indexId := catalog.CreateIndex(name, id, keys, unique);
      if indexId == 0 { return false; }
      assert catalog.indexes - {indexId} == before.indexes;
      assert IndexOk(catalog.Now(), indexId);
      if !built {
        var _ := catalog.DropIndex(name);
        WfDetermines(before, catalog.Now());
        return false;
      }
      assert KeysFor(keys, columns, before.tables[id].schema);
      RecordDdl(Kind.CreateIndex, id, Blank("").(single := SavedIndex(indexId, Index(name, id, keys, unique))), before);
      return true;
    }

    method KeyColumns(id: nat, columns: seq<string>) returns (found: bool, keys: seq<nat>)
      requires id in catalog.tables
      ensures found ==> KeysFor(keys, columns, catalog.tables[id].schema)
      ensures found <==> forall i :: 0 <= i < |columns| ==>
                ColumnIndex(catalog.tables[id].schema, columns[i]) < |catalog.tables[id].schema|
    {
      keys := [];
      for i := 0 to |columns|
        invariant KeysFor(keys, columns[..i], catalog.tables[id].schema)
      {
        var k := ColumnIndex(catalog.tables[id].schema, columns[i]);
        if k == |catalog.tables[id].schema| { return false, keys; }
        keys := keys + [k];
      }
      assert columns[..|columns|] == columns;
      return true, keys;
    }

    method DropIndex(name: string, locked: bool) returns (ok: bool)
      requires Valid()
      modifies this, catalog
      ensures Valid() && Recorded(ok)
      ensures ok <==> locked && name in old(catalog.indexNames)
      ensures ok ==> catalog.tables == old(catalog.tables)
      ensures ok ==> catalog.indexes == old(catalog.indexes) - {old(catalog.indexNames)[name]}
    {
      ghost var before := catalog.Now();
      if name !in catalog.indexNames || !locked { return false; }
      var indexId := catalog.indexNames[name];
      assert IndexNameOk(catalog.Now(), name);
      var index := catalog.indexes[indexId];
      var dropped := catalog.DropIndex(name);
      RecordDdl(Kind.DropIndex, index.table, Blank("").(single := SavedIndex(indexId, index)), before);
      return true;
    }

    // `rowsAllow`: the column is nullable, has a default, or the table is empty
    method AddColumn(tableName: string, column: Column, locked: bool, rowsAllow: bool) returns (ok: bool)
      requires Valid()
      modifies this, catalog
      ensures Valid() && Recorded(ok)
      ensures ok <==>
                && locked && rowsAllow && tableName in old(catalog.names)
                && !Shows(old(catalog.Now()), tableName, column.name)
      ensures ok ==> SchemaBecomes(old(catalog.Now()), catalog.Now(), tableName, old(SchemaOf(tableName)) + [column])
    {
      ghost var before := catalog.Now();
      if tableName !in catalog.names || !locked { return false; }
      var id := catalog.names[tableName];
      assert NameOk(catalog.Now(), tableName);
      var schema := catalog.tables[id].schema;
      if ColumnIndex(schema, column.name) < |schema| || !rowsAllow { return false; }
      catalog.SetSchema(id, schema + [column]);
      RecordDdl(Kind.AddColumn, id, Blank(tableName).(column := |schema|), before);
      return true;
    }

    method DropColumn(tableName: string, column: string, locked: bool) returns (ok: bool)
      requires Valid()
      modifies this, catalog
      ensures Valid() && Recorded(ok)
      ensures ok <==>
                && locked && tableName in old(catalog.names) && Shows(old(catalog.Now()), tableName, column)
                && !KeyColumn(old(catalog.Now()), old(catalog.names)[tableName],
                  ColumnIndex(old(SchemaOf(tableName)), column))
      ensures ok ==>
                var s := old(SchemaOf(tableName));
                var k := ColumnIndex(s, column);
                k < |s| && SchemaBecomes(old(catalog.Now()), catalog.Now(), tableName, s[k := s[k].(dropped := true)])
    {
      ghost var before := catalog.Now();
      if tableName !in catalog.names || !locked { return false; }
      var id := catalog.names[tableName];
      assert NameOk(catalog.Now(), tableName);
      var schema := catalog.tables[id].schema;
      var col := ColumnIndex(schema, column);
      if col == |schema| { return false; }
      var indexed := IsKey(id, col);
      if indexed { return false; }
      catalog.SetSchema(id, schema[col := schema[col].(dropped := true)]);
      RecordDdl(Kind.DropColumn, id, Blank(tableName).(column := col), before);
      return true;
    }

    method IsKey(table: nat, column: nat) returns (yes: bool)
      ensures yes <==> KeyColumn(catalog.Now(), table, column)
    {
      var todo := catalog.indexes.Keys;
      while todo != {}
        invariant todo <= catalog.indexes.Keys
        invariant forall i :: i in catalog.indexes && i !in todo ==>
                    catalog.indexes[i].table != table || column !in catalog.indexes[i].keys
        decreases |todo|
      {
        var i :| i in todo;
        todo := todo - {i};
        if catalog.indexes[i].table == table && column in catalog.indexes[i].keys { return true; }
      }
      return false;
    }

    method RenameColumn(tableName: string, from: string, to: string, locked: bool) returns (ok: bool)
      requires Valid()
      modifies this, catalog
      ensures Valid() && Recorded(ok)
      ensures ok <==>
                && locked && tableName in old(catalog.names)
                && Shows(old(catalog.Now()), tableName, from) && !Shows(old(catalog.Now()), tableName, to)
      ensures ok ==>
                var s := old(SchemaOf(tableName));
                var k := ColumnIndex(s, from);
                k < |s| && SchemaBecomes(old(catalog.Now()), catalog.Now(), tableName, s[k := s[k].(name := to)])
    {
      ghost var before := catalog.Now();
      if tableName !in catalog.names || !locked { return false; }
      var id := catalog.names[tableName];
      assert NameOk(catalog.Now(), tableName);
      var schema := catalog.tables[id].schema;
      var col := ColumnIndex(schema, from);
      if col == |schema| || ColumnIndex(schema, to) < |schema| { return false; }
      catalog.SetSchema(id, schema[col := schema[col].(name := to)]);
      RecordDdl(Kind.RenameColumn, id, Blank(tableName).(column := col, renameFrom := from), before);
      return true;
    }

    // -------------------------------------------------------------------------
    // Undo
    // -------------------------------------------------------------------------

    method TruncateUndo(mark: nat)
      requires |past| == |undo| && |infos| == DdlCount(undo, |undo|)
      modifies this`undo, this`infos, this`past
      ensures mark < |old(undo)| ==> DdlCount(old(undo), mark) <= |old(infos)|
      ensures mark >= |old(undo)| ==> undo == old(undo) && infos == old(infos) && past == old(past)
      ensures mark < |old(undo)| ==> undo == old(undo)[..mark] && past == old(past)[..mark]
      ensures mark < |old(undo)| ==> infos == old(infos)[..DdlCount(old(undo), mark)]
    {
      if mark >= |undo| { return; }
      var remove := 0;
      for i := mark to |undo|
        invariant remove == DdlCount(undo, i) - DdlCount(undo, mark)
      {
        if undo[i].kind != Dml { remove := remove + 1; }
      }
      DdlCountGrows(undo, mark, |undo|);
      past := past[..mark];
      while |undo| > mark
        invariant infos == old(infos) && past == old(past)[..mark]
        invariant mark <= |undo| <= |old(undo)| && undo == old(undo)[..|undo|]
      {
        undo := undo[..|undo| - 1];
      }
      while remove > 0 && |infos| > 0
        invariant undo == old(undo)[..mark] && past == old(past)[..mark]
        invariant 0 <= remove <= |infos| <= |old(infos)| && infos == old(infos)[..|infos|]
        invariant |infos| - remove == DdlCount(old(undo), mark)
      {
        infos := infos[..|infos| - 1];
        remove := remove - 1;
      }
    }

    method ApplyUndo(i: nat, ghost before: Cat)
      requires catalog.Valid() && i < |undo| && undo[i].kind != Dml && undo[i].info < |infos|
      requires Reverses(undo[i], infos[undo[i].info], before, catalog.Now())
      modifies catalog
      ensures catalog.Valid() && catalog.Now() == before
    {
      var table, info := undo[i].table, infos[undo[i].info];
      match undo[i].kind
      case Dml => assert false;
      case CreateTable => UndoCreateTable(table, info, before);
      case DropTable => UndoDropTable(table, info, before);
      case CreateIndex => UndoCreateIndex(info, before);
      case DropIndex => UndoDropIndex(info, before);
      case AddColumn => UndoAddColumn(table, info, before);
      case DropColumn => UndoDropColumn(table, info, before);
      case RenameColumn => UndoRenameColumn(table, info, before);
    }

    method UndoCreateTable(table: nat, info: Info, ghost before: Cat)
      requires catalog.Valid() && Reverses(UndoRecord(Kind.CreateTable, table, 0), info, before, catalog.Now())
      modifies catalog
      ensures catalog.Valid() && catalog.Now() == before
    {
      for k := 0 to |info.autoIds|
        invariant catalog.Valid() && Reverses(UndoRecord(Kind.CreateTable, table, 0), info, before, catalog.Now())
      {
        if info.autoIds[k] in catalog.indexes {
          DropAuto(table, info, before, info.autoIds[k]);
        }
      }
      assert TableOk(catalog.Now(), table);
      var dropped := catalog.DropTable(info.tableName);
      WfDetermines(before, catalog.Now());
    }

    // One automatic index fewer is still on the way back
    method DropAuto(table: nat, info: Info, ghost before: Cat, id: nat)
      requires catalog.Valid() && Reverses(UndoRecord(Kind.CreateTable, table, 0), info, before, catalog.Now())
      requires id in catalog.indexes && id in info.autoIds
      modifies catalog
      ensures catalog.Valid() && Reverses(UndoRecord(Kind.CreateTable, table, 0), info, before, catalog.Now())
    {
      ghost var was := catalog.indexes;
      assert was[id].table == table && IndexOk(catalog.Now(), id);
      var _ := catalog.DropIndex(catalog.indexes[id].name);
      assert Outside(catalog.indexes, table) == Outside(was, table);
    }

    method UndoDropTable(table: nat, info: Info, ghost before: Cat)
      requires catalog.Valid() && Reverses(UndoRecord(Kind.DropTable, table, 0), info, before, catalog.Now())
      modifies catalog
      ensures catalog.Valid() && catalog.Now() == before
    {
      TableNameFree(before, catalog.Now(), table);
      catalog.RestoreTable(table, info.tableName, info.savedSchema);
      assert catalog.tables == before.tables;
      var saved := info.savedIndexes;
      for k := 0 to |saved|
        invariant catalog.Valid() && catalog.tables == before.tables
        invariant Restoring(saved, k, before.indexes, catalog.indexes, table)
      {
        NotYetRestored(saved, k, before.indexes, catalog.indexes, table);
        assert IndexOk(before, saved[k].id);
        IndexNameFree(before, catalog.Now(), saved[k].id);
        ghost var was := catalog.indexes;
        catalog.RestoreIndex(saved[k].id, saved[k].index);
        RestoredOne(saved, k, before.indexes, was, table);
      }
      RestoredAll(saved, before.indexes, catalog.indexes, table);
      WfDetermines(before, catalog.Now());
    }

    method UndoCreateIndex(info: Info, ghost before: Cat)
      requires catalog.Valid() && Reverses(UndoRecord(Kind.CreateIndex, 0, 0), info, before, catalog.Now())
      modifies catalog
      ensures catalog.Valid() && catalog.Now() == before
    {
      if info.single.id in catalog.indexes {
        assert IndexOk(catalog.Now(), info.single.id);
        var _ := catalog.DropIndex(catalog.indexes[info.single.id].name);
      }
      WfDetermines(before, catalog.Now());
    }

    method UndoDropIndex(info: Info, ghost before: Cat)
      requires catalog.Valid() && Reverses(UndoRecord(Kind.DropIndex, 0, 0), info, before, catalog.Now())
      modifies catalog
      ensures catalog.Valid() && catalog.Now() == before
    {
      assert IndexOk(before, info.single.id);
      IndexNameFree(before, catalog.Now(), info.single.id);
      catalog.RestoreIndex(info.single.id, info.single.index);
      WfDetermines(before, catalog.Now());
    }

    method UndoAddColumn(table: nat, info: Info, ghost before: Cat)
      requires catalog.Valid() && Reverses(UndoRecord(Kind.AddColumn, table, 0), info, before, catalog.Now())
      modifies catalog
      ensures catalog.Valid() && catalog.Now() == before
    {
      if table in catalog.tables && info.column < |catalog.tables[table].schema| {
        var schema := catalog.tables[table].schema;
        schema := schema[..info.column] + schema[info.column + 1..];
        assert schema == before.tables[table].schema;
        catalog.SetSchema(table, schema);
      }
      assert catalog.tables == before.tables;
      WfDetermines(before, catalog.Now());
    }

    method UndoDropColumn(table: nat, info: Info, ghost before: Cat)
      requires catalog.Valid() && Reverses(UndoRecord(Kind.DropColumn, table, 0), info, before, catalog.Now())
      modifies catalog
      ensures catalog.Valid() && catalog.Now() == before
    {
      if table in catalog.tables && info.column < |catalog.tables[table].schema| {
        var schema := catalog.tables[table].schema;
        schema := schema[info.column := schema[info.column].(dropped := false)];
        assert schema == before.tables[table].schema;
        catalog.SetSchema(table, schema);
      }
      assert catalog.tables == before.tables;
      WfDetermines(before, catalog.Now());
    }

    method UndoRenameColumn(table: nat, info: Info, ghost before: Cat)
      requires catalog.Valid() && Reverses(UndoRecord(Kind.RenameColumn, table, 0), info, before, catalog.Now())
      modifies catalog
      ensures catalog.Valid() && catalog.Now() == before
    {
      if table in catalog.tables && info.column < |catalog.tables[table].schema| {
        var schema := catalog.tables[table].schema;
        schema := schema[info.column := schema[info.column].(name := info.renameFrom)];
        assert schema == before.tables[table].schema;
        catalog.SetSchema(table, schema);
      }
      assert catalog.tables == before.tables;
      WfDetermines(before, catalog.Now());
    }

    // Others have changed tables of theirs: the way back now leads to those as they are
    ghost method OthersChange(before: Cat, theirs: set<nat>)
      requires catalog.Valid() && Wf(before) && Sound(undo, infos, past, before) && At(past, before, 0) == start
      requires ChangedOnly(before, catalog.Now(), theirs) && NoCollision(undo, infos, past, catalog.Now(), theirs)
      modifies this`past, this`start
      ensures Valid() && past == MergedPast(old(past), catalog.Now(), theirs)
      ensures start == Merge(old(start), catalog.Now(), theirs)
    {
      OthersKeepSound(undo, infos, past, before, catalog.Now(), theirs);
      past := MergedPast(past, catalog.Now(), theirs);
      start := Merge(start, catalog.Now(), theirs);
    }

    method Rollback()
      requires Valid()
      modifies catalog
      ensures catalog.Valid() && catalog.Now() == start
    {
      ghost var now := catalog.Now();
      var i := |undo|;
      while i > 0
        invariant 0 <= i <= |undo| && catalog.Valid() && catalog.Now() == At(past, now, i)
      {
        i := i - 1;
        assert Paired(undo, infos, past, now, i);
        if undo[i].kind != Dml { ApplyUndo(i, At(past, now, i)); }
      }
    }

    // Rolling back after others have changed tables of theirs: the own ones are as they were found, those of others as
    // the others have left them
    method RollbackAmongOthers(ghost before: Cat, ghost theirs: set<nat>)
      requires catalog.Valid() && Wf(before) && Sound(undo, infos, past, before) && At(past, before, 0) == start
      requires ChangedOnly(before, catalog.Now(), theirs) && NoCollision(undo, infos, past, catalog.Now(), theirs)
      modifies this`past, this`start, catalog
      ensures catalog.Valid()
      ensures catalog.tables == OwnTables(old(start).tables, theirs) + TheirTables(old(catalog.tables), theirs)
      ensures catalog.indexes == OwnIndexes(old(start).indexes, theirs) + TheirIndexes(old(catalog.indexes), theirs)
    {
      OthersChange(before, theirs);
      Rollback();
    }

    // `logged` is whether every compensating log record could be written
    method RollbackToSavepoint(mark: nat, logged: nat -> bool) returns (ok: bool, ghost at: nat)
      requires Valid()
      modifies this`undo, this`infos, this`past, catalog
      ensures ok ==> Valid() && undo == (if mark < |old(undo)| then old(undo)[..mark] else old(undo))
      ensures ok ==> catalog.Now() == if mark < |old(undo)| then old(past)[mark] else old(catalog.Now())
      ensures ok ==> past == if mark < |old(undo)| then old(past)[..mark] else old(past)
      ensures ok <==> forall j :: mark <= j < |old(undo)| && old(undo)[j].kind == Dml ==> logged(j)
      // otherwise the last record that could not be compensated is as far as it goes, and all records stay
      ensures !ok ==> mark <= at < |old(undo)| && old(undo)[at].kind == Dml && !logged(at)
      ensures !ok ==> forall j :: at < j < |old(undo)| && old(undo)[j].kind == Dml ==> logged(j)
      ensures !ok ==> catalog.Valid() && catalog.Now() == old(At(past, catalog.Now(), at + 1))
      ensures !ok ==> undo == old(undo) && infos == old(infos) && past == old(past)
    {
      at := mark;
      if mark >= |undo| { return true, at; }
      ghost var now := catalog.Now();
      var i := |undo|;
      while i > mark
        invariant undo == old(undo) && infos == old(infos) && past == old(past)
        invariant mark <= i <= |undo| && catalog.Valid() && catalog.Now() == At(past, now, i)
        invariant forall j :: i <= j < |undo| && undo[j].kind == Dml ==> logged(j)
      {
        i := i - 1;
        assert Paired(undo, infos, past, now, i);
        if undo[i].kind != Dml { ApplyUndo(i, At(past, now, i)); } else if !logged(i) { return false, i; }
      }
      Truncated(undo, infos, past, now, mark);
      TruncateUndo(mark);
      return true, at;
    }
  }

  // A dropped table without indexes, and a new one of another name and number
  lemma NothingCollides(undo: seq<UndoRecord>, infos: seq<Info>, past: seq<Cat>, d: Cat, name: string, id: nat)
    requires |undo| == |past| == 1 && undo[0].kind == Kind.DropTable && undo[0].table != id && past[0].indexes == map[]
    requires forall t :: t in past[0].tables ==> past[0].tables[t].name != name
    requires id in d.tables ==> d.tables[id].name == name
    ensures NoCollision(undo, infos, past, d, {id})
  {
  }

  // One transaction drops a table, and another one creates a table of another name
  method DropMeanwhileCreate(name: string, other: string, schema: Schema)
    returns (c: Catalog, session: Session, former: nat, latter: nat, ghost before: Cat)
    requires !ArtifactName(name) && !ArtifactName(other) && Sanitized(schema) != [] && name != other
    ensures fresh(c) && fresh(session) && session.catalog == c && c.Valid() && former != latter
    ensures Wf(before) && Sound(session.undo, session.infos, session.past, before)
    ensures At(session.past, before, 0) == session.start && before.tables == map[] && before.indexes == map[]
    ensures session.start.tables == map[former := Table(name, Sanitized(schema))] && session.start.indexes == map[]
    ensures c.tables == map[latter := Table(other, Sanitized(schema))] && c.indexes == map[]
    ensures |session.undo| == 1 && session.undo[0].kind == Kind.DropTable && session.undo[0].table == former
  {
    c := new Catalog();
    former := c.CreateTable(name, schema);
    session := new Session(c);
    var ok := session.DropTable(name, true);
    before := c.Now();
    NoNames(before);
    latter := c.CreateTable(other, schema);
  }

  // And the first one rolls back: both tables are there
  method OthersAreKept(name: string, other: string, schema: Schema) returns (c: Catalog, former: nat, latter: nat)
    requires !ArtifactName(name) && !ArtifactName(other) && Sanitized(schema) != [] && name != other
    ensures c.Valid() && former != latter
    ensures c.tables == map[former := Table(name, Sanitized(schema)), latter := Table(other, Sanitized(schema))]
  {
    var session;
    ghost var before;
    c, session, former, latter, before := DropMeanwhileCreate(name, other, schema);
    NothingCollides(session.undo, session.infos, session.past, c.Now(), other, latter);
    assert OwnTables(before.tables, {latter}) == OwnTables(c.tables, {latter});
    session.RollbackAmongOthers(before, {latter});
  }
}
