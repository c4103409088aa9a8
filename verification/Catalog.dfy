/** The system catalog: tables and indexes, each reachable by name and by number. */
module Catalogs {

  // name and flags as the catalog tests them; `rest` is everything else a column carries
  datatype Column = Column(name: string, primary: bool, unique: bool, dropped: bool, rest: seq<nat>)

  type Schema = seq<Column>

  datatype Table = Table(name: string, schema: Schema)

  datatype Index = Index(name: string, table: nat, keys: seq<nat>, unique: bool)

  // The logical catalog
  datatype Cat = Cat(
    names: map<string, nat>, tables: map<nat, Table>, indexNames: map<string, nat>, indexes: map<nat, Index>)

  // Names and numbers lead to each other, and an index belongs to a table
  ghost predicate NameOk(c: Cat, n: string)
    requires n in c.names
  {
    c.names[n] in c.tables && c.tables[c.names[n]].name == n
  }

  ghost predicate TableOk(c: Cat, t: nat)
    requires t in c.tables
  {
    c.tables[t].name in c.names && c.names[c.tables[t].name] == t
  }

  ghost predicate IndexNameOk(c: Cat, n: string)
    requires n in c.indexNames
  {
    c.indexNames[n] in c.indexes && c.indexes[c.indexNames[n]].name == n
  }

  ghost predicate IndexOk(c: Cat, i: nat)
    requires i in c.indexes
  {
    c.indexes[i].name in c.indexNames && c.indexNames[c.indexes[i].name] == i && c.indexes[i].table in c.tables
  }

  ghost predicate Wf(c: Cat) {
    && (forall n {:trigger NameOk(c, n)} :: n in c.names ==> NameOk(c, n))
    && (forall t {:trigger TableOk(c, t)} :: t in c.tables ==> TableOk(c, t))
    && (forall n {:trigger IndexNameOk(c, n)} :: n in c.indexNames ==> IndexNameOk(c, n))
    && (forall i {:trigger IndexOk(c, i)} :: i in c.indexes ==> IndexOk(c, i))
  }

  // The name maps carry no information of their own
  lemma WfDetermines(a: Cat, b: Cat)
    requires Wf(a) && Wf(b) && a.tables == b.tables && a.indexes == b.indexes
    ensures a == b
  {
    SameNames(a, b);
    SameNames(b, a);
    assert a.names == b.names;
    assert a.indexNames == b.indexNames;
  }

  lemma SameNames(a: Cat, b: Cat)
    requires Wf(a) && Wf(b) && a.tables == b.tables && a.indexes == b.indexes
    ensures forall n :: n in a.names ==> n in b.names && a.names[n] == b.names[n]
    ensures forall n :: n in a.indexNames ==> n in b.indexNames && a.indexNames[n] == b.indexNames[n]
  {
    forall n | n in a.names ensures n in b.names && a.names[n] == b.names[n] {
      assert NameOk(a, n) && TableOk(b, a.names[n]);
    }
    forall n | n in a.indexNames ensures n in b.indexNames && a.indexNames[n] == b.indexNames[n] {
      assert IndexNameOk(a, n) && IndexOk(b, a.indexNames[n]);
    }
  }

  lemma TableAdded(c: Cat, id: nat, t: Table)
    requires Wf(c) && id !in c.tables && t.name !in c.names
    ensures Wf(c.(tables := c.tables[id := t], names := c.names[t.name := id]))
  {
    var d := c.(tables := c.tables[id := t], names := c.names[t.name := id]);
    forall n | n in d.names ensures NameOk(d, n) { if n in c.names { assert NameOk(c, n); } }
    forall x | x in d.tables ensures TableOk(d, x) { if x in c.tables { assert TableOk(c, x); } }
    forall n | n in d.indexNames ensures IndexNameOk(d, n) { assert IndexNameOk(c, n); }
    forall i | i in d.indexes ensures IndexOk(d, i) { assert IndexOk(c, i); }
  }

  lemma TableRemoved(c: Cat, name: string)
    requires Wf(c) && name in c.names && forall i :: i in c.indexes ==> c.indexes[i].table != c.names[name]
    ensures Wf(c.(tables := c.tables - {c.names[name]}, names := c.names - {name}))
  {
    var d := c.(tables := c.tables - {c.names[name]}, names := c.names - {name});
    assert NameOk(c, name);
    forall n | n in d.names ensures NameOk(d, n) { assert NameOk(c, n); }
    forall x | x in d.tables ensures TableOk(d, x) { assert TableOk(c, x); }
    forall n | n in d.indexNames ensures IndexNameOk(d, n) { assert IndexNameOk(c, n); }
    forall i | i in d.indexes ensures IndexOk(d, i) { assert IndexOk(c, i); }
  }

  lemma IndexAdded(c: Cat, id: nat, x: Index)
    requires Wf(c) && id !in c.indexes && x.name !in c.indexNames && x.table in c.tables
    ensures Wf(c.(indexes := c.indexes[id := x], indexNames := c.indexNames[x.name := id]))
  {
    var d := c.(indexes := c.indexes[id := x], indexNames := c.indexNames[x.name := id]);
    forall n | n in d.names ensures NameOk(d, n) { assert NameOk(c, n); }
    forall t | t in d.tables ensures TableOk(d, t) { assert TableOk(c, t); }
    forall n | n in d.indexNames ensures IndexNameOk(d, n) { if n in c.indexNames { assert IndexNameOk(c, n); } }
    forall i | i in d.indexes ensures IndexOk(d, i) { if i in c.indexes { assert IndexOk(c, i); } }
  }

  // Over whatever stands there: well-formed exactly if neither the name nor the number was somebody else's
  lemma TableRestored(c: Cat, id: nat, t: Table)
    requires Wf(c)
    ensures Wf(c.(tables := c.tables[id := t], names := c.names[t.name := id])) <==>
            (t.name in c.names ==> c.names[t.name] == id) && (id in c.tables ==> c.tables[id].name == t.name)
  {
    var d := c.(tables := c.tables[id := t], names := c.names[t.name := id]);
    if (t.name in c.names ==> c.names[t.name] == id) && (id in c.tables ==> c.tables[id].name == t.name) {
      forall n | n in d.names ensures NameOk(d, n) { if n in c.names { assert NameOk(c, n); } }
      forall x | x in d.tables ensures TableOk(d, x) { if x in c.tables { assert TableOk(c, x); } }
      forall n | n in d.indexNames ensures IndexNameOk(d, n) { assert IndexNameOk(c, n); }
      forall i | i in d.indexes ensures IndexOk(d, i) { assert IndexOk(c, i); }
    } else if t.name in c.names && c.names[t.name] != id {
      assert NameOk(c, t.name);
      assert !TableOk(d, c.names[t.name]);
    } else {
      assert TableOk(c, id);
      assert !NameOk(d, c.tables[id].name);
    }
  }

  lemma IndexRestored(c: Cat, id: nat, x: Index)
    requires Wf(c)
    ensures Wf(c.(indexes := c.indexes[id := x], indexNames := c.indexNames[x.name := id])) <==>
            && (x.name in c.indexNames ==> c.indexNames[x.name] == id)
            && (id in c.indexes ==> c.indexes[id].name == x.name) && x.table in c.tables
  {
    var d := c.(indexes := c.indexes[id := x], indexNames := c.indexNames[x.name := id]);
    if x.table !in c.tables {
      assert !IndexOk(d, id);
    } else if x.name in c.indexNames && c.indexNames[x.name] != id {
      assert IndexNameOk(c, x.name);
      assert !IndexOk(d, c.indexNames[x.name]);
    } else if id in c.indexes && c.indexes[id].name != x.name {
      assert IndexOk(c, id);
      assert !IndexNameOk(d, c.indexes[id].name);
    } else {
      forall n | n in d.names ensures NameOk(d, n) { assert NameOk(c, n); }
      forall t | t in d.tables ensures TableOk(d, t) { assert TableOk(c, t); }
      forall n | n in d.indexNames ensures IndexNameOk(d, n) { if n in c.indexNames { assert IndexNameOk(c, n); } }
      forall i | i in d.indexes ensures IndexOk(d, i) { if i in c.indexes { assert IndexOk(c, i); } }
    }
  }

  lemma IndexRemoved(c: Cat, name: string)
    requires Wf(c) && name in c.indexNames
    ensures Wf(c.(indexes := c.indexes - {c.indexNames[name]}, indexNames := c.indexNames - {name}))
  {
    var d := c.(indexes := c.indexes - {c.indexNames[name]}, indexNames := c.indexNames - {name});
    assert IndexNameOk(c, name);
    forall n | n in d.names ensures NameOk(d, n) { assert NameOk(c, n); }
    forall t | t in d.tables ensures TableOk(d, t) { assert TableOk(c, t); }
    forall n | n in d.indexNames ensures IndexNameOk(d, n) { assert IndexNameOk(c, n); }
    forall i | i in d.indexes ensures IndexOk(d, i) { assert IndexOk(c, i); }
  }

  lemma SchemaChanged(c: Cat, id: nat, schema: Schema)
    requires Wf(c) && id in c.tables
    ensures Wf(c.(tables := c.tables[id := c.tables[id].(schema := schema)]))
  {
    var d := c.(tables := c.tables[id := c.tables[id].(schema := schema)]);
    forall n | n in d.names ensures NameOk(d, n) { assert NameOk(c, n); }
    forall t | t in d.tables ensures TableOk(d, t) { assert TableOk(c, t); }
    forall n | n in d.indexNames ensures IndexNameOk(d, n) { assert IndexNameOk(c, n); }
    forall i | i in d.indexes ensures IndexOk(d, i) { assert IndexOk(c, i); }
  }

  predicate ArtifactName(name: string) {
    name == "" || name == "unexpected token" || name == "unexpected keyword"
  }

  function Sanitized(schema: Schema): Schema {
    if schema == [] then []
    else (if ArtifactName(schema[0].name) then [] else [schema[0]]) + Sanitized(schema[1..])
  }

  // A column stays unless it has no name or one of the parser's messages for one
  lemma SanitizedColumn(c: Column)
    ensures Sanitized([c]) == if c.name in {"", "unexpected token", "unexpected keyword"} then [] else [c]
  {
    assert [c][1..] == [];
  }

  // Columns go or stay one by one
  lemma {:induction false} SanitizedParts(a: Schema, b: Schema)
    ensures Sanitized(a + b) == Sanitized(a) + Sanitized(b)
  {
    if a == [] {
      assert a + b == b;
    } else {
      SanitizedParts(a[1..], b);
      assert (a + b)[1..] == a[1..] + b;
    }
  }

  // Columns keep their positions exactly if none has to go
  lemma {:induction false} SanitizedSame(schema: Schema)
    ensures |Sanitized(schema)| <= |schema|
    ensures Sanitized(schema) == schema <==> forall k :: 0 <= k < |schema| ==> !ArtifactName(schema[k].name)
  {
    if schema != [] {
      SanitizedSame(schema[1..]);
      assert schema == [schema[0]] + schema[1..];
      if Sanitized(schema) == schema {
        assert Sanitized(schema)[1..] == schema[1..];
        assert forall k :: 1 <= k < |schema| ==> schema[k] == schema[1..][k - 1];
      }
    }
  }

  // Indexes of other tables
  function Outside(indexes: map<nat, Index>, table: nat): map<nat, Index> {
    map i | i in indexes && indexes[i].table != table :: indexes[i]
  }

  // get_column_index: the first column of that name not dropped, or the column count
  function ColumnIndex(schema: Schema, name: string): (k: nat)
    ensures k <= |schema|
    ensures k < |schema| ==> schema[k].name == name && !schema[k].dropped
    ensures forall j :: 0 <= j < k ==> schema[j].name != name || schema[j].dropped
  {
    if schema == [] then 0
    else if !schema[0].dropped && schema[0].name == name then 0
    else
      var k := ColumnIndex(schema[1..], name);
      assert forall j :: 1 <= j < 1 + k ==> schema[j] == schema[1..][j - 1];
      1 + k
  }

  class Catalog {
    var names: map<string, nat>
    var tables: map<nat, Table>
    var indexNames: map<string, nat>
    var indexes: map<nat, Index>
    var nextTable: nat
    var nextIndex: nat

    ghost function Now(): Cat
      reads this
    {
      Cat(names, tables, indexNames, indexes)
    }

    ghost predicate Valid()
      reads this
    {
      && Wf(Now()) && nextTable > 0 && nextIndex > 0
      && (forall t :: t in tables ==> t < nextTable) && (forall i :: i in indexes ==> i < nextIndex)
    }

    constructor ()
      ensures Valid() && Now() == Cat(map[], map[], map[], map[]) && nextTable == 10 && nextIndex == 1000
    {
      names, tables, indexNames, indexes := map[], map[], map[], map[];
      nextTable, nextIndex := 10, 1000;
    }

    method CreateTable(name: string, schema: Schema) returns (id: nat)
      requires Valid()
      modifies this
      ensures Valid() && nextIndex == old(nextIndex) && nextTable == old(nextTable) + if id == 0 then 0 else 1
      ensures id == 0 <==>
                name in {"", "unexpected token", "unexpected keyword"} || Sanitized(schema) == [] || name in old(names)
      ensures id == 0 ==> Now() == old(Now())
      ensures id != 0 ==>
                id !in old(tables) && tables == old(tables)[id := Table(name, Sanitized(schema))] &&
                indexes == old(indexes)
      ensures id != 0 ==>
                names == old(names)[name := id] && indexNames == old(indexNames) && id == old(nextTable)
    {
      var clean := Sanitized(schema);
      if ArtifactName(name) || clean == [] || name in names { return 0; }
      id := nextTable;
      TableAdded(Now(), id, Table(name, clean));
      nextTable := nextTable + 1;
      tables := tables[id := Table(name, clean)];
      names := names[name := id];
    }

    method DropTable(name: string) returns (ok: bool)
      requires Valid()
      modifies this`names, this`tables, this`indexNames, this`indexes
      ensures Valid() && (ok <==> name in old(names))
      ensures !ok ==> Now() == old(Now())
      ensures ok ==> tables == old(tables) - {old(names)[name]} && indexes == Outside(old(indexes), old(names)[name])
    {
      if name !in names { return false; }
      var id := names[name];
      DropIndexesForTable(id);
      TableRemoved(Now(), name);
      tables := tables - {id};
      names := names - {name};
      return true;
    }

    // Collect the names first, whatever order the hash map lists them in, then erase
    method DropIndexesForTable(table: nat)
      requires Valid()
      modifies this`indexNames, this`indexes
      ensures Valid() && indexes == Outside(old(indexes), table)
    {
      var doomed := NamesOf(table);
      for k := 0 to |doomed|
        invariant Valid()
        invariant forall n :: n in indexNames ==> n in old(indexNames) && indexNames[n] == old(indexNames)[n]
        invariant forall n :: n in old(indexNames) ==> (n in indexNames <==> n !in doomed[..k])
        invariant forall i :: i in indexes ==> i in old(indexes) && indexes[i] == old(indexes)[i]
      {
        assert doomed[k] in indexNames ==> IndexNameOk(Now(), doomed[k]);
        var _ := DropIndex(doomed[k]);
        assert doomed[..k + 1] == doomed[..k] + [doomed[k]];
      }
      assert doomed[..|doomed|] == doomed;
      forall i | i in old(indexes) ensures i in indexes <==> old(indexes)[i].table != table {
        assert IndexOk(old(Now()), i);
        if i in indexes { assert IndexOk(Now(), i); }
        var n := old(indexes)[i].name;
        if n in indexNames { assert IndexNameOk(Now(), n); }
      }
    }

    method NamesOf(table: nat) returns (found: seq<string>)
      requires Valid()
      ensures forall i :: i in indexes ==> (indexes[i].name in found <==> indexes[i].table == table)
    {
      found := [];
      var todo := indexes.Keys;
      while todo != {}
        invariant todo <= indexes.Keys
        invariant forall i :: i in indexes && i !in todo ==> (indexes[i].name in found <==> indexes[i].table == table)
        invariant forall i :: i in todo ==> indexes[i].name !in found
        decreases |todo|
      {
        var i :| i in todo;
        todo := todo - {i};
        forall j | j in indexes && j != i ensures indexes[j].name != indexes[i].name {
          assert IndexOk(Now(), i) && IndexOk(Now(), j);
        }
        if indexes[i].table == table { found := found + [indexes[i].name]; }
      }
    }

    method CreateIndex(name: string, table: nat, keys: seq<nat>, unique: bool) returns (id: nat)
      requires Valid()
      modifies this`indexNames, this`indexes, this`nextIndex
      ensures Valid()
      ensures id == 0 <==>
                || name in {"", "unexpected token", "unexpected keyword"}
                || table !in tables || keys == [] || name in old(indexNames)
                || exists k :: 0 <= k < |keys| && keys[k] >= |tables[table].schema|
      ensures id == 0 ==> Now() == old(Now())
      ensures id != 0 ==> id !in old(indexes) && indexes == old(indexes)[id := Index(name, table, keys, unique)]
      ensures id != 0 ==> indexNames == old(indexNames)[name := id] && id == old(nextIndex)
      ensures nextIndex == old(nextIndex) + if id == 0 then 0 else 1
    {
      if ArtifactName(name) || table !in tables || keys == [] || name in indexNames { return 0; }
      for k := 0 to |keys|
        invariant forall j :: 0 <= j < k ==> keys[j] < |tables[table].schema|
      {
        if keys[k] >= |tables[table].schema| { return 0; }
      }
      id := nextIndex;
      IndexAdded(Now(), id, Index(name, table, keys, unique));
      nextIndex := nextIndex + 1;
      indexes := indexes[id := Index(name, table, keys, unique)];
      indexNames := indexNames[name := id];
    }

    method DropIndex(name: string) returns (ok: bool)
      requires Valid()
      modifies this`indexNames, this`indexes
      ensures Valid() && (ok <==> name in old(indexNames))
      ensures !ok ==> Now() == old(Now())
      ensures ok ==> indexNames == old(indexNames) - {name} && indexes == old(indexes) - {old(indexNames)[name]}
    {
      if name !in indexNames { return false; }
      IndexRemoved(Now(), name);
      indexes := indexes - {indexNames[name]};
      indexNames := indexNames - {name};
      return true;
    }

    // Puts a table back under its number and name, whoever has them now. Clean exactly if nobody else has.
    method RestoreTable(id: nat, name: string, schema: Schema)
      requires Valid()
      modifies this`tables, this`names, this`nextTable
      ensures tables == old(tables)[id := Table(name, schema)] && names == old(names)[name := id]
      ensures nextTable == if id < old(nextTable) then old(nextTable) else id + 1
      ensures Valid() <==>
                (name in old(names) ==> old(names)[name] == id) && (id in old(tables) ==> old(tables)[id].name == name)
    {
      TableRestored(Now(), id, Table(name, schema));
      tables := tables[id := Table(name, schema)];
      names := names[name := id];
      if id >= nextTable { nextTable := id + 1; }
    }

    method RestoreIndex(id: nat, index: Index)
      requires Valid()
      modifies this`indexes, this`indexNames, this`nextIndex
      ensures indexes == old(indexes)[id := index] && indexNames == old(indexNames)[index.name := id]
      ensures nextIndex == if id < old(nextIndex) then old(nextIndex) else id + 1
      ensures Valid() <==>
                && (index.name in old(indexNames) ==> old(indexNames)[index.name] == id)
                && (id in old(indexes) ==> old(indexes)[id].name == index.name) && index.table in tables
    {
      IndexRestored(Now(), id, index);
      indexes := indexes[id := index];
      indexNames := indexNames[index.name := id];
      if id >= nextIndex { nextIndex := id + 1; }
    }

    // Schemas are changed in the entry itself
    method SetSchema(id: nat, schema: Schema)
      requires Valid() && id in tables
      modifies this`tables
      ensures Valid() && tables == old(tables)[id := old(tables)[id].(schema := schema)]
    {
      SchemaChanged(Now(), id, schema);
      tables := tables[id := tables[id].(schema := schema)];
    }
  }

  // One transaction drops a table, another one creates a table of that name, and the first one rolls back: two tables
  // carry the name, and it leads to the old one
  method NameTakenMeanwhile(name: string, schema: Schema) returns (c: Catalog, former: nat, latter: nat)
    requires !ArtifactName(name) && Sanitized(schema) != []
    ensures !c.Valid() && former != latter
    ensures c.tables == map[former := Table(name, Sanitized(schema)), latter := Table(name, Sanitized(schema))]
    ensures c.names == map[name := former]
  {
    c := new Catalog();
    former := c.CreateTable(name, schema);
    assert TableOk(c.Now(), former);
    var _ := c.DropTable(name);
    assert c.tables == map[];
    NoNames(c.Now());
    latter := c.CreateTable(name, schema);
    assert TableOk(c.Now(), latter);
    c.RestoreTable(former, name, Sanitized(schema));
  }

  lemma NoNames(c: Cat)
    requires Wf(c)
    ensures c.names != map[] ==> c.tables != map[]
  {
    if c.names != map[] {
      var n :| n in c.names.Keys;
      assert NameOk(c, n);
    }
  }
}
