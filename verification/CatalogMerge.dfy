/** Two views of the catalog put together: what one transaction knows of its own tables,
    and what others have made of theirs meanwhile. */
module CatalogMerges {
  import opened Catalogs

  // The tables in `theirs` are those of others
  ghost function TheirTables(tables: map<nat, Table>, theirs: set<nat>): map<nat, Table> {
    map t | t in tables && t in theirs :: tables[t]
  }

  ghost function TheirIndexes(indexes: map<nat, Index>, theirs: set<nat>): map<nat, Index> {
    map i | i in indexes && indexes[i].table in theirs :: indexes[i]
  }

  ghost function OwnTables(tables: map<nat, Table>, theirs: set<nat>): map<nat, Table> {
    map t | t in tables && t !in theirs :: tables[t]
  }

  ghost function OwnIndexes(indexes: map<nat, Index>, theirs: set<nat>): map<nat, Index> {
    map i | i in indexes && indexes[i].table !in theirs :: indexes[i]
  }

  // Some table or index of that name
  ghost predicate TableNamed(tables: map<nat, Table>, n: string) {
    exists t :: t in tables && tables[t].name == n
  }

  ghost predicate IndexNamed(indexes: map<nat, Index>, n: string) {
    exists i :: i in indexes && indexes[i].name == n
  }

  // The own tables as in c, those of others as in d
  ghost function Merge(c: Cat, d: Cat, theirs: set<nat>): Cat {
    Cat(
      map n | n in c.names.Keys + d.names.Keys
              && (TableNamed(OwnTables(c.tables, theirs), n) || TableNamed(TheirTables(d.tables, theirs), n)) ::
        if n in c.names && TableNamed(OwnTables(c.tables, theirs), n) then c.names[n]
        else if n in d.names then d.names[n] else 0,
      OwnTables(c.tables, theirs) + TheirTables(d.tables, theirs),
      map n | n in c.indexNames.Keys + d.indexNames.Keys
              && (IndexNamed(OwnIndexes(c.indexes, theirs), n) || IndexNamed(TheirIndexes(d.indexes, theirs), n)) ::
        if n in c.indexNames && IndexNamed(OwnIndexes(c.indexes, theirs), n) then c.indexNames[n]
        else if n in d.indexNames then d.indexNames[n] else 0,
      OwnIndexes(c.indexes, theirs) + TheirIndexes(d.indexes, theirs))
  }

  // Neither names nor numbers collide
  ghost predicate Clear(c: Cat, d: Cat, theirs: set<nat>) {
    && (forall t, u ::
          t in OwnTables(c.tables, theirs) && u in TheirTables(d.tables, theirs) ==>
            c.tables[t].name != d.tables[u].name)
    && (forall i, j ::
          i in OwnIndexes(c.indexes, theirs) && j in TheirIndexes(d.indexes, theirs) ==>
            i != j && c.indexes[i].name != d.indexes[j].name)
  }

  // Others have changed only tables of theirs
  ghost predicate ChangedOnly(c: Cat, d: Cat, theirs: set<nat>) {
    && OwnTables(c.tables, theirs) == OwnTables(d.tables, theirs)
    && OwnIndexes(c.indexes, theirs) == OwnIndexes(d.indexes, theirs)
  }

  lemma NamedBy(c: Cat, t: nat)
    requires Wf(c) && t in c.tables
    ensures c.tables[t].name in c.names && c.names[c.tables[t].name] == t
  {
    assert TableOk(c, t);
  }

  lemma IndexNamedBy(c: Cat, i: nat)
    requires Wf(c) && i in c.indexes
    ensures c.indexes[i].name in c.indexNames && c.indexNames[c.indexes[i].name] == i && c.indexes[i].table in c.tables
  {
    assert IndexOk(c, i);
  }

  lemma MergedTables(c: Cat, d: Cat, theirs: set<nat>)
    requires Wf(c) && Wf(d) && Clear(c, d, theirs)
    ensures var m := Merge(c, d, theirs);
            && (forall n :: n in m.names ==> NameOk(m, n))
            && (forall t :: t in m.tables ==> TableOk(m, t))
  {
    var m := Merge(c, d, theirs);
    forall n | n in m.names ensures NameOk(m, n) {
      if n in c.names && TableNamed(OwnTables(c.tables, theirs), n) {
        var t :| t in OwnTables(c.tables, theirs) && OwnTables(c.tables, theirs)[t].name == n;
        NamedBy(c, t);
      } else {
        assert !TableNamed(OwnTables(c.tables, theirs), n) by {
          forall t | t in OwnTables(c.tables, theirs) { NamedBy(c, t); }
        }
        var t :| t in TheirTables(d.tables, theirs) && TheirTables(d.tables, theirs)[t].name == n;
        NamedBy(d, t);
      }
    }
    forall t | t in m.tables ensures TableOk(m, t) {
      if t in theirs {
        NamedBy(d, t);
        assert TheirTables(d.tables, theirs)[t].name == m.tables[t].name;
      } else {
        NamedBy(c, t);
        assert OwnTables(c.tables, theirs)[t].name == m.tables[t].name;
      }
    }
  }

  lemma MergedIndexes(c: Cat, d: Cat, theirs: set<nat>)
    requires Wf(c) && Wf(d) && Clear(c, d, theirs)
    ensures var m := Merge(c, d, theirs);
            && (forall n :: n in m.indexNames ==> IndexNameOk(m, n))
            && (forall i :: i in m.indexes ==> IndexOk(m, i))
  {
    var m := Merge(c, d, theirs);
    var own, other := OwnIndexes(c.indexes, theirs), TheirIndexes(d.indexes, theirs);
    forall n | n in m.indexNames ensures IndexNameOk(m, n) {
      if n in c.indexNames && IndexNamed(own, n) {
        var i :| i in own && own[i].name == n;
        IndexNamedBy(c, i);
        assert i !in other;
      } else {
        assert !IndexNamed(own, n) by { forall i | i in own { IndexNamedBy(c, i); } }
        var i :| i in other && other[i].name == n;
        IndexNamedBy(d, i);
      }
    }
    forall i | i in m.indexes ensures IndexOk(m, i) {
      if i in other {
        IndexNamedBy(d, i);
        assert other[i].name == m.indexes[i].name;
      } else {
        IndexNamedBy(c, i);
        assert own[i].name == m.indexes[i].name;
      }
    }
  }

  lemma MergeWf(c: Cat, d: Cat, theirs: set<nat>)
    requires Wf(c) && Wf(d) && Clear(c, d, theirs)
    ensures Wf(Merge(c, d, theirs))
  {
    MergedTables(c, d, theirs);
    MergedIndexes(c, d, theirs);
  }

  lemma ClearNow(c: Cat, d: Cat, theirs: set<nat>)
    requires Wf(d) && ChangedOnly(c, d, theirs)
    ensures Clear(c, d, theirs)
  {
    forall t, u | t in OwnTables(c.tables, theirs) && u in TheirTables(d.tables, theirs)
      ensures c.tables[t].name != d.tables[u].name
    {
      assert c.tables[t] == OwnTables(d.tables, theirs)[t];
      NamedBy(d, t);
      NamedBy(d, u);
    }
    forall i, j | i in OwnIndexes(c.indexes, theirs) && j in TheirIndexes(d.indexes, theirs)
      ensures i != j && c.indexes[i].name != d.indexes[j].name
    {
      assert c.indexes[i] == OwnIndexes(d.indexes, theirs)[i];
      IndexNamedBy(d, i);
      IndexNamedBy(d, j);
    }
  }

  lemma PartsMakeWhole(d: Cat, theirs: set<nat>)
    ensures OwnTables(d.tables, theirs) + TheirTables(d.tables, theirs) == d.tables
    ensures OwnIndexes(d.indexes, theirs) + TheirIndexes(d.indexes, theirs) == d.indexes
  {
  }

  // The catalog that others have changed is the merger of what it was and what it is
  lemma MergeNow(c: Cat, d: Cat, theirs: set<nat>)
    requires Wf(c) && Wf(d) && ChangedOnly(c, d, theirs)
    ensures Clear(c, d, theirs) && Merge(c, d, theirs) == d
  {
    ClearNow(c, d, theirs);
    MergeWf(c, d, theirs);
    PartsMakeWhole(d, theirs);
    WfDetermines(Merge(c, d, theirs), d);
  }

  // ---------------------------------------------------------------------------
  // Taking out an own table or index before or after the merger
  // ---------------------------------------------------------------------------

  lemma TableTakenOut(tables: map<nat, Table>, other: map<nat, Table>, table: nat, theirs: set<nat>)
    requires table !in theirs
    ensures OwnTables(tables, theirs) + TheirTables(other, theirs) - {table} ==
            OwnTables(tables - {table}, theirs) + TheirTables(other, theirs)
  {
  }

  lemma IndexesTakenOut(indexes: map<nat, Index>, other: map<nat, Index>, table: nat, theirs: set<nat>)
    requires table !in theirs
    ensures Outside(OwnIndexes(indexes, theirs) + TheirIndexes(other, theirs), table) ==
            OwnIndexes(Outside(indexes, table), theirs) + TheirIndexes(other, theirs)
  {
  }

  lemma IndexTakenOut(indexes: map<nat, Index>, other: map<nat, Index>, i: nat, theirs: set<nat>)
    requires i !in TheirIndexes(other, theirs)
    ensures OwnIndexes(indexes, theirs) + TheirIndexes(other, theirs) - {i} ==
            OwnIndexes(indexes - {i}, theirs) + TheirIndexes(other, theirs)
  {
  }
}
