/** The stage catalog of one bank group: the flat rows of the stage tables
    indexed by id and by name (StagesHandler.php, constructor). */
module StageCatalog {
  import opened PhpValues

  /** One row of the catalog query: one (stage, role) pairing. */
  datatype Row = Row(id: int, name: string, side: string, priority: int,
                     isHiddenSubstage: bool, role: string, text: string)

  /** The array the constructor stores per stage. As in the source, the key
      `priority` receives the row's `side` column and the key
      `is_hidden_substage` receives the whole row; there is no `side` key.
      `texts` holds the role-name keys with their label text. */
  datatype Entry = Entry(id: int, name: string, priority: string,
                         isHiddenSubstage: Row, texts: map<string, string>)

  datatype Catalog = Catalog(byId: map<int, Entry>, byName: map<string, Entry>)

  function NewEntry(r: Row): Entry {
    Entry(r.id, r.name, r.side, r, map[r.role := r.text])
  }

  function WithText(e: Entry, role: string, text: string): Entry {
    e.(texts := e.texts[role := text])
  }

  /** Rows that share an id share a name (one stage, several role labels):
      every row agrees in name with the earlier rows of its id. */
  ghost predicate ConsistentNames(rows: seq<Row>)
    decreases |rows|
  {
    rows == [] ||
    (&& ConsistentNames(rows[..|rows| - 1])
     && forall j :: 0 <= j < |rows| - 1 && rows[j].id == rows[|rows| - 1].id ==> rows[j].name == rows[|rows| - 1].name)
  }

  /** Rows that share a name share an id: every row agrees in id with the
      earlier rows of its name. */
  ghost predicate UniqueNames(rows: seq<Row>)
    decreases |rows|
  {
    rows == [] ||
    (&& UniqueNames(rows[..|rows| - 1])
     && forall j :: 0 <= j < |rows| - 1 && rows[j].name == rows[|rows| - 1].name ==> rows[j].id == rows[|rows| - 1].id)
  }

  /** Every prefix of consistent rows is consistent. */
  lemma {:induction false} ConsistentPrefix(rows: seq<Row>, n: nat)
    requires ConsistentNames(rows) && n <= |rows|
    ensures ConsistentNames(rows[..n])
    decreases |rows|
  {
    if n < |rows| {
      assert rows[..|rows| - 1][..n] == rows[..n];
      ConsistentPrefix(rows[..|rows| - 1], n);
    } else {
      assert rows[..n] == rows;
    }
  }

  /** Every entry of the by-id index is filed under its own id. */
  ghost predicate IdsFiled(c: Catalog) {
    forall id :: id in c.byId ==> c.byId[id].id == id
  }

  /** Every name leads to an entry of that name whose id leads back to an
      entry of that name. */
  ghost predicate NamesFiled(c: Catalog) {
    forall n :: n in c.byName ==>
      c.byName[n].name == n && c.byName[n].id in c.byId && c.byId[c.byName[n].id].name == n
  }

  ghost predicate WellFormed(c: Catalog) {
    IdsFiled(c) && NamesFiled(c)
  }

  /** The two indexes hold the same entry for every stage. */
  ghost predicate Synced(c: Catalog) {
    forall id :: id in c.byId ==> c.byId[id].name in c.byName && c.byName[c.byId[id].name] == c.byId[id]
  }

  /** One iteration of the constructor's loop: the first row of an id creates
      the entry under both indexes, a later row adds its role text to both. */
  function AddRow(c: Catalog, r: Row): (c': Catalog)
    requires r.id in c.byId ==> c.byId[r.id].name == r.name && r.name in c.byName
    ensures IdsFiled(c) ==> IdsFiled(c')
    ensures c'.byName.Keys == c.byName.Keys + {r.name}
    ensures c'.byId.Keys == c.byId.Keys + {r.id}
    ensures c'.byId[r.id].name == r.name
    ensures forall id :: id in c.byId && id != r.id ==> c'.byId[id] == c.byId[id]
  {
    if r.id !in c.byId then
      var e := NewEntry(r);
      Catalog(c.byId[r.id := e], c.byName[r.name := e])
    else
      Catalog(c.byId[r.id := WithText(c.byId[r.id], r.role, r.text)],
              c.byName[r.name := WithText(c.byName[r.name], r.role, r.text)])
  }

  /** The ids the rows mention. */
  function Ids(rows: seq<Row>): (ids: set<int>)
    ensures forall k :: 0 <= k < |rows| ==> rows[k].id in ids
  {
    if rows == [] then {}
    else Ids(rows[..|rows| - 1]) + {rows[|rows| - 1].id}
  }

  lemma {:induction false} IdWitness(rows: seq<Row>, id: int) returns (k: nat)
    requires id in Ids(rows)
    ensures k < |rows| && rows[k].id == id
  {
    if rows[|rows| - 1].id == id {
      k := |rows| - 1;
    } else {
      k := IdWitness(rows[..|rows| - 1], id);
    }
  }

  /** What the constructor's loop has built after processing `rows`: a
      well-formed catalog holding exactly the rows' ids, each under the name
      its rows carry, with every row's name indexed. */
  ghost predicate Built(rows: seq<Row>, c: Catalog) {
    && IdsFiled(c)
    && c.byId.Keys == Ids(rows)
    && (forall k :: 0 <= k < |rows| ==> c.byId[rows[k].id].name == rows[k].name && rows[k].name in c.byName)
  }

  /** The catalog the constructor builds from `rows`, processed in order. */
  function BuildCatalog(rows: seq<Row>): (c: Catalog)
    requires ConsistentNames(rows)
    ensures Built(rows, c)
    decreases |rows|
  {
    if rows == [] then Catalog(map[], map[])
    else
      var prefix := rows[..|rows| - 1];
      var c0 := BuildCatalog(prefix);
      BuildStep(rows, c0);
      AddRow(c0, rows[|rows| - 1])
  }

  /** Adding the last row to the catalog of the others keeps `Built`. */
  lemma BuildStep(rows: seq<Row>, c0: Catalog)
    requires ConsistentNames(rows) && rows != []
    requires Built(rows[..|rows| - 1], c0)
    ensures var last := rows[|rows| - 1];
            (last.id in c0.byId ==> c0.byId[last.id].name == last.name && last.name in c0.byName)
    ensures Built(rows, AddRow(c0, rows[|rows| - 1]))
  {
    var prefix := rows[..|rows| - 1];
    var last := rows[|rows| - 1];
    assert forall k :: 0 <= k < |prefix| ==> prefix[k] == rows[k];
    if last.id in c0.byId {
      var k := IdWitness(prefix, last.id);
      assert rows[k].id == rows[|rows| - 1].id;
    }
    var c := AddRow(c0, last);
    forall k | 0 <= k < |rows|
      ensures c.byId[rows[k].id].name == rows[k].name && rows[k].name in c.byName
    {
      if k == |rows| - 1 {
      } else if rows[k].id == last.id {
        assert rows[k].name == rows[|rows| - 1].name;
      } else {
        assert prefix[k] == rows[k];
      }
    }
  }

  /** The label text the last row for (`id`, `role`) carries, if any row does. */
  function LastText(rows: seq<Row>, id: int, role: string): Option<string> {
    if rows == [] then None
    else if rows[|rows| - 1].id == id && rows[|rows| - 1].role == role then Some(rows[|rows| - 1].text)
    else LastText(rows[..|rows| - 1], id, role)
  }

  /** One step of the fold, in the form the lemmas below use. */
  lemma BuildUnfold(rows: seq<Row>)
    requires ConsistentNames(rows) && rows != []
    ensures ConsistentNames(rows[..|rows| - 1])
    ensures var c0 := BuildCatalog(rows[..|rows| - 1]); var last := rows[|rows| - 1];
            && Built(rows[..|rows| - 1], c0)
            && (last.id in c0.byId ==> c0.byId[last.id].name == last.name && last.name in c0.byName)
            && BuildCatalog(rows) == AddRow(c0, last)
  {
    BuildStep(rows, BuildCatalog(rows[..|rows| - 1]));
  }

  lemma {:induction false} NotInIds(rows: seq<Row>, id: int)
    requires forall j :: 0 <= j < |rows| ==> rows[j].id != id
    ensures id !in Ids(rows)
  {
    if rows != [] {
      NotInIds(rows[..|rows| - 1], id);
    }
  }

  /** Adding a row keeps the by-name index pointing at entries of its names. */
  lemma AddRowKeepsNamesFiled(c: Catalog, r: Row)
    requires r.id in c.byId ==> c.byId[r.id].name == r.name && r.name in c.byName
    requires WellFormed(c)
    ensures WellFormed(AddRow(c, r))
  {
    var c' := AddRow(c, r);
    forall n | n in c'.byName
      ensures c'.byName[n].name == n && c'.byName[n].id in c'.byId && c'.byId[c'.byName[n].id].name == n
    {
      if n != r.name {
        assert c'.byName[n] == c.byName[n];
      }
    }
  }

  /** A catalog built from rows whose ids keep one name each is well formed. */
  lemma {:induction false} BuildCatalogWellFormed(rows: seq<Row>)
    requires ConsistentNames(rows)
    ensures WellFormed(BuildCatalog(rows))
  {
    if rows != [] {
      BuildUnfold(rows);
      BuildCatalogWellFormed(rows[..|rows| - 1]);
      AddRowKeepsNamesFiled(BuildCatalog(rows[..|rows| - 1]), rows[|rows| - 1]);
    }
  }

  /** The fields of `e` other than the role texts are those `r` provides. */
  ghost predicate FixedBy(e: Entry, r: Row) {
    e.id == r.id && e.name == r.name && e.priority == r.side && e.isHiddenSubstage == r
  }

  /** Adding a row creates the entry of a new id from that row and leaves the
      fields other than the texts of every existing entry alone. */
  lemma AddRowFixes(c: Catalog, r: Row, id: int, r0: Row)
    requires r.id in c.byId ==> c.byId[r.id].name == r.name && r.name in c.byName
    requires (id in c.byId && FixedBy(c.byId[id], r0)) || (id == r.id == r0.id && r == r0 && r.id !in c.byId)
    ensures id in AddRow(c, r).byId && FixedBy(AddRow(c, r).byId[id], r0)
  {
  }

  /** The first row seen for an id fixes that entry's id, name, `priority`
      (the side column) and `is_hidden_substage` (the row itself). */
  lemma {:induction false} FirstRowFixesEntry(rows: seq<Row>, k: nat)
    requires ConsistentNames(rows)
    requires k < |rows|
    requires forall j :: 0 <= j < k ==> rows[j].id != rows[k].id
    ensures rows[k].id in BuildCatalog(rows).byId && FixedBy(BuildCatalog(rows).byId[rows[k].id], rows[k])
  {
    var prefix := rows[..|rows| - 1];
    var last := rows[|rows| - 1];
    BuildUnfold(rows);
    var c0 := BuildCatalog(prefix);
    if k == |rows| - 1 {
      forall j | 0 <= j < |prefix| ensures prefix[j].id != last.id {
        assert prefix[j] == rows[j];
      }
      NotInIds(prefix, last.id);
    } else {
      forall j | 0 <= j < k ensures prefix[j].id != prefix[k].id {
        assert prefix[j] == rows[j];
      }
      FirstRowFixesEntry(prefix, k);
    }
    AddRowFixes(c0, last, rows[k].id, rows[k]);
  }

  /** Adding a row touches only the text of its own (id, role) pair; a new
      id starts with that one text. */
  lemma AddRowText(c: Catalog, r: Row, id: int, role: string)
    requires r.id in c.byId ==> c.byId[r.id].name == r.name && r.name in c.byName
    requires id in AddRow(c, r).byId
    ensures var t := AddRow(c, r).byId[id].texts;
            if id == r.id && role == r.role then role in t && t[role] == r.text
            else if id in c.byId then (role in t <==> role in c.byId[id].texts) &&
                                      (role in t ==> t[role] == c.byId[id].texts[role])
            else role !in t
  {
  }

  /** Later rows of an id only add or overwrite the text under their role:
      each role's text is the one its last row carries. */
  lemma {:induction false} TextsAreLastRowPerRole(rows: seq<Row>, id: int, role: string)
    requires ConsistentNames(rows)
    requires id in BuildCatalog(rows).byId
    ensures role in BuildCatalog(rows).byId[id].texts <==> LastText(rows, id, role).Some?
    ensures role in BuildCatalog(rows).byId[id].texts ==>
              BuildCatalog(rows).byId[id].texts[role] == LastText(rows, id, role).value
  {
    var prefix := rows[..|rows| - 1];
    var last := rows[|rows| - 1];
    BuildUnfold(rows);
    var c0 := BuildCatalog(prefix);
    AddRowText(c0, last, id, role);
    if id in c0.byId {
      TextsAreLastRowPerRole(prefix, id, role);
    } else {
      forall j | 0 <= j < |prefix| ensures prefix[j].id != id {
        assert prefix[j].id in Ids(prefix);
      }
      NoRowNoText(prefix, id, role);
    }
  }

  lemma {:induction false} NoRowNoText(rows: seq<Row>, id: int, role: string)
    requires forall k :: 0 <= k < |rows| ==> rows[k].id != id
    ensures LastText(rows, id, role) == None
  {
    if rows != [] {
      NoRowNoText(rows[..|rows| - 1], id, role);
    }
  }

  /** When the row's name is new or already belongs to its id, adding it
      updates both indexes alike. */
  lemma AddRowKeepsSynced(c: Catalog, r: Row)
    requires r.id in c.byId ==> c.byId[r.id].name == r.name && r.name in c.byName
    requires r.name in c.byName ==> r.id in c.byId
    requires WellFormed(c) && Synced(c)
    ensures Synced(AddRow(c, r))
  {
    var c' := AddRow(c, r);
    forall id | id in c'.byId
      ensures c'.byId[id].name in c'.byName && c'.byName[c'.byId[id].name] == c'.byId[id]
    {
      if id != r.id {
        assert c'.byId[id] == c.byId[id];
        assert c.byId[id].name != r.name;
      }
    }
  }

  /** With unique names, the by-id and by-name indexes receive identical
      updates, so both hold the same entry for every stage. */
  lemma {:induction false} IndexesAgree(rows: seq<Row>)
    requires ConsistentNames(rows)
    requires UniqueNames(rows)
    ensures Synced(BuildCatalog(rows))
  {
    if rows != [] {
      var prefix := rows[..|rows| - 1];
      var last := rows[|rows| - 1];
      BuildUnfold(rows);
      IndexesAgree(prefix);
      BuildCatalogWellFormed(prefix);
      KnownNameKnownId(rows);
      AddRowKeepsSynced(BuildCatalog(prefix), last);
    }
  }

  /** With unique names, a row whose name is already indexed carries an id
      that is already indexed too. */
  lemma KnownNameKnownId(rows: seq<Row>)
    requires ConsistentNames(rows) && UniqueNames(rows) && rows != []
    ensures var prefix := rows[..|rows| - 1]; var last := rows[|rows| - 1];
            ConsistentNames(prefix) &&
            (last.name in BuildCatalog(prefix).byName ==> last.id in BuildCatalog(prefix).byId)
  {
    var prefix := rows[..|rows| - 1];
    var last := rows[|rows| - 1];
    BuildCatalogWellFormed(prefix);
    var c0 := BuildCatalog(prefix);
    if last.name in c0.byName {
      var id := c0.byName[last.name].id;
      var j := IdWitness(prefix, id);
      assert prefix[j].name == last.name;
      assert rows[j] == prefix[j];
    }
  }
}
