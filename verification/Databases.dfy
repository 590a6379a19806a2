/** A catalog's tables as its clients see them, and what calls make of them. */
module Databases {
  import opened Bytes
  import opened HeapModel
  import opened HeapStates
  import opened Schemas
  import opened CatalogRows

  datatype Content = Content(columns: seq<Column>, rows: HeapMap)

  type Database = map<Name, Content>

  datatype Command = Create(name: Name, columns: seq<Column>) | Drop(name: Name) | Put(name: Name, tuple: seq<byte>)

  datatype Outcome = Stayed | Took | Stored(rid: RID)

  ghost function Effect(db: Database, c: Command, o: Outcome): Database {
    match o
    case Stayed => db
    case Took => if c.Create? then db[c.name := Content(c.columns, imap[])] else db - {c.name}
    case Stored(rid) =>
      if c.Put? && c.name in db then db[c.name := db[c.name].(rows := db[c.name].rows[rid := c.tuple])] else db
  }

  /** The command makes sense: a new table of a size that fits a page, a table or a table for a record that is there. */
  ghost predicate Goes(db: Database, c: Command) {
    match c
    case Create(name, columns) => name !in db && |name| <= 128 && RowSize(name, columns) <= MAX_TUPLE
    case Drop(name) => name in db
    case Put(name, t) => name in db && |t| <= MAX_TUPLE
  }

  /** Only a command that makes sense has an effect, and no record is written over. */
  ghost predicate Lawful(db: Database, c: Command, o: Outcome) {
    && (o.Stayed? || Goes(db, c)) && (c.Put? ==> !o.Took?) && (o.Stored? ==> c.Put?)
    && (o.Stored? && c.name in db ==> o.rid !in db[c.name].rows)
  }

  ghost function After(db: Database, commands: seq<Command>, outcomes: seq<Outcome>): Database
    requires |commands| == |outcomes|
  {
    if commands == [] then db
    else
      var k := |commands| - 1;
      Effect(After(db, commands[..k], outcomes[..k]), commands[k], outcomes[k])
  }

  /** The tables are what the commands make of `db`, each with the outcome it had. */
  ghost predicate Happened(db: Database, commands: seq<Command>, outcomes: seq<Outcome>, now: Database) {
    && |commands| == |outcomes| && now == After(db, commands, outcomes)
    && (forall k :: 0 <= k < |commands| ==> Lawful(After(db, commands[..k], outcomes[..k]), commands[k], outcomes[k]))
  }

  /** Every command that makes sense had its effect. */
  ghost predicate AllWent(db: Database, commands: seq<Command>, outcomes: seq<Outcome>)
    requires |commands| == |outcomes|
  {
    forall k :: 0 <= k < |commands| ==>
      (outcomes[k].Stayed? <==> !Goes(After(db, commands[..k], outcomes[..k]), commands[k]))
  }

  lemma NothingHappened(db: Database)
    ensures Happened(db, [], [], db) && AllWent(db, [], [])
  {
  }

  lemma OneMoreHappened(db: Database, commands: seq<Command>, outcomes: seq<Outcome>, now: Database, o: Outcome)
    requires |outcomes| < |commands| && Happened(db, commands[..|outcomes|], outcomes, now)
    requires Lawful(now, commands[|outcomes|], o)
    ensures Happened(db, commands[..|outcomes| + 1], outcomes + [o], Effect(now, commands[|outcomes|], o))
    ensures AllWent(db, commands[..|outcomes|], outcomes) && (o.Stayed? <==> !Goes(now, commands[|outcomes|])) ==>
              AllWent(db, commands[..|outcomes| + 1], outcomes + [o])
  {
    hide After;
    hide Effect;
    hide Lawful;
    hide Goes;
    var n, before, cs, os := |outcomes|, commands[..|outcomes|], commands[..|outcomes| + 1], outcomes + [o];
    AfterOne(db, cs, os);
    forall k | 0 <= k <= n
      ensures cs[..k] == before[..k] && os[..k] == outcomes[..k]
    {
    }
    assert cs[..n] == before && os[..n] == outcomes && before[..n] == before && outcomes[..n] == outcomes;
    assert forall k :: 0 <= k < n ==> cs[k] == before[k] && os[k] == outcomes[k];
  }

  lemma AfterOne(db: Database, commands: seq<Command>, outcomes: seq<Outcome>)
    requires |commands| == |outcomes| > 0
    ensures var k := |commands| - 1;
            After(db, commands, outcomes) == Effect(After(db, commands[..k], outcomes[..k]), commands[k], outcomes[k])
  {
  }

  /** The tables of a catalog whose heaps have these pages. */
  ghost function ContentsOf(tables: Entries, homes: map<Name, Home>): Database {
    map n | n in tables && n in homes :: Content(tables[n].columns, Rows(homes[n].pages))
  }

  /** The tables `names` have the columns and pages they had. */
  ghost predicate Alike(tables: Entries, homes: map<Name, Home>, tables': Entries, homes': map<Name, Home>,
                        names: set<Name>) {
    forall n :: n in names ==>
      && n in tables && n in homes && n in tables' && n in homes'
      && tables'[n].columns == tables[n].columns && homes'[n].pages == homes[n].pages
  }

  lemma ContentsBut(tables: Entries, homes: map<Name, Home>, lost: set<Name>)
    ensures ContentsOf(tables - lost, homes - lost) == ContentsOf(tables, homes) - lost
  {
    hide Rows;
  }

  lemma SameContents(tables: Entries, homes: map<Name, Home>, homes': map<Name, Home>)
    requires homes.Keys == homes'.Keys && forall n :: n in homes ==> homes'[n].pages == homes[n].pages
    ensures ContentsOf(tables, homes') == ContentsOf(tables, homes)
  {
    hide Rows;
  }

  lemma AlikeIs(tables: Entries, homes: map<Name, Home>, tables': Entries, homes': map<Name, Home>, names: set<Name>)
    requires forall n :: n in names ==>
               && n in tables && n in homes && n in tables' && n in homes'
               && tables'[n].columns == tables[n].columns && homes'[n].pages == homes[n].pages
    ensures Alike(tables, homes, tables', homes', names)
  {
  }

  lemma GoesIs(tables: Entries, homes: map<Name, Home>, c: Command)
    requires tables.Keys == homes.Keys
    ensures Goes(ContentsOf(tables, homes), c) <==>
            match c
            case Create(name, columns) => name !in tables && |name| <= 128 && RowSize(name, columns) <= MAX_TUPLE
            case Drop(name) => name in tables
            case Put(name, t) => name in tables && |t| <= MAX_TUPLE
  {
    hide Rows;
  }

  lemma CreateSeen(tables: Entries, homes: map<Name, Home>, tables': Entries, homes': map<Name, Home>, c: Command, o: Outcome)
    requires tables.Keys == homes.Keys && tables'.Keys == homes'.Keys && c.Create? && !o.Stored?
    requires Alike(tables, homes, tables', homes', tables.Keys)
    requires o.Stayed? ==> tables'.Keys == tables.Keys
    requires o.Took? ==>
               && c.name !in tables && |c.name| <= 128 && RowSize(c.name, c.columns) <= MAX_TUPLE
               && tables'.Keys == tables.Keys + {c.name}
               && tables'[c.name].columns == c.columns && Rows(homes'[c.name].pages) == imap[]
    ensures Lawful(ContentsOf(tables, homes), c, o)
    ensures ContentsOf(tables', homes') - {} == Effect(ContentsOf(tables, homes), c, o)
  {
    hide Rows;
  }

  lemma DropSeen(tables: Entries, homes: map<Name, Home>, tables': Entries, homes': map<Name, Home>, c: Command, o: Outcome,
                 lost: set<Name>)
    requires tables.Keys == homes.Keys && tables'.Keys == homes'.Keys && c.Drop? && !o.Stored? && (o.Took? ==> c.name in tables)
    requires tables'.Keys - lost == if o.Took? then tables.Keys - {c.name} else tables.Keys
    requires Alike(tables, homes, tables', homes', if o.Took? then tables.Keys - {c.name} else tables.Keys)
    ensures Lawful(ContentsOf(tables, homes), c, o)
    ensures ContentsOf(tables', homes') - lost == Effect(ContentsOf(tables, homes), c, o)
  {
    hide Rows;
  }

  lemma PutSeen(tables: Entries, homes: map<Name, Home>, tables': Entries, homes': map<Name, Home>, c: Command, o: Outcome)
    requires tables.Keys == homes.Keys && tables' == tables && homes'.Keys == homes.Keys && c.Put? && !o.Took?
    requires Alike(tables, homes, tables', homes', tables.Keys - {c.name})
    requires o.Stored? ==>
               && c.name in tables && o.rid !in Rows(homes[c.name].pages) && |c.tuple| <= MAX_TUPLE
    requires c.name in tables ==>
               Rows(homes'[c.name].pages) ==
               if o.Stored? then Rows(homes[c.name].pages)[o.rid := c.tuple] else Rows(homes[c.name].pages)
    ensures Lawful(ContentsOf(tables, homes), c, o)
    ensures ContentsOf(tables', homes') - {} == Effect(ContentsOf(tables, homes), c, o)
  {
    hide Rows;
  }
}
