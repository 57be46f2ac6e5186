/** The two writing methods of the `DB` class (yio.py): `insert_org_basic`,
    which adds one organisation's basic details to the `organizations`
    table unless it is already there, and `add_raw_columns`, which makes
    sure the `organizations_raw` table has a column for every section name.
    The SQLite database is modelled by the state those methods touch: the
    columns of `organizations_raw` and the rows of `organizations`. */
module Store {
  import opened Wrappers
  import opened Strings
  import opened Dicts

  /** A column of `organizations_raw`: its name and its declared type. */
  datatype Column = Column(name: string, kind: string)

  /** The column the table is created with (yio.py:183-188). */
  const FkOrg := Column("fk_org", "integer")

  /** A row of `organizations`: a value, or NULL, per column named. */
  type Row = map<string, Option<string>>

  function NameSet(cols: seq<Column>): set<string>
  {
    set c | c in cols :: c.name
  }

  predicate DistinctNames(cols: seq<Column>)
  {
    forall i, j :: 0 <= i < j < |cols| ==> cols[i].name != cols[j].name
  }

  /** Columns added by `ALTER TABLE ... ADD COLUMN <name> text`, in order. */
  function TextColumns(names: seq<string>): (cols: seq<Column>)
    ensures |cols| == |names|
    ensures forall i :: 0 <= i < |names| ==> cols[i] == Column(names[i], "text")
  {
    seq(|names|, i requires 0 <= i < |names| => Column(names[i], "text"))
  }

  /** The named placeholder of each key: `":" + key`. */
  function Placeholders(keys: seq<string>): (ps: seq<string>)
    ensures |ps| == |keys|
    ensures forall i :: 0 <= i < |keys| ==> ps[i] == ":" + keys[i]
  {
    seq(|keys|, i requires 0 <= i < |keys| => ":" + keys[i])
  }

  const InsertHead: string := "INSERT OR IGNORE INTO organizations ("
  const ValuesWord: string := ") VALUES ("

  /** The statement `insert_org_basic` builds from the record's keys. Read
      back, it names the record's keys as its columns, in order, and the
      placeholder of each key at the same place, whenever no key holds a
      comma or a closing parenthesis. */
  function InsertStatement(keys: seq<string>): (stmt: string)
    ensures |keys| > 0 && (forall i :: 0 <= i < |keys| ==> ',' !in keys[i] && ')' !in keys[i]) ==>
              ParseInsert(stmt) == Some((keys, Placeholders(keys)))
  {
    var cols, phs := Join(keys, ", "), Join(Placeholders(keys), ", ");
    var stmt := InsertHead + cols + ValuesWord + phs + ")";
    if |keys| > 0 && (forall i :: 0 <= i < |keys| ==> ',' !in keys[i] && ')' !in keys[i]) then
      InsertListsAlign(keys);
      JoinAvoids(keys, ", ", ')');
      ParseInsertLists(cols, phs);
      stmt
    else stmt
  }

  /** Reads the column list and the placeholder list back out of an
      `INSERT OR IGNORE INTO organizations (...) VALUES (...)` statement. */
  function ParseInsert(stmt: string): Option<(seq<string>, seq<string>)>
  {
    if |stmt| < |InsertHead| || stmt[..|InsertHead|] != InsertHead then None
    else
      var rest := stmt[|InsertHead|..];
      var i := IndexOf(rest, ')');
      if i + |ValuesWord| < |rest| && rest[i..i + |ValuesWord|] == ValuesWord && rest[|rest| - 1] == ')'
      then Some((SplitList(rest[..i]), SplitList(rest[i + |ValuesWord|..|rest| - 1])))
      else None
  }

  /** The column list and the placeholder list of the statement line up:
      read back as comma-separated lists, the first is the record's keys in
      order and the second names each of those keys at the same place. */
  lemma InsertListsAlign(keys: seq<string>)
    requires |keys| > 0
    requires forall i :: 0 <= i < |keys| ==> ',' !in keys[i]
    ensures SplitList(Join(keys, ", ")) == keys
    ensures SplitList(Join(Placeholders(keys), ", ")) == Placeholders(keys)
  {
    SplitJoin(keys);
    var ps := Placeholders(keys);
    forall i | 0 <= i < |ps|
      ensures ',' !in ps[i]
    {
      assert ps[i] == [':'] + keys[i];
    }
    SplitJoin(ps);
  }

  /** The statement's two lists are found again when the column list
      holds no closing parenthesis. */
  lemma ParseInsertLists(cols: string, phs: string)
    requires ')' !in cols
    ensures ParseInsert(InsertHead + cols + ValuesWord + phs + ")") == Some((SplitList(cols), SplitList(phs)))
  {
    var rest := cols + ValuesWord + phs + ")";
    var stmt := InsertHead + cols + ValuesWord + phs + ")";
    assert stmt == InsertHead + rest;
    assert stmt[..|InsertHead|] == InsertHead;
    assert stmt[|InsertHead|..] == rest;
    assert rest == cols + (ValuesWord + phs + ")");
    IndexOfConcat(cols, ValuesWord + phs + ")", ')');
    assert rest[..|cols|] == cols;
    assert rest[|cols|..|cols| + |ValuesWord|] == ValuesWord;
    assert rest[|cols| + |ValuesWord|..|rest| - 1] == phs;
  }

  /** The value a row holds in column `key`; a column left out is NULL. */
  function KeyOf(key: string, row: Row): Option<string>
  {
    if key in row then row[key] else None
  }

  /** The uniqueness the conflict column gives the table: no two rows share
      a value in it (NULLs never clash with each other). */
  predicate UniqueKeys(key: string, rows: seq<Row>)
  {
    forall i, j :: 0 <= i < j < |rows| && KeyOf(key, rows[i]).Some? ==> KeyOf(key, rows[i]) != KeyOf(key, rows[j])
  }

  /** `INSERT OR IGNORE` ignores the row exactly when a stored row already
      has its non-NULL value in the conflict column. */
  predicate Conflicts(key: string, rows: seq<Row>, row: Row)
  {
    KeyOf(key, row).Some? && exists i :: 0 <= i < |rows| && KeyOf(key, rows[i]) == KeyOf(key, row)
  }

  /** The table after `INSERT OR IGNORE` of `row`: the stored rows stay as
      they were, and at most the new row is added after them. */
  function Insert(key: string, rows: seq<Row>, row: Row): (r: seq<Row>)
    ensures rows <= r && |r| <= |rows| + 1
    ensures |r| > |rows| ==> r[|rows|] == row
  {
    if Conflicts(key, rows, row) then rows else rows + [row]
  }

  /** Inserting keeps the conflict column unique, and the row is in the
      table afterwards: newly added, or already present under its key. */
  lemma InsertKeepsUnique(key: string, rows: seq<Row>, row: Row)
    requires UniqueKeys(key, rows)
    ensures UniqueKeys(key, Insert(key, rows, row))
    ensures KeyOf(key, row).Some? ==>
              exists i :: 0 <= i < |Insert(key, rows, row)| && KeyOf(key, Insert(key, rows, row)[i]) == KeyOf(key, row)
  {
    var r := Insert(key, rows, row);
    if !Conflicts(key, rows, row) {
      assert r[|rows|] == row;
      forall i, j | 0 <= i < j < |r| && KeyOf(key, r[i]).Some?
        ensures KeyOf(key, r[i]) != KeyOf(key, r[j])
      {
        if j == |rows| {
          assert r[i] == rows[i];
        }
      }
    }
  }

  /** Inserting the same record twice stores it once: the second insert is
      ignored whenever the record has a value in the conflict column. */
  lemma InsertTwice(key: string, rows: seq<Row>, row: Row)
    requires KeyOf(key, row).Some?
    ensures Insert(key, Insert(key, rows, row), row) == Insert(key, rows, row)
  {
    var r := Insert(key, rows, row);
    if !Conflicts(key, rows, row) {
      assert r[|rows|] == row;
    }
  }

  /** `str.format` of a value: `None` is written as `None`. */
  function Show(v: Option<string>): string
  {
    if v.Some? then v.value else "None"
  }

  /** The log lines of yio.py:155-162: each opens with its verb and then
      names the organisation. */
  function InsertedMessage(row: Row): (m: string)
    requires "org_name" in row && "org_url_id" in row
    ensures |m| > 9 + |Show(row["org_name"])| && m[..9] == "Inserted "
    ensures m[9..9 + |Show(row["org_name"])|] == Show(row["org_name"])
  {
    "Inserted " + Show(row["org_name"]) + " (" + Show(row["org_url_id"]) + ") into database."
  }

  function SkippedMessage(row: Row): (m: string)
    requires "org_name" in row && "org_url_id" in row
    ensures |m| > 9 + |Show(row["org_name"])| && m[..9] == "Skipping "
    ensures m[9..9 + |Show(row["org_name"])|] == Show(row["org_name"])
  {
    "Skipping " + Show(row["org_name"]) + " (" + Show(row["org_url_id"]) + "). Already in database."
  }

  /** The two tables `DB` writes to. `keyColumn` is the column whose
      uniqueness constraint makes `INSERT OR IGNORE` skip a record; the
      schema that declares it is not part of this model. */
  class Db {
    const keyColumn: string
    var rawColumns: seq<Column>
    var organizations: seq<Row>

    predicate Valid()
      reads this
    {
      DistinctNames(rawColumns) && UniqueKeys(keyColumn, organizations)
    }

    /** A freshly created database: `organizations_raw` does not exist yet
        and `organizations` is empty. */
    constructor(keyColumn: string)
      ensures Valid()
      ensures this.keyColumn == keyColumn && rawColumns == [] && organizations == []
    {
      this.keyColumn := keyColumn;
      rawColumns := [];
      organizations := [];
    }

    /** `insert_org_basic` (yio.py:147-164): insert the record, with its
        keys as the column list and a named placeholder per key, unless its
        key is already stored; report which happened. */
    method InsertOrgBasic(orgDetails: Dict<Option<string>>) returns (statement: string, inserted: bool, message: string)
      requires Valid() && orgDetails.Valid()
      requires "org_name" in orgDetails.vals && "org_url_id" in orgDetails.vals
      modifies this
      ensures Valid()
      ensures statement == InsertStatement(orgDetails.keys)
      ensures inserted <==> !Conflicts(keyColumn, old(organizations), orgDetails.vals)
      ensures organizations == Insert(keyColumn, old(organizations), orgDetails.vals)
      ensures message == if inserted then InsertedMessage(orgDetails.vals) else SkippedMessage(orgDetails.vals)
      ensures rawColumns == old(rawColumns)
    {
      statement := "INSERT OR IGNORE INTO organizations (" + Join(orgDetails.keys, ", ") +
                   ") VALUES (" + Join(Placeholders(orgDetails.keys), ", ") + ")";
      InsertKeepsUnique(keyColumn, organizations, orgDetails.vals);
      var rowcount := if Conflicts(keyColumn, organizations, orgDetails.vals) then 0 else 1;
      organizations := Insert(keyColumn, organizations, orgDetails.vals);
      inserted := rowcount == 1;
      if inserted {
        message := InsertedMessage(orgDetails.vals);
      } else {
        message := SkippedMessage(orgDetails.vals);
      }
    }

    /** `add_raw_columns` (yio.py:170-207): create `organizations_raw` with
        its `fk_org` column when it has no columns, then add a `text` column
        for every requested name it lacks, each once, in the set's order. */
    method AddRawColumns(colnames: seq<string>) returns (added: seq<string>)
      requires Valid()
      modifies this
      ensures Valid()
      ensures var base := if old(rawColumns) == [] then [FkOrg] else old(rawColumns);
        && rawColumns == base + TextColumns(added)
        && (forall i, j :: 0 <= i < j < |added| ==> added[i] != added[j])
        && (set c | c in added) == (set c | c in colnames) - NameSet(base)
      ensures old(rawColumns) != [] && (forall c :: c in colnames ==> c in NameSet(old(rawColumns))) ==>
                added == [] && rawColumns == old(rawColumns)
      ensures organizations == old(organizations)
    {
      if rawColumns == [] {
        rawColumns := [FkOrg];
      }
      var base := rawColumns;
      var newCols := (set c | c in colnames) - NameSet(base);
      added := SetOrder(newCols);
      for k := 0 to |added|
        invariant rawColumns == base + TextColumns(added[..k])
        invariant organizations == old(organizations)
      {
        assert added[..k + 1] == added[..k] + [added[k]];
        rawColumns := rawColumns + [Column(added[k], "text")];
      }
      assert added[..|added|] == added;
      AppendKeepsDistinct(base, added);
    }
  }

  /** The order in which `for col in new_cols` visits a set: every member
      once, in an order this model does not fix. */
  method SetOrder(s: set<string>) returns (order: seq<string>)
    ensures (set c | c in order) == s && |order| == |s|
    ensures forall i, j :: 0 <= i < j < |order| ==> order[i] != order[j]
  {
    order := [];
    var pending := s;
    while pending != {}
      invariant pending <= s
      invariant (set c | c in order) == s - pending
      invariant |order| + |pending| == |s|
      invariant forall i, j :: 0 <= i < j < |order| ==> order[i] != order[j]
      decreases pending
    {
      var c :| c in pending;
      assert (set x | x in order + [c]) == (set x | x in order) + {c};
      order := order + [c];
      pending := pending - {c};
    }
  }

  /** Appending text columns with distinct new names keeps names distinct. */
  lemma AppendKeepsDistinct(base: seq<Column>, names: seq<string>)
    requires DistinctNames(base)
    requires forall i, j :: 0 <= i < j < |names| ==> names[i] != names[j]
    requires forall i :: 0 <= i < |names| ==> names[i] !in NameSet(base)
    ensures DistinctNames(base + TextColumns(names))
  {
    var cols := base + TextColumns(names);
    forall i, j | 0 <= i < j < |cols|
      ensures cols[i].name != cols[j].name
    {
      if i < |base| && j >= |base| {
        assert cols[i] in base;
      }
    }
  }
}
