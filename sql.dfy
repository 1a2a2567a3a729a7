/**
 * The statement text of js/db.js: the value mapping shared by `dbInsert` and
 * `dbUpdate`, and the text of the INSERT, UPDATE, DELETE and CREATE TABLE
 * statements the application hands to SQLite. Nothing is escaped: strings
 * are wrapped in double quotes as they are, names are pasted in as given.
 * The parsers at the end read a statement back; they are the partner
 * definitions the builders are proved against.
 */
module Sql {
  import opened Results
  import opened Seqs
  import opened Numbers
  import opened Texts

  /** A JavaScript value of a row object, by its `typeof` (numbers are integers here). */
  datatype Value = Num(n: int) | Str(s: string) | Null | Undefined | Bool(b: bool) | Obj | Func

  /** What the mapping's `switch` leaves for a value it accepts. */
  datatype Literal = LNum(n: int) | LStr(s: string) | LNull | LBool(b: bool)

  /** A row object: its keys with their values, in `Object.keys` order. */
  type Row = seq<(string, Value)>

  /**
   * The `rowID` of UPDATE and DELETE as the handlers pass it: a number, the
   * text of a `data-id` attribute, or `null` (an unset `currentState` id).
   */
  datatype RowId = Id(n: int) | IdText(s: string) | NoId

  const ObjectError := "An object can't be inserted as a value"
  const FunctionError := "A function can't be inserted as a value"

  /** The mapping of one value (js/db.js:179-193): objects and functions throw. */
  function MapValue(v: Value): Result<Literal> {
    match v
    case Num(n) => Ok(LNum(n))
    case Str(s) => Ok(LStr(s))
    case Null => Ok(LNull)
    case Undefined => Ok(LNull)
    case Bool(b) => Ok(LBool(b))
    case Obj => Err(ObjectError)
    case Func => Err(FunctionError)
  }

  /** A value the mapping accepts. */
  predicate Insertable(v: Value) {
    !v.Obj? && !v.Func?
  }

  /**
   * `Object.values(data).map(...)`: every value mapped in order; the first
   * value the mapping refuses makes the whole call throw its error.
   */
  function MapValues(vs: seq<Value>): (r: Result<seq<Literal>>)
    ensures r.Ok? <==> forall i :: 0 <= i < |vs| ==> Insertable(vs[i])
    ensures r.Ok? ==> |r.value| == |vs| && forall i :: 0 <= i < |vs| ==> MapValue(vs[i]) == Ok(r.value[i])
    ensures r.Err? ==> exists i :: (0 <= i < |vs| && MapValue(vs[i]) == Err(r.message) &&
      forall j :: 0 <= j < i ==> Insertable(vs[j]))
  {
    if vs == [] then Ok([])
    else
      match MapValue(vs[0])
      case Err(e) => Err(e)
      case Ok(l) =>
        match MapValues(vs[1..])
        case Err(e) =>
          assert exists i :: (1 <= i < |vs| && MapValue(vs[i]) == Err(e) &&
            forall j :: 0 <= j < i ==> Insertable(vs[j])) by {
            var i :| 0 <= i < |vs[1..]| && MapValue(vs[1..][i]) == Err(e) &&
              forall j :: 0 <= j < i ==> Insertable(vs[1..][j]);
            assert MapValue(vs[i + 1]) == Err(e);
            forall j | 0 <= j < i + 1 ensures Insertable(vs[j]) {
              if j > 0 { assert vs[j] == vs[1..][j - 1]; }
            }
          }
          Err(e)
        case Ok(ls) =>
          assert forall i :: 1 <= i < |vs| ==> vs[i] == vs[1..][i - 1];
          Ok([l] + ls)
  }

  /** A literal in a template string, `${value}`: null is the word `null`. */
  function TemplateText(l: Literal): string {
    match l
    case LNum(n) => NumberToString(n)
    case LStr(s) => "\"" + s + "\""
    case LNull => "null"
    case LBool(b) => if b then "true" else "false"
  }

  /** A literal as an element of `Array.prototype.join`: null is empty text. */
  function JoinText(l: Literal): string {
    if l.LNull? then "" else TemplateText(l)
  }

  function JoinTexts(ls: seq<Literal>): seq<string> {
    seq(|ls|, i requires 0 <= i < |ls| => JoinText(ls[i]))
  }

  function Keys(data: Row): seq<string> {
    seq(|data|, i requires 0 <= i < |data| => data[i].0)
  }

  function Values(data: Row): seq<Value> {
    seq(|data|, i requires 0 <= i < |data| => data[i].1)
  }

  /** `${rowID}`. */
  function RowIdText(id: RowId): string {
    match id
    case Id(n) => NumberToString(n)
    case IdText(s) => s
    case NoId => "null"
  }

  /** The query text of `dbInsert` (js/db.js:178-194), or the mapping's error. */
  function InsertText(table: string, data: Row): Result<string> {
    match MapValues(Values(data))
    case Err(e) => Err(e)
    case Ok(ls) =>
      Ok("INSERT INTO " + table + "(" + Join(Keys(data), ',') + ") VALUES(" + Join(JoinTexts(ls), ',') + ");")
  }

  /** The `key = value` parts of an UPDATE (js/db.js:220). */
  function Assignments(keys: seq<string>, ls: seq<Literal>): seq<string>
    requires |keys| == |ls|
  {
    seq(|ls|, i requires 0 <= i < |ls| => keys[i] + " = " + TemplateText(ls[i]))
  }

  /** The query text of `dbUpdate` (js/db.js:205-222), or the mapping's error. */
  function UpdateText(table: string, rowID: RowId, data: Row): Result<string> {
    match MapValues(Values(data))
    case Err(e) => Err(e)
    case Ok(ls) =>
      Ok("UPDATE " + table + " SET " + Join(Assignments(Keys(data), ls), ',') + " WHERE id = " + RowIdText(rowID) + ";")
  }

  /** The query text of `dbDelete` (js/db.js:233-234). */
  function DeleteText(table: string, rowID: RowId): string {
    "DELETE FROM " + table + " WHERE id = " + RowIdText(rowID) + ";"
  }

  const IdColumn := "(\n    id INTEGER NOT NULL PRIMARY KEY AUTOINCREMENT,\n    "

  /** The query text of `dbTableCreate` (js/db.js:67-75): an id column, then `key type` per field. */
  function CreateTableText(table: string, fields: seq<(string, string)>): string {
    var columns := seq(|fields|, i requires 0 <= i < |fields| => fields[i].0 + " " + fields[i].1);
    "CREATE TABLE " + table + " " + IdColumn + Join(columns, ',') + "\n  );"
  }

  /** The type of a field that refers to the `id` of the table parent. */
  function ForeignKey(column: string, parent: string): string {
    "INTEGER, " + Reference(column, parent)
  }

  function Reference(column: string, parent: string): string {
    "FOREIGN KEY (" + column + ") REFERENCES " + parent + "(id)"
  }

  /** The tables the database is created with, each with its fields in order. */
  const Schema: seq<(string, seq<(string, string)>)> := [
    ("Folders", [("name", "TEXT")]),
    ("Categories", [("name", "TEXT"), ("folderID", ForeignKey("folderID", "Folders"))]),
    ("Topics", [("name", "TEXT"), ("categoryID", ForeignKey("categoryID", "Categories"))]),
    ("Articles", [("content", "TEXT"), ("topicId", ForeignKey("topicId", "Topics"))]),
    ("Embeds", [("content", "BLOB"), ("articleID", ForeignKey("articleID", "Articles"))])
  ]

  // --------------------------------------------------------------- reading back

  /** A statement as a reader of its text sees it. */
  datatype Statement =
    | InsertInto(table: string, columns: seq<string>, values: seq<Literal>)
    | UpdateSet(table: string, sets: seq<(string, Literal)>, rowID: string)
    | DeleteFrom(table: string, rowID: string)
    | CreateTable(table: string, fields: seq<(string, string)>)

  /** A literal read back: empty text and `null` are null, quoted text a string, exact decimals a number. */
  function ParseLiteral(s: string): Option<Literal> {
    if s == "" || s == "null" then Some(LNull)
    else if s == "true" then Some(LBool(true))
    else if s == "false" then Some(LBool(false))
    else if |s| >= 2 && s[0] == '"' && s[|s| - 1] == '"' then Some(LStr(s[1..|s| - 1]))
    else
      match ParseInt(s, 10)
      case Some(n) => if NumberToString(n) == s then Some(LNum(n)) else None
      case None => None
  }

  function ParseLiterals(parts: seq<string>): Option<seq<Literal>> {
    if parts == [] then Some([])
    else
      match (ParseLiteral(parts[0]), ParseLiterals(parts[1..]))
      case (Some(l), Some(ls)) => Some([l] + ls)
      case _ => None
  }

  /** Reads `INSERT INTO T(k1,...) VALUES(v1,...);`. */
  function ParseInsert(q: string): Option<Statement> {
    match Expect(q, "INSERT INTO ")
    case None => None
    case Some(r1) =>
      match Upto(r1, '(')
      case None => None
      case Some((table, r2)) =>
        match Upto(r2, ')')
        case None => None
        case Some((cols, r3)) =>
          match Expect(r3, " VALUES(")
          case None => None
          case Some(r4) =>
            match DropSuffix(r4, ");")
            case None => None
            case Some(vals) =>
              match ParseLiterals(Split(vals, ','))
              case None => None
              case Some(ls) => Some(InsertInto(table, Split(cols, ','), ls))
  }

  /** Reads one `key = value` part. */
  function ParseAssignment(a: string): Option<(string, Literal)> {
    match Upto(a, ' ')
    case None => None
    case Some((key, rest)) =>
      match Expect(rest, "= ")
      case None => None
      case Some(v) =>
        match ParseLiteral(v)
        case None => None
        case Some(l) => Some((key, l))
  }

  function ParseAssignments(parts: seq<string>): Option<seq<(string, Literal)>> {
    if parts == [] then Some([])
    else
      match (ParseAssignment(parts[0]), ParseAssignments(parts[1..]))
      case (Some(a), Some(rest)) => Some([a] + rest)
      case _ => None
  }

  /** Reads `UPDATE T SET k1 = v1,... WHERE id = X;`, taking X after the last space. */
  function ParseUpdate(q: string): Option<Statement> {
    match Expect(q, "UPDATE ")
    case None => None
    case Some(r1) =>
      match Upto(r1, ' ')
      case None => None
      case Some((table, r2)) =>
        match Expect(r2, "SET ")
        case None => None
        case Some(r3) =>
          match DropSuffix(r3, ";")
          case None => None
          case Some(body) =>
            match UptoLast(body, ' ')
            case None => None
            case Some((before, id)) =>
              match DropSuffix(before, " WHERE id =")
              case None => None
              case Some(list) =>
                match ParseAssignments(Split(list, ','))
                case None => None
                case Some(sets) => Some(UpdateSet(table, sets, id))
  }

  /** Reads `DELETE FROM T WHERE id = X;`. */
  function ParseDelete(q: string): Option<Statement> {
    match Expect(q, "DELETE FROM ")
    case None => None
    case Some(r1) =>
      match Upto(r1, ' ')
      case None => None
      case Some((table, r2)) =>
        match Expect(r2, "WHERE id = ")
        case None => None
        case Some(r3) =>
          match DropSuffix(r3, ";")
          case None => None
          case Some(id) => Some(DeleteFrom(table, id))
  }

  /** Reads one `key type` column. */
  function ParseColumns(parts: seq<string>): Option<seq<(string, string)>> {
    if parts == [] then Some([])
    else
      match (Upto(parts[0], ' '), ParseColumns(parts[1..]))
      case (Some(c), Some(rest)) => Some([c] + rest)
      case _ => None
  }

  /** Reads `CREATE TABLE T (` + the id column + `k1 t1,...` + `);`. */
  function ParseCreateTable(q: string): Option<Statement> {
    match Expect(q, "CREATE TABLE ")
    case None => None
    case Some(r1) =>
      match Upto(r1, ' ')
      case None => None
      case Some((table, r2)) =>
        match Expect(r2, IdColumn)
        case None => None
        case Some(r3) =>
          match DropSuffix(r3, "\n  );")
          case None => None
          case Some(cols) =>
            match ParseColumns(Split(cols, ','))
            case None => None
            case Some(cs) => Some(CreateTable(table, cs))
  }
}
