/**
 * What the statement builders of js/db.js promise: the statement text reads
 * back as the table, the keys in order and the mapped values, as long as no
 * name or string holds one of the characters the text is built around; and,
 * because nothing is escaped, a string that does hold them can make two
 * different rows give the same text.
 */
module SqlLaws {
  import opened Results
  import opened Seqs
  import opened Numbers
  import opened Texts
  import opened Sql

  // ------------------------------------------------------------ literals

  /** The characters of a decimal number: digits and the minus sign. */
  predicate DecimalChar(c: char) {
    '0' <= c <= '9' || c == '-'
  }

  lemma DigitsAreDecimal(s: string)
    requires AllDigits(s, 10)
    ensures forall i :: 0 <= i < |s| ==> '0' <= s[i] <= '9'
  {
    forall i | 0 <= i < |s| ensures '0' <= s[i] <= '9' {
      assert IsDigit(s[i], 10);
    }
  }

  /** `String(n)` is nonempty and made of digits and at most a leading minus sign. */
  lemma NumberTextChars(n: int)
    ensures |NumberToString(n)| > 0
    ensures forall i :: 0 <= i < |NumberToString(n)| ==> DecimalChar(NumberToString(n)[i])
    ensures '0' <= NumberToString(n)[|NumberToString(n)| - 1] <= '9'
  {
    var m := if n < 0 then -n else n;
    var d := ToRadixString(m, 10);
    DigitsAreDecimal(d);
    if n < 0 {
      var s := "-" + d;
      forall i | 0 <= i < |s| ensures DecimalChar(s[i]) {
        if i > 0 { assert s[i] == d[i - 1]; }
      }
    }
  }

  /** A literal written in a template string reads back as itself. */
  lemma ParseTemplateText(l: Literal)
    ensures ParseLiteral(TemplateText(l)) == Some(l)
  {
    match l
    case LNum(n) =>
      var s := NumberToString(n);
      NumberTextChars(n);
      ParseNumberToString(n);
      assert s != "null" && s != "true" && s != "false" by {
        assert DecimalChar(s[0]);
      }
      assert s[0] != '"' by {
        assert DecimalChar(s[0]);
      }
    case LStr(x) =>
      var s := "\"" + x + "\"";
      assert s[0] == '"' && s[|s| - 1] == '"' && s[1..|s| - 1] == x;
    case LNull =>
    case LBool(b) =>
  }

  /** A literal written as an element of a join reads back as itself. */
  lemma ParseJoinText(l: Literal)
    ensures ParseLiteral(JoinText(l)) == Some(l)
  {
    if !l.LNull? {
      ParseTemplateText(l);
    }
  }

  lemma {:induction false} ParseJoinTexts(ls: seq<Literal>)
    ensures ParseLiterals(JoinTexts(ls)) == Some(ls)
  {
    if ls != [] {
      ParseJoinText(ls[0]);
      assert JoinTexts(ls)[1..] == JoinTexts(ls[1..]);
      ParseJoinTexts(ls[1..]);
      assert ls == [ls[0]] + ls[1..];
    }
  }

  /** True when no string value of the row holds c. */
  predicate StringsAvoid(vs: seq<Value>, c: char) {
    forall i :: 0 <= i < |vs| ==> (vs[i].Str? ==> c !in vs[i].s)
  }

  /** The text of a literal holds c only if it is a string literal holding c. */
  lemma TemplateTextAvoids(l: Literal, c: char)
    requires c != '"' && !DecimalChar(c) && !('a' <= c <= 'z')
    requires l.LStr? ==> c !in l.s
    ensures c !in TemplateText(l) && c !in JoinText(l)
  {
    match l
    case LNum(n) =>
      NumberTextChars(n);
    case LStr(x) =>
      assert "\"" + x + "\"" == ['"'] + x + ['"'];
    case LNull =>
    case LBool(b) =>
  }

  /** The mapped literals keep the strings of the values. */
  lemma MappedStrings(vs: seq<Value>, c: char, i: int)
    requires MapValues(vs).Ok? && StringsAvoid(vs, c) && 0 <= i < |vs|
    ensures MapValues(vs).value[i].LStr? ==> c !in MapValues(vs).value[i].s
  {
    var l := MapValues(vs).value[i];
    assert MapValue(vs[i]) == Ok(l);
    if l.LStr? {
      assert vs[i] == Str(l.s);
    }
  }

  /** No element of a join holds the separator when the strings avoid it. */
  lemma JoinTextsAvoid(vs: seq<Value>, c: char)
    requires MapValues(vs).Ok? && StringsAvoid(vs, c)
    requires c != '"' && !DecimalChar(c) && !('a' <= c <= 'z')
    ensures NoSeparator(JoinTexts(MapValues(vs).value), c)
  {
    var ls := MapValues(vs).value;
    forall i | 0 <= i < |ls| ensures c !in JoinTexts(ls)[i] {
      MappedStrings(vs, c, i);
      TemplateTextAvoids(ls[i], c);
    }
  }

  /** A character that is in no part and is not the separator is not in the join. */
  lemma {:induction false} JoinAvoids(parts: seq<string>, sep: char, c: char)
    requires c != sep && NoSeparator(parts, c)
    ensures c !in Join(parts, sep)
    decreases |parts|
  {
    if |parts| > 1 {
      assert NoSeparator(parts[1..], c) by {
        forall i | 0 <= i < |parts[1..]| ensures c !in parts[1..][i] {
          assert parts[1..][i] == parts[i + 1];
        }
      }
      JoinAvoids(parts[1..], sep, c);
      assert c !in parts[0];
    }
  }

  // ------------------------------------------------------------ INSERT

  /** The names of an INSERT that its text can be read back by: no `(` in the table, no `,` or `)` in a key. */
  predicate InsertNames(table: string, data: Row) {
    '(' !in table && NoSeparator(Keys(data), ',') && NoSeparator(Keys(data), ')')
  }

  /**
   * The INSERT text reads back as the table, the keys in order and the mapped
   * values, nulls included (they are the empty elements of the value list).
   */
  lemma InsertRoundTrip(table: string, data: Row)
    requires |data| > 0 && InsertNames(table, data)
    requires MapValues(Values(data)).Ok? && StringsAvoid(Values(data), ',')
    ensures InsertText(table, data).Ok?
    ensures ParseInsert(InsertText(table, data).value) ==
      Some(InsertInto(table, Keys(data), MapValues(Values(data)).value))
  {
    var ls := MapValues(Values(data)).value;
    var k, v := Join(Keys(data), ','), Join(JoinTexts(ls), ',');
    assert InsertText(table, data).value == "INSERT INTO " + table + "(" + k + ") VALUES(" + v + ");";
    assert ParseLiterals(Split(v, ',')) == Some(ls) by {
      JoinTextsAvoid(Values(data), ',');
      SplitJoin(JoinTexts(ls), ',');
      ParseJoinTexts(ls);
    }
    assert Split(k, ',') == Keys(data) by { SplitJoin(Keys(data), ','); }
    JoinAvoids(Keys(data), ',', ')');
    ParseInsertText(table, k, v);
  }

  /** The INSERT reader takes the table up to the first `(` and the columns up to the next `)`. */
  lemma ParseInsertText(table: string, k: string, v: string)
    requires '(' !in table && ')' !in k
    ensures ParseInsert("INSERT INTO " + table + "(" + k + ") VALUES(" + v + ");") ==
      match ParseLiterals(Split(v, ','))
      case None => None
      case Some(ls) => Some(InsertInto(table, Split(k, ','), ls))
  {
    InsertShape(table, k, v);
    ParseInsertParts(table, k, v);
  }

  lemma InsertShape(table: string, k: string, v: string)
    ensures "INSERT INTO " + table + "(" + k + ") VALUES(" + v + ");" ==
      "INSERT INTO " + (table + ['('] + (k + [')'] + (" VALUES(" + (v + ");"))))
  {
  }

  lemma ParseInsertParts(table: string, k: string, v: string)
    requires '(' !in table && ')' !in k
    ensures ParseInsert("INSERT INTO " + (table + ['('] + (k + [')'] + (" VALUES(" + (v + ");"))))) ==
      match ParseLiterals(Split(v, ','))
      case None => None
      case Some(ls) => Some(InsertInto(table, Split(k, ','), ls))
  {
    var r3 := " VALUES(" + (v + ");");
    var r2 := k + [')'] + r3;
    var r1 := table + ['('] + r2;
    assert Expect("INSERT INTO " + r1, "INSERT INTO ") == Some(r1) by { ExpectAppend("INSERT INTO ", r1); }
    assert Upto(r1, '(') == Some((table, r2)) by { UptoAppend(table, '(', r2); }
    assert Upto(r2, ')') == Some((k, r3)) by { UptoAppend(k, ')', r3); }
    assert Expect(r3, " VALUES(") == Some(v + ");") by { ExpectAppend(" VALUES(", v + ");"); }
    assert DropSuffix(v + ");", ");") == Some(v) by { DropSuffixAppend(v, ");"); }
  }

  // ------------------------------------------------------------ UPDATE

  /** The keys paired with their mapped values. */
  function Zip(keys: seq<string>, ls: seq<Literal>): seq<(string, Literal)>
    requires |keys| == |ls|
  {
    seq(|ls|, i requires 0 <= i < |ls| => (keys[i], ls[i]))
  }

  /** The names of an UPDATE that its text can be read back by: no space in the table, the keys or the id. */
  predicate UpdateNames(table: string, rowID: RowId, data: Row) {
    ' ' !in table && ' ' !in RowIdText(rowID) && NoSeparator(Keys(data), ',') && NoSeparator(Keys(data), ' ')
  }

  lemma ParseOneAssignment(key: string, l: Literal)
    requires ' ' !in key
    ensures ParseAssignment(key + " = " + TemplateText(l)) == Some((key, l))
  {
    var t := TemplateText(l);
    assert key + " = " + t == key + [' '] + ("= " + t);
    UptoAppend(key, ' ', "= " + t);
    ExpectAppend("= ", t);
    ParseTemplateText(l);
  }

  lemma {:induction false} ParseAllAssignments(keys: seq<string>, ls: seq<Literal>)
    requires |keys| == |ls| && NoSeparator(keys, ' ')
    ensures ParseAssignments(Assignments(keys, ls)) == Some(Zip(keys, ls))
    decreases |ls|
  {
    if ls != [] {
      AssignmentsCons(keys, ls);
      ParseOneAssignment(keys[0], ls[0]);
      ParseAllAssignments(keys[1..], ls[1..]);
      assert Assignments(keys, ls) != [];
    } else {
      assert Assignments(keys, ls) == [] && Zip(keys, ls) == [];
    }
  }

  /** The first assignment and the assignments of the remaining keys. */
  lemma AssignmentsCons(keys: seq<string>, ls: seq<Literal>)
    requires |keys| == |ls| > 0 && NoSeparator(keys, ' ')
    ensures ' ' !in keys[0] && NoSeparator(keys[1..], ' ')
    ensures Assignments(keys, ls)[0] == keys[0] + " = " + TemplateText(ls[0])
    ensures Assignments(keys, ls)[1..] == Assignments(keys[1..], ls[1..])
    ensures Zip(keys, ls) == [(keys[0], ls[0])] + Zip(keys[1..], ls[1..])
  {
    forall i | 0 <= i < |keys[1..]| ensures ' ' !in keys[1..][i] {
      assert keys[1..][i] == keys[i + 1];
    }
  }


  lemma AssignmentsAvoidComma(data: Row)
    requires MapValues(Values(data)).Ok? && StringsAvoid(Values(data), ',') && NoSeparator(Keys(data), ',')
    ensures NoSeparator(Assignments(Keys(data), MapValues(Values(data)).value), ',')
  {
    var ls := MapValues(Values(data)).value;
    var a := Assignments(Keys(data), ls);
    forall i | 0 <= i < |a| ensures ',' !in a[i] {
      MappedStrings(Values(data), ',', i);
      TemplateTextAvoids(ls[i], ',');
      assert ',' !in Keys(data)[i];
      assert a[i] == Keys(data)[i] + " = " + TemplateText(ls[i]);
    }
  }

  /**
   * The UPDATE text reads back as the table, each key with its mapped value in
   * key order (null as the word `null`) and the row id.
   */
  lemma UpdateRoundTrip(table: string, rowID: RowId, data: Row)
    requires |data| > 0 && UpdateNames(table, rowID, data)
    requires MapValues(Values(data)).Ok? && StringsAvoid(Values(data), ',')
    ensures UpdateText(table, rowID, data).Ok?
    ensures ParseUpdate(UpdateText(table, rowID, data).value) ==
      Some(UpdateSet(table, Zip(Keys(data), MapValues(Values(data)).value), RowIdText(rowID)))
  {
    var ls := MapValues(Values(data)).value;
    var a := Join(Assignments(Keys(data), ls), ',');
    ParseUpdateText(table, a, RowIdText(rowID));
    AssignmentsAvoidComma(data);
    SplitJoin(Assignments(Keys(data), ls), ',');
    ParseAllAssignments(Keys(data), ls);
  }

  /** The UPDATE reader takes the table up to the first space and the id after the last one. */
  lemma ParseUpdateText(table: string, a: string, x: string)
    requires ' ' !in table && ' ' !in x
    ensures ParseUpdate("UPDATE " + table + " SET " + a + " WHERE id = " + x + ";") ==
      match ParseAssignments(Split(a, ','))
      case None => None
      case Some(sets) => Some(UpdateSet(table, sets, x))
  {
    UpdateShape(table, a, x);
    ParseUpdateParts(table, a, x);
  }

  lemma UpdateShape(table: string, a: string, x: string)
    ensures "UPDATE " + table + " SET " + a + " WHERE id = " + x + ";" ==
      "UPDATE " + (table + [' '] + ("SET " + (a + " WHERE id =" + [' '] + x + ";")))
  {
  }

  lemma ParseUpdateParts(table: string, a: string, x: string)
    requires ' ' !in table && ' ' !in x
    ensures ParseUpdate("UPDATE " + (table + [' '] + ("SET " + (a + " WHERE id =" + [' '] + x + ";")))) ==
      match ParseAssignments(Split(a, ','))
      case None => None
      case Some(sets) => Some(UpdateSet(table, sets, x))
  {
    var before := a + " WHERE id =";
    var body := before + [' '] + x;
    var r2 := "SET " + (body + ";");
    var r1 := table + [' '] + r2;
    assert Expect("UPDATE " + r1, "UPDATE ") == Some(r1) by { ExpectAppend("UPDATE ", r1); }
    assert Upto(r1, ' ') == Some((table, r2)) by { UptoAppend(table, ' ', r2); }
    assert Expect(r2, "SET ") == Some(body + ";") by { ExpectAppend("SET ", body + ";"); }
    assert DropSuffix(body + ";", ";") == Some(body) by { DropSuffixAppend(body, ";"); }
    assert UptoLast(body, ' ') == Some((before, x)) by { UptoLastAppend(before, ' ', x); }
    assert DropSuffix(before, " WHERE id =") == Some(a) by { DropSuffixAppend(a, " WHERE id ="); }
  }


  // ------------------------------------------------------------ DELETE

  /** The DELETE text reads back as the table and the row id. */
  lemma DeleteRoundTrip(table: string, rowID: RowId)
    requires ' ' !in table
    ensures ParseDelete(DeleteText(table, rowID)) == Some(DeleteFrom(table, RowIdText(rowID)))
  {
    var x := RowIdText(rowID);
    var rest := "WHERE id = " + (x + ";");
    assert DeleteText(table, rowID) == "DELETE FROM " + (table + [' '] + rest);
    ExpectAppend("DELETE FROM ", table + [' '] + rest);
    UptoAppend(table, ' ', rest);
    ExpectAppend("WHERE id = ", x + ";");
    DropSuffixAppend(x, ";");
  }

  // ------------------------------------------------------------ CREATE TABLE

  function Columns(fields: seq<(string, string)>): seq<string> {
    seq(|fields|, i requires 0 <= i < |fields| => fields[i].0 + " " + fields[i].1)
  }

  /** The field names and types that a CREATE TABLE text can be read back by. */
  predicate ColumnNames(fields: seq<(string, string)>) {
    forall i :: 0 <= i < |fields| ==> ' ' !in fields[i].0 && ',' !in fields[i].0 && ',' !in fields[i].1
  }

  lemma {:induction false} ParseAllColumns(fields: seq<(string, string)>)
    requires ColumnNames(fields)
    ensures ParseColumns(Columns(fields)) == Some(fields)
    decreases |fields|
  {
    if fields != [] {
      UptoAppend(fields[0].0, ' ', fields[0].1);
      assert Columns(fields)[0] == fields[0].0 + [' '] + fields[0].1;
      assert Columns(fields)[1..] == Columns(fields[1..]);
      ParseAllColumns(fields[1..]);
      assert fields == [fields[0]] + fields[1..];
    }
  }

  lemma ColumnsAvoidComma(fields: seq<(string, string)>)
    requires ColumnNames(fields)
    ensures NoSeparator(Columns(fields), ',')
  {
    forall i | 0 <= i < |fields| ensures ',' !in Columns(fields)[i] {
      assert Columns(fields)[i] == fields[i].0 + [' '] + fields[i].1;
    }
  }

  /**
   * The CREATE TABLE text reads back as the table with its fields in order,
   * after the `id` column, when no field type holds a comma.
   */
  lemma CreateTableRoundTrip(table: string, fields: seq<(string, string)>)
    requires ' ' !in table && |fields| > 0 && ColumnNames(fields)
    ensures ParseCreateTable(CreateTableText(table, fields)) == Some(CreateTable(table, fields))
  {
    var j := Join(Columns(fields), ',');
    assert CreateTableText(table, fields) == "CREATE TABLE " + (table + [' '] + (IdColumn + (j + "\n  );")));
    ExpectAppend("CREATE TABLE ", table + [' '] + (IdColumn + (j + "\n  );")));
    UptoAppend(table, ' ', IdColumn + (j + "\n  );"));
    ExpectAppend(IdColumn, j + "\n  );");
    DropSuffixAppend(j, "\n  );");
    ColumnsAvoidComma(fields);
    SplitJoin(Columns(fields), ',');
    ParseAllColumns(fields);
  }

  /**
   * A last field whose type carries a table constraint after a comma reads
   * back as two columns: the field with the type before the comma, then the
   * constraint as a column without a name.
   */
  lemma ConstraintReadsAsColumn(table: string, pre: seq<(string, string)>, k: string, t: string, c: string)
    requires ' ' !in table && ColumnNames(pre + [(k, t), ("", c)])
    ensures ParseCreateTable(CreateTableText(table, pre + [(k, t + ", " + c)]))
         == Some(CreateTable(table, pre + [(k, t), ("", c)]))
  {
    var long := pre + [(k, t + ", " + c)];
    var halves := pre + [(k, t), ("", c)];
    assert k + " " + (t + ", " + c) == (k + " " + t) + [','] + ("" + " " + c);
    assert Columns(long) == Columns(pre) + [(k + " " + t) + [','] + ("" + " " + c)];
    assert Columns(halves) == Columns(pre) + [k + " " + t, "" + " " + c];
    JoinLastHalves(Columns(pre), k + " " + t, "" + " " + c, ',');
    assert CreateTableText(table, long) == CreateTableText(table, halves);
    CreateTableRoundTrip(table, halves);
  }

  lemma ReferenceHasNoComma(column: string, parent: string)
    requires ',' !in column && ',' !in parent
    ensures ',' !in Reference(column, parent)
  {
    assert Reference(column, parent) == "FOREIGN KEY (" + column + ") REFERENCES " + parent + "(id)";
  }

  /** A field typed by ForeignKey reads back as an INTEGER field and then its reference as a nameless column. */
  lemma ForeignKeyReadsBack(table: string, first: (string, string), column: string, parent: string)
    requires ' ' !in table && ' ' !in first.0 && ',' !in first.0 && ',' !in first.1
    requires ' ' !in column && ',' !in column && ',' !in parent
    ensures ParseCreateTable(CreateTableText(table, [first, (column, ForeignKey(column, parent))]))
         == Some(CreateTable(table, [first, (column, "INTEGER"), ("", Reference(column, parent))]))
  {
    var r := Reference(column, parent);
    ReferenceHasNoComma(column, parent);
    assert ColumnNames([first] + [(column, "INTEGER"), ("", r)]);
    ConstraintReadsAsColumn(table, [first], column, "INTEGER", r);
    assert "INTEGER" + ", " == "INTEGER, ";
    assert "INTEGER" + ", " + r == ForeignKey(column, parent);
    assert [first] + [(column, "INTEGER" + ", " + r)] == [first, (column, ForeignKey(column, parent))];
    assert [first] + [(column, "INTEGER"), ("", r)] == [first, (column, "INTEGER"), ("", r)];
  }

  /** A table of two fields whose text reads back with the second field's reference to parent as a nameless column. */
  predicate ReadsBackReferring(entry: (string, seq<(string, string)>), parent: string) {
    var (table, fields) := entry;
    |fields| == 2 &&
    ParseCreateTable(CreateTableText(table, fields))
      == Some(CreateTable(table, [fields[0], (fields[1].0, "INTEGER"), ("", Reference(fields[1].0, parent))]))
  }

  /** Every table after the first has two fields, the second referring to the table before it. */
  predicate Linked(i: int)
    requires 1 <= i < |Schema|
  {
    var fields := Schema[i].1;
    |fields| == 2 && fields[1].1 == ForeignKey(fields[1].0, Schema[i - 1].0)
  }

  /** The names of such a table hold none of the characters its text is built around. */
  predicate PlainNames(i: int)
    requires 1 <= i < |Schema| && |Schema[i].1| == 2
  {
    var (table, fields) := Schema[i];
    ' ' !in table && ' ' !in fields[0].0 && ',' !in fields[0].0 && ',' !in fields[0].1 &&
    ' ' !in fields[1].0 && ',' !in fields[1].0 && ',' !in Schema[i - 1].0
  }

  lemma SchemaLinked(i: int)
    requires 1 <= i < |Schema|
    ensures Linked(i)
  {
    if i == 1 {
      assert Schema[i] == ("Categories", [("name", "TEXT"), ("folderID", ForeignKey("folderID", "Folders"))]);
    } else if i == 2 {
      assert Schema[i] == ("Topics", [("name", "TEXT"), ("categoryID", ForeignKey("categoryID", "Categories"))]);
    } else if i == 3 {
      assert Schema[i] == ("Articles", [("content", "TEXT"), ("topicId", ForeignKey("topicId", "Topics"))]);
    } else {
      assert Schema[i] == ("Embeds", [("content", "BLOB"), ("articleID", ForeignKey("articleID", "Articles"))]);
    }
  }

  lemma SchemaPlainNames(i: int)
    requires 1 <= i < |Schema| && |Schema[i].1| == 2
    ensures PlainNames(i)
  {
    if i == 1 {
      assert Schema[i] == ("Categories", [("name", "TEXT"), ("folderID", ForeignKey("folderID", "Folders"))]);
    } else if i == 2 {
      assert Schema[i] == ("Topics", [("name", "TEXT"), ("categoryID", ForeignKey("categoryID", "Categories"))]);
    } else if i == 3 {
      assert Schema[i] == ("Articles", [("content", "TEXT"), ("topicId", ForeignKey("topicId", "Topics"))]);
    } else {
      assert Schema[i] == ("Embeds", [("content", "BLOB"), ("articleID", ForeignKey("articleID", "Articles"))]);
    }
  }

  /** The first table of the schema reads back as created. */
  lemma FirstTableReadsBack()
    ensures ParseCreateTable(CreateTableText(Schema[0].0, Schema[0].1)) == Some(CreateTable(Schema[0].0, Schema[0].1))
  {
    CreateTableRoundTrip("Folders", [("name", "TEXT")]);
  }

  /**
   * Every later table of the schema reads back with its reference to the
   * table before it as a column of its own with an empty name.
   */
  lemma LinkedTableReadsBack(i: int)
    requires 1 <= i < |Schema|
    ensures ReadsBackReferring(Schema[i], Schema[i - 1].0)
  {
    SchemaLinked(i);
    SchemaPlainNames(i);
    var (table, fields) := Schema[i];
    var parent := Schema[i - 1].0;
    assert fields == [fields[0], (fields[1].0, ForeignKey(fields[1].0, parent))];
    ForeignKeyReadsBack(table, fields[0], fields[1].0, parent);
  }

  // ------------------------------------------------------------ what is not escaped

  /** The first value the mapping refuses decides the error, whichever builder runs. */
  lemma BuildersRefuseTogether(table: string, rowID: RowId, data: Row)
    ensures InsertText(table, data).Err? <==> exists i :: 0 <= i < |data| && !Insertable(data[i].1)
    ensures InsertText(table, data).Err? ==> UpdateText(table, rowID, data) == Err(InsertText(table, data).message)
  {
    assert forall i :: 0 <= i < |data| ==> Values(data)[i] == data[i].1;
  }

  lemma MapValuesOne(v: Value)
    requires Insertable(v)
    ensures MapValues([v]) == Ok([MapValue(v).value])
  {
    assert forall i :: 0 <= i < |[v]| ==> Insertable([v][i]);
    var r := MapValues([v]).value;
    assert MapValue([v][0]) == Ok(r[0]);
    assert r == [r[0]];
  }

  lemma MapValuesTwo(v: Value, w: Value)
    requires Insertable(v) && Insertable(w)
    ensures MapValues([v, w]) == Ok([MapValue(v).value, MapValue(w).value])
  {
    assert forall i :: 0 <= i < |[v, w]| ==> Insertable([v, w][i]);
    var r := MapValues([v, w]).value;
    assert MapValue([v, w][0]) == Ok(r[0]);
    assert MapValue([v, w][1]) == Ok(r[1]);
    assert r == [r[0], r[1]];
  }

  /** A null value is an empty element of the INSERT value list ... */
  lemma NullInsert(table: string, key: string)
    ensures InsertText(table, [(key, Null)]) == Ok("INSERT INTO " + table + "(" + key + ") VALUES();")
  {
    var data := [(key, Null)];
    assert Values(data) == [Null] && Keys(data) == [key];
    MapValuesOne(Null);
    assert JoinTexts([LNull]) == [""];
    var p := "INSERT INTO " + table + "(" + key;
    assert InsertText(table, data) == Ok(p + ") VALUES(" + "" + ");");
    assert p + ") VALUES(" + "" + ");" == p + ") VALUES();";
  }

  /**
   * A row whose parent id is still null, as the add handlers build it before
   * any folder or topic is current: the value list ends in an empty element.
   */
  lemma ParentlessInsert(table: string, key: string, parent: string, text: string)
    ensures InsertText(table, [(key, Str(text)), (parent, Null)])
         == Ok("INSERT INTO " + table + "(" + key + "," + parent + ") VALUES(" + "\"" + text + "\"" + ",);")
  {
    var data := [(key, Str(text)), (parent, Null)];
    assert Values(data) == [Str(text), Null] && Keys(data) == [key, parent];
    MapValuesTwo(Str(text), Null);
    var quoted := "\"" + text + "\"";
    assert JoinTexts([LStr(text), LNull]) == [quoted, ""];
    JoinCons(key, [parent], ',');
    JoinCons(quoted, [""], ',');
    assert Join([key, parent], ',') == key + "," + parent;
    assert Join([quoted, ""], ',') == quoted + ",";
    var x := "INSERT INTO " + table + "(";
    var b := x + key + "," + parent + ") VALUES(";
    var c := b + "\"" + text + "\"";
    assert x + (key + "," + parent) == x + key + "," + parent;
    assert b + (quoted + ",") == c + ",";
    assert c + "," + ");" == c + ",);";
  }

  /** ... but the word `null` in an UPDATE. */
  lemma NullUpdate(table: string, key: string, rowID: RowId)
    ensures UpdateText(table, rowID, [(key, Null)]) ==
      Ok("UPDATE " + table + " SET " + key + " = null WHERE id = " + RowIdText(rowID) + ";")
  {
    NullUpdateParts(table, key, rowID);
    NullUpdateShape("UPDATE " + table + " SET ", key, RowIdText(rowID));
  }

  lemma NullUpdateParts(table: string, key: string, rowID: RowId)
    ensures UpdateText(table, rowID, [(key, Null)]) ==
      Ok("UPDATE " + table + " SET " + (key + " = " + "null") + " WHERE id = " + RowIdText(rowID) + ";")
  {
    var data := [(key, Null)];
    assert Values(data) == [Null] && Keys(data) == [key];
    MapValuesOne(Null);
    assert Assignments([key], [LNull]) == [key + " = " + "null"];
  }

  lemma NullUpdateShape(u: string, key: string, id: string)
    ensures u + (key + " = " + "null") + " WHERE id = " + id + ";" == u + key + " = null WHERE id = " + id + ";"
  {
  }


  lemma AssignmentsNotEscaped(a: string, b: string, x: string, y: string)
    ensures Join(Assignments([a], [LStr(x + "\"," + b + " = \"" + y)]), ',') ==
            Join(Assignments([a, b], [LStr(x), LStr(y)]), ',')
  {
    var z := x + "\"," + b + " = \"" + y;
    var a1 := Assignments([a], [LStr(z)]);
    var a2 := Assignments([a, b], [LStr(x), LStr(y)]);
    assert a1 == [a + " = " + ("\"" + z + "\"")];
    assert a2 == [a + " = " + ("\"" + x + "\""), b + " = " + ("\"" + y + "\"")];
    assert Join(a2, ',') == a2[0] + [','] + a2[1] by {
      assert a2[1..] == [a2[1]];
    }
    QuotedAssignments(a, b, x, y);
  }

  lemma QuotedAssignments(a: string, b: string, x: string, y: string)
    ensures a + " = " + ("\"" + (x + "\"," + b + " = \"" + y) + "\"") ==
            a + " = " + ("\"" + x + "\"") + [','] + (b + " = " + ("\"" + y + "\""))
  {
  }

  /**
   * Nothing is escaped: a string holding `",b = "` makes a one-key UPDATE
   * give the text of a two-key one.
   */
  lemma UpdateNotEscaped(table: string, rowID: RowId, a: string, b: string, x: string, y: string)
    ensures UpdateText(table, rowID, [(a, Str(x + "\"," + b + " = \"" + y))]) ==
            UpdateText(table, rowID, [(a, Str(x)), (b, Str(y))])
  {
    var z := x + "\"," + b + " = \"" + y;
    var one := [(a, Str(z))];
    var two := [(a, Str(x)), (b, Str(y))];
    assert Values(one) == [Str(z)] && Keys(one) == [a];
    assert Values(two) == [Str(x), Str(y)] && Keys(two) == [a, b];
    MapValuesOne(Str(z));
    MapValuesTwo(Str(x), Str(y));
    AssignmentsNotEscaped(a, b, x, y);
  }

  /**
   * Nothing is escaped: a key and a string holding commas make a one-value
   * INSERT give the text of a two-value one.
   */
  lemma InsertNotEscaped(table: string, a: string, b: string, x: string, y: string)
    ensures InsertText(table, [(a + "," + b, Str(x + "\",\"" + y))]) ==
            InsertText(table, [(a, Str(x)), (b, Str(y))])
  {
    var z := x + "\",\"" + y;
    var one := [(a + "," + b, Str(z))];
    var two := [(a, Str(x)), (b, Str(y))];
    assert Values(one) == [Str(z)] && Keys(one) == [a + "," + b];
    assert Values(two) == [Str(x), Str(y)] && Keys(two) == [a, b];
    MapValuesOne(Str(z));
    MapValuesTwo(Str(x), Str(y));
    var v2 := JoinTexts([LStr(x), LStr(y)]);
    assert JoinTexts([LStr(z)]) == ["\"" + z + "\""];
    assert v2 == ["\"" + x + "\"", "\"" + y + "\""];
    assert Join(v2, ',') == v2[0] + [','] + v2[1] by {
      assert v2[1..] == [v2[1]];
    }
    assert Join([a, b], ',') == a + [','] + b by {
      assert [a, b][1..] == [b];
    }
    assert Join(JoinTexts([LStr(z)]), ',') == Join(v2, ',');
    assert Join([a + "," + b], ',') == Join([a, b], ',');
    assert InsertText(table, one) ==
      Ok("INSERT INTO " + table + "(" + Join([a + "," + b], ',') + ") VALUES(" + Join(JoinTexts([LStr(z)]), ',') + ");");
    assert InsertText(table, two) ==
      Ok("INSERT INTO " + table + "(" + Join([a, b], ',') + ") VALUES(" + Join(v2, ',') + ");");
  }
}
