/**
 * The SQL text that bookkeeper/repository/sqlite_repository.py builds: the
 * statements are assembled by string formatting, with values written
 * straight into the text of `get_all`'s WHERE clause and `update`'s SET
 * clause (numbers bare, everything else in single quotes, `None` left out).
 */
module SqlText {
  import opened Results
  import opened Text

  /**
   * A Python value stored in or compared against a column: an `int`, a
   * `float` (carried as the text `str()` gives for it), any other value as
   * the text `str()` gives for it, or `None`.
   */
  datatype Value = Int(i: int) | Num(repr: string) | Str(s: string) | Null

  /** `isinstance(value, int) or isinstance(value, float)`. */
  predicate IsNumeric(v: Value) {
    v.Int? || v.Num?
  }

  /** A keyword and its value: an entry of `where` or of `obj.__dict__`. */
  type Binding = (string, Value)

  /** `f"{value}"`: an integer is written so that it reads back as itself. */
  function Render(v: Value): (r: string)
    ensures v.Int? ==> IsDecimal(r) && ParseInt(r) == v.i
  {
    match v
    case Int(i) => IntToStringRoundTrip(i); IntToString(i)
    case Num(r) => r
    case Str(s) => s
    case Null => "None"
  }

  /**
   * `f"{key} = {value}"` for a number, `f"{key} = '{value}'"` for anything
   * else: the value is written bare exactly when it is a number.
   */
  function Comparison(b: Binding): (r: string)
    ensures |r| >= |b.0| + 3 && r[..|b.0| + 3] == b.0 + " = "
    ensures IsNumeric(b.1) <==> r[|b.0| + 3..] == Render(b.1)
    ensures !IsNumeric(b.1) ==> r[|b.0| + 3..] == "'" + Render(b.1) + "'"
  {
    if IsNumeric(b.1) then b.0 + " = " + Render(b.1) else b.0 + " = '" + Render(b.1) + "'"
  }

  /** The entries the first comprehension keeps: numeric values, in order. */
  function NumericBindings(bs: seq<Binding>): (r: seq<Binding>)
    ensures forall i :: 0 <= i < |r| ==> IsNumeric(r[i].1) && r[i] in bs
  {
    if bs == [] then []
    else (if IsNumeric(bs[0].1) then [bs[0]] else []) + NumericBindings(bs[1..])
  }

  /** The entries the second comprehension keeps: values that are neither `None` nor numeric, in order. */
  function TextBindings(bs: seq<Binding>): (r: seq<Binding>)
    ensures forall i :: 0 <= i < |r| ==> r[i].1.Str? && r[i] in bs
  {
    if bs == [] then []
    else (if bs[0].1.Str? then [bs[0]] else []) + TextBindings(bs[1..])
  }

  /** What both comprehensions keep together: numeric entries first, then the others that are not `None`. */
  function Bound(bs: seq<Binding>): (r: seq<Binding>)
    ensures forall i :: 0 <= i < |r| ==> r[i] in bs && r[i].1 != Null
    ensures forall i, j :: 0 <= i < j < |r| && IsNumeric(r[j].1) ==> IsNumeric(r[i].1)
  {
    NumericBindings(bs) + TextBindings(bs)
  }

  /** The entries that are not `None`, in order. */
  function NotNull(bs: seq<Binding>): seq<Binding> {
    if bs == [] then []
    else (if bs[0].1 != Null then [bs[0]] else []) + NotNull(bs[1..])
  }

  /**
   * The clauses cover exactly the entries that are not `None`, each once:
   * reordered, never dropped or repeated.
   */
  lemma {:induction false} BoundPermutation(bs: seq<Binding>)
    ensures multiset(Bound(bs)) == multiset(NotNull(bs))
  {
    if bs != [] {
      var x, rest := bs[0], bs[1..];
      BoundPermutation(rest);
      BoundStep(bs);
    }
  }

  /** One entry's share of the clauses is its share of the entries that are not `None`. */
  lemma BoundStep(bs: seq<Binding>)
    requires bs != []
    ensures var share := if bs[0].1 != Null then multiset{bs[0]} else multiset{};
      && multiset(Bound(bs)) == share + multiset(Bound(bs[1..]))
      && multiset(NotNull(bs)) == share + multiset(NotNull(bs[1..]))
  {
    var x, rest := bs[0], bs[1..];
    var a := if IsNumeric(x.1) then [x] else [];
    var b := if x.1.Str? then [x] else [];
    var c := if x.1 != Null then [x] else [];
    assert NumericBindings(bs) == a + NumericBindings(rest);
    assert TextBindings(bs) == b + TextBindings(rest);
    assert NotNull(bs) == c + NotNull(rest);
    assert multiset(a) + multiset(b) == multiset(c);
    assert multiset(Bound(bs)) == multiset(a) + multiset(b) + multiset(Bound(rest));
  }

  /** The clauses are empty exactly when every value is `None`. */
  lemma {:induction false} BoundEmpty(bs: seq<Binding>)
    ensures Bound(bs) == [] <==> forall i :: 0 <= i < |bs| ==> bs[i].1 == Null
  {
    if bs != [] {
      BoundEmpty(bs[1..]);
      if bs[0].1 == Null {
        assert Bound(bs) == Bound(bs[1..]);
        assert (forall i :: 0 <= i < |bs| ==> bs[i].1 == Null) <==> (forall i :: 0 <= i < |bs[1..]| ==> bs[1..][i].1 == Null) by {
          forall i | 0 < i < |bs| ensures bs[i] == bs[1..][i - 1] { }
        }
      } else {
        assert bs[0] in Bound(bs);
      }
    }
  }

  /** The comparisons written for the bound entries, in the same order. */
  function Comparisons(bs: seq<Binding>): (r: seq<string>)
    ensures |r| == |Bound(bs)|
  {
    var b := Bound(bs);
    seq(|b|, i requires 0 <= i < |b| => Comparison(b[i]))
  }

  /** Every comparison is non-empty, so a clause is empty exactly when every value is `None`. */
  lemma ClauseEmpty(sep: string, bs: seq<Binding>)
    ensures Join(sep, Comparisons(bs)) == [] <==> forall i :: 0 <= i < |bs| ==> bs[i].1 == Null
  {
    BoundEmpty(bs);
    JoinEmpty(sep, Comparisons(bs));
  }

  /** `' AND '.join(...)` of `get_all`: empty exactly when every value of `where` is `None`. */
  function WhereClause(where: seq<Binding>): (r: string)
    ensures r == [] <==> forall i :: 0 <= i < |where| ==> where[i].1 == Null
  {
    ClauseEmpty(" AND ", where);
    Join(" AND ", Comparisons(where))
  }

  /** `','.join(...)` of `update` (note the bare comma): empty exactly when every attribute is `None`. */
  function SetClause(attrs: seq<Binding>): (r: string)
    ensures r == [] <==> forall i :: 0 <= i < |attrs| ==> attrs[i].1 == Null
  {
    ClauseEmpty(",", attrs);
    Join(",", Comparisons(attrs))
  }

  /**
   * The SET clause can be cut back into its assignments at the commas as
   * long as no name and no text value contains a comma.
   */
  lemma SetClauseSplits(attrs: seq<Binding>)
    requires Bound(attrs) != []
    requires forall i :: 0 <= i < |attrs| ==> ',' !in attrs[i].0 && (attrs[i].1.Str? || attrs[i].1.Num? ==> ',' !in Render(attrs[i].1))
    ensures Split(SetClause(attrs), ',') == Comparisons(attrs)
  {
    var b, parts := Bound(attrs), Comparisons(attrs);
    forall k | 0 <= k < |parts|
      ensures ',' !in parts[k]
    {
      assert parts[k] == Comparison(b[k]);
      var i :| 0 <= i < |attrs| && attrs[i] == b[k];
      ComparisonNoComma(b[k]);
    }
    SplitJoin(',', parts);
  }

  /** A comparison holds a comma only when its name or its value does. */
  lemma ComparisonNoComma(b: Binding)
    requires ',' !in b.0 && (b.1.Str? || b.1.Num? ==> ',' !in Render(b.1))
    ensures ',' !in Comparison(b)
  {
    if b.1.Int? {
      assert IsDecimal(Render(b.1));
    }
  }

  // ---- the statements -----------------------------------------------------------

  /** `create_table`: run without parameters, it holds no placeholder unless a name brings one. */
  function CreateTableSql(table: string, fields: seq<string>): (r: string)
    ensures ('?' !in table && forall i :: 0 <= i < |fields| ==> '?' !in fields[i]) ==> '?' !in r
  {
    var names := Join(", ", fields);
    if '?' !in table && forall i :: 0 <= i < |fields| ==> '?' !in fields[i] then
      JoinAvoids('?', ", ", fields);
      "CREATE TABLE IF NOT EXISTS " + table + " " + "(pk INTEGER PRIMARY KEY, " + names + ")"
    else "CREATE TABLE IF NOT EXISTS " + table + " " + "(pk INTEGER PRIMARY KEY, " + names + ")"
  }

  /** `drop_table`: run without parameters, it holds no placeholder unless the table name brings one. */
  function DropTableSql(table: string): (r: string)
    ensures '?' !in table ==> '?' !in r
  {
    "DROP TABLE IF EXISTS " + table
  }

  /** `', '.join("?" * n)`: `"?" * n` is a string of n question marks, and joining a string joins its characters. */
  function Placeholders(n: nat): (r: seq<string>)
    ensures |r| == n && forall i :: 0 <= i < n ==> r[i] == "?"
  {
    seq(n, i => "?")
  }

  /**
   * The INSERT of `add`, before its values are bound: one placeholder per
   * field, so the values bound to it, one per field, fill it (as long as no
   * name contains a `?`).
   */
  function InsertSql(table: string, fields: seq<string>): (r: string)
    ensures ('?' !in table && forall i :: 0 <= i < |fields| ==> '?' !in fields[i]) ==> Count('?', r) == |fields|
  {
    InsertPlaceholders(table, fields);
    "INSERT INTO " + table + " (" + Join(", ", fields) + ") VALUES (" + Join(", ", Placeholders(|fields|)) + ")"
  }

  /** `f"SELECT * FROM {table} WHERE pk={pk}"` of `get`: the key written at the end reads back as `pk`. */
  function SelectByPkSql(table: string, pk: int): (r: string)
    ensures var n := |r| - |IntToString(pk)|;
      0 <= n && r[..n] == "SELECT * FROM " + table + " WHERE pk=" && IsDecimal(r[n..]) && ParseInt(r[n..]) == pk
  {
    IntToStringRoundTrip(pk);
    var r := "SELECT * FROM " + table + " WHERE pk=" + IntToString(pk);
    assert r[|r| - |IntToString(pk)|..] == IntToString(pk);
    r
  }

  /**
   * The query of `get_all`. A `where` whose values are all `None` leaves
   * ` WHERE ` with nothing after it.
   */
  function SelectAllSql(table: string, where: Option<seq<Binding>>, subquery: Option<string>): (r: string)
    ensures where.Some? && subquery.None? && (forall i :: 0 <= i < |where.value| ==> where.value[i].1 == Null)
      ==> r == "SELECT * FROM " + table + " WHERE "
  {
    "SELECT * FROM " + table
      + (if where.Some? then " WHERE " + WhereClause(where.value) else "")
      + (if subquery.Some? then " " + subquery.value else "")
  }

  /**
   * The UPDATE of `update`, for the attributes of the object other than
   * `pk`: the key written at the end reads back as `pk`.
   */
  function UpdateSql(table: string, attrs: seq<Binding>, pk: int): (r: string)
    ensures var n := |r| - |IntToString(pk)|;
      0 <= n && r[..n] == "UPDATE " + table + " SET " + SetClause(attrs) + " WHERE pk=" && IsDecimal(r[n..]) && ParseInt(r[n..]) == pk
  {
    IntToStringRoundTrip(pk);
    var r := "UPDATE " + table + " SET " + SetClause(attrs) + " WHERE pk=" + IntToString(pk);
    assert r[|r| - |IntToString(pk)|..] == IntToString(pk);
    r
  }

  /** The DELETE of `delete`: the key written at the end reads back as `pk`. */
  function DeleteSql(table: string, pk: int): (r: string)
    ensures var n := |r| - |IntToString(pk)|;
      0 <= n && r[..n] == "DELETE FROM " + table + " WHERE pk=" && IsDecimal(r[n..]) && ParseInt(r[n..]) == pk
  {
    IntToStringRoundTrip(pk);
    var r := "DELETE FROM " + table + " WHERE pk=" + IntToString(pk);
    assert r[|r| - |IntToString(pk)|..] == IntToString(pk);
    r
  }

  /** Text with no `c` in it counts none. */
  lemma {:induction false} CountAbsent(c: char, s: string)
    requires c !in s
    ensures Count(c, s) == 0
  {
    if s != [] {
      assert s[0] != c && c !in s[1..];
      CountAbsent(c, s[1..]);
    }
  }

  /** The field names bring no placeholder into the INSERT. */
  lemma NamesCount(fields: seq<string>)
    requires forall i :: 0 <= i < |fields| ==> '?' !in fields[i]
    ensures Count('?', Join(", ", fields)) == 0
  {
    forall i | 0 <= i < |fields|
      ensures Count('?', fields[i]) == 0
    {
      CountAbsent('?', fields[i]);
    }
    CountAbsent('?', ", ");
    CountJoin('?', ", ", fields, 0);
  }

  /** The marks hold one placeholder each. */
  lemma MarksCount(n: nat)
    ensures Count('?', Join(", ", Placeholders(n))) == n
  {
    var marks := Placeholders(n);
    forall i | 0 <= i < n
      ensures Count('?', marks[i]) == 1
    {
      assert marks[i] == "?";
    }
    CountAbsent('?', ", ");
    CountJoin('?', ", ", marks, 1);
  }

  /** A fixed word of a statement holds no placeholder. */
  lemma WordCount(w: string)
    requires '?' !in w
    ensures Count('?', w) == 0
  {
    CountAbsent('?', w);
  }

  /** The fixed words of the INSERT are free of `?`. */
  lemma InsertWords()
    ensures '?' !in "INSERT INTO " && '?' !in " (" && '?' !in ") VALUES (" && '?' !in ")"
  {
  }

  /**
   * The INSERT has exactly one placeholder per field, so the values bound to
   * it, one per field, fill it (as long as no name contains a `?`).
   */
  lemma InsertPlaceholders(table: string, fields: seq<string>)
    ensures var names, marks := Join(", ", fields), Join(", ", Placeholders(|fields|));
      ('?' !in table && forall i :: 0 <= i < |fields| ==> '?' !in fields[i]) ==>
      Count('?', "INSERT INTO " + table + " (" + names + ") VALUES (" + marks + ")") == |fields|
  {
    if '?' in table || exists i :: 0 <= i < |fields| && '?' in fields[i] {
      return;
    }
    var names, marks := Join(", ", fields), Join(", ", Placeholders(|fields|));
    NamesCount(fields);
    MarksCount(|fields|);
    InsertWords();
    WordCount("INSERT INTO ");
    WordCount(" (");
    WordCount(") VALUES (");
    WordCount(")");
    CountAbsent('?', table);
    CountSeven('?', "INSERT INTO ", table, " (", names, ") VALUES (", marks, ")");
  }

  /** Counting distributes over a statement assembled from seven pieces. */
  lemma CountSeven(c: char, s1: string, s2: string, s3: string, s4: string, s5: string, s6: string, s7: string)
    ensures Count(c, s1 + s2 + s3 + s4 + s5 + s6 + s7)
      == Count(c, s1) + Count(c, s2) + Count(c, s3) + Count(c, s4) + Count(c, s5) + Count(c, s6) + Count(c, s7)
  {
    CountAppend(c, s1, s2);
    CountAppend(c, s1 + s2, s3);
    CountAppend(c, s1 + s2 + s3, s4);
    CountAppend(c, s1 + s2 + s3 + s4, s5);
    CountAppend(c, s1 + s2 + s3 + s4 + s5, s6);
    CountAppend(c, s1 + s2 + s3 + s4 + s5 + s6, s7);
  }
}
