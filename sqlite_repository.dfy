/**
 * `SQLiteRepository` of bookkeeper/repository/sqlite_repository.py: a
 * repository of records of one dataclass, kept in a table named after the
 * class, with one column per annotated field besides the integer primary
 * key `pk`. A `pk` of 0 marks a record that has not been stored yet.
 *
 * The SQLite files are modelled as one shared `Database` object holding
 * every table of every file, keyed by (file, table name). Each operation is
 * specified by a function on that state (what it returns and what the
 * state becomes, or the exception it raises); the methods of `Repository`
 * are proved to do exactly that, and the lemmas state what the functions
 * mean: round trips through `get`, what `update` keeps, what `delete`
 * removes, which rows `get_all` returns.
 */
module SqliteRepository {
  import opened Results
  import opened Text
  import opened SqlText

  /** The exceptions the repository lets through. */
  datatype Error =
    | KeyError(key: string)          // `fields.pop('pk')` on a class without `pk`
    | ValueError                     // the `pk` guards
    | AttributeError(name: string)   // reading an attribute the object lacks
    | TypeError                      // `sqlite3.connect(None)`
    | SyntaxError                    // SQLite refuses the statement text
    | NoSuchTable(table: string)
    | NoSuchColumn(column: string)

  /** A dataclass: its name and its annotated fields in declaration order. */
  datatype RecordType = RecordType(name: string, annotations: seq<string>)

  predicate NoDup(s: seq<string>) {
    forall i, j :: 0 <= i < j < |s| ==> s[i] != s[j]
  }

  /** The names of some bindings, in order. */
  function Names(bs: seq<Binding>): (r: seq<string>)
    ensures |r| == |bs| && forall i :: 0 <= i < |bs| ==> r[i] == bs[i].0
  {
    seq(|bs|, i requires 0 <= i < |bs| => bs[i].0)
  }

  // ---- schema -------------------------------------------------------------------

  /** `names` with `x` removed, order kept: `dict.pop`. */
  function Without(names: seq<string>, x: string): (r: seq<string>)
    ensures forall n :: n in r <==> n in names && n != x
  {
    if names == [] then [] else (if names[0] == x then [] else [names[0]]) + Without(names[1..], x)
  }

  /**
   * `__init__`'s schema: the table name is the lower-cased class name and the
   * fields are the annotations without `pk`, which must be among them.
   */
  function Schema(cls: RecordType): (r: Result<(string, seq<string>), Error>)
    ensures r.Err? <==> "pk" !in cls.annotations
    ensures r.Err? ==> r.error == KeyError("pk")
    ensures r.Ok? ==> r.value.0 == Lower(cls.name)
    ensures r.Ok? ==> forall n :: n in r.value.1 <==> n in cls.annotations && n != "pk"
  {
    if "pk" in cls.annotations then Ok((Lower(cls.name), Without(cls.annotations, "pk")))
    else Err(KeyError("pk"))
  }

  /**
   * The fields keep the declaration order: put `pk` back where it was declared
   * and the annotations come back.
   */
  lemma SchemaOrder(cls: RecordType, i: nat)
    requires NoDup(cls.annotations) && i < |cls.annotations| && cls.annotations[i] == "pk"
    ensures Schema(cls).Ok?
    ensures var fields := Schema(cls).value.1;
      i <= |fields| && cls.annotations == fields[..i] + ["pk"] + fields[i..]
  {
    WithoutAt(cls.annotations, "pk", i);
  }

  lemma {:induction false} WithoutAt(names: seq<string>, x: string, i: nat)
    requires NoDup(names) && i < |names| && names[i] == x
    ensures Without(names, x) == names[..i] + names[i + 1..]
  {
    if i == 0 {
      assert x !in names[1..];
      WithoutAbsent(names[1..], x);
    } else {
      WithoutAt(names[1..], x, i - 1);
      assert names[1..][..i - 1] == names[1..i];
      assert names[1..][i..] == names[i + 1..];
      assert names[..i] == [names[0]] + names[1..i];
    }
  }

  lemma {:induction false} WithoutAbsent(names: seq<string>, x: string)
    requires x !in names
    ensures Without(names, x) == names
  {
    if names != [] {
      assert names[0] != x && x !in names[1..];
      WithoutAbsent(names[1..], x);
      assert [names[0]] + names[1..] == names;
    }
  }

  // ---- records -------------------------------------------------------------------

  /** `getattr(obj, n)` over an object's attributes: the first binding named `n`. */
  function Lookup(bs: seq<Binding>, n: string): (r: Option<Value>)
    ensures r.Some? <==> n in Names(bs)
    ensures r.Some? ==> (n, r.value) in bs
  {
    if bs == [] then None
    else if bs[0].0 == n then Some(bs[0].1)
    else
      assert Names(bs) == [bs[0].0] + Names(bs[1..]);
      Lookup(bs[1..], n)
  }

  /** With distinct names, a binding is what a lookup finds. */
  lemma LookupUnique(bs: seq<Binding>, n: string, v: Value)
    requires NoDup(Names(bs)) && (n, v) in bs
    ensures Lookup(bs, n) == Some(v)
  {
    var i :| 0 <= i < |bs| && bs[i] == (n, v);
    var w := Lookup(bs, n).value;
    var j :| 0 <= j < |bs| && bs[j] == (n, w);
    assert Names(bs)[i] == Names(bs)[j];
  }

  /** The first position of `x` in `s`. */
  function IndexOf(s: seq<string>, x: string): (r: Option<nat>)
    ensures r.None? <==> x !in s
    ensures r.Some? ==> r.value < |s| && s[r.value] == x && x !in s[..r.value]
  {
    if s == [] then None
    else if s[0] == x then Some(0)
    else
      match IndexOf(s[1..], x)
      case None => None
      case Some(i) =>
        assert s[..i + 1] == [s[0]] + s[1..][..i];
        Some(i + 1)
  }

  /**
   * `[getattr(obj, x) for x in self.fields]`: the values of the fields in
   * order, or `AttributeError` for the first field the object lacks.
   */
  function FieldValues(attrs: seq<Binding>, fields: seq<string>): (r: Result<seq<Value>, Error>)
    ensures r.Ok? ==> |r.value| == |fields|
    ensures r.Ok? ==> forall i :: 0 <= i < |fields| ==> Lookup(attrs, fields[i]) == Some(r.value[i])
    ensures r.Err? ==> exists i :: (0 <= i < |fields| && r.error == AttributeError(fields[i])
      && Lookup(attrs, fields[i]).None? && forall j :: 0 <= j < i ==> Lookup(attrs, fields[j]).Some?)
  {
    if fields == [] then Ok([])
    else
      match Lookup(attrs, fields[0])
      case None => Err(AttributeError(fields[0]))
      case Some(v) =>
        match FieldValues(attrs, fields[1..])
        case Err(e) =>
          assert exists i :: (1 <= i < |fields| && e == AttributeError(fields[i]) && Lookup(attrs, fields[i]).None?
            && forall j :: 0 <= j < i ==> Lookup(attrs, fields[j]).Some?) by {
            var k :| 0 <= k < |fields| - 1 && e == AttributeError(fields[1..][k]) && Lookup(attrs, fields[1..][k]).None?
              && forall j :: 0 <= j < k ==> Lookup(attrs, fields[1..][j]).Some?;
            assert forall j :: 1 <= j < k + 1 ==> Lookup(attrs, fields[j]).Some? by {
              forall j | 1 <= j < k + 1 ensures fields[j] == fields[1..][j - 1] { }
            }
          }
          Err(e)
        case Ok(vs) => Ok([v] + vs)
  }

  /** `dict(zip(names, values))` before the keyword call: pairs up to the shorter of the two. */
  function Zip(names: seq<string>, values: seq<Value>): (r: seq<Binding>)
    ensures |r| == if |names| < |values| then |names| else |values|
    ensures forall i :: 0 <= i < |r| ==> r[i] == (names[i], values[i])
  {
    var n := if |names| < |values| then |names| else |values|;
    seq(n, i requires 0 <= i < n => (names[i], values[i]))
  }

  /**
   * `__parse_query_to_class` for a row `SELECT *` returned: the primary key
   * and the stored values paired with `pk` and the repository's fields; the
   * result is the keyword arguments the class is called with.
   */
  function Parse(fields: seq<string>, pk: int, values: seq<Value>): (r: seq<Binding>)
    ensures |r| >= 1 && r[0] == ("pk", Int(pk))
    ensures |values| == |fields| ==>
      |r| == |fields| + 1 && forall i :: 0 <= i < |fields| ==> r[i + 1] == (fields[i], values[i])
  {
    Zip(["pk"] + fields, [Int(pk)] + values)
  }

  // ---- the database -------------------------------------------------------------

  /** A table: its columns besides `pk`, and its rows by primary key. */
  datatype Table = Table(columns: seq<string>, rows: map<int, seq<Value>>)

  /** Every table of every database file, by (file, table name). */
  type Store = map<(string, string), Table>

  /** Connect to `file` and find `table` in it. */
  function TableAt(store: Store, file: Option<string>, table: string): (r: Result<Table, Error>)
    ensures r.Ok? <==> file.Some? && (file.value, table) in store
    ensures r.Ok? ==> r.value == store[(file.value, table)]
    ensures r.Err? ==> r.error == (if file.None? then TypeError else NoSuchTable(table))
  {
    if file.None? then Err(TypeError)
    else if (file.value, table) in store then Ok(store[(file.value, table)])
    else Err(NoSuchTable(table))
  }

  /** The first name that is neither `pk` nor a column of the table. */
  function FirstUnknown(columns: seq<string>, names: seq<string>): (r: Option<string>)
    ensures r.None? <==> forall i :: 0 <= i < |names| ==> names[i] == "pk" || names[i] in columns
    ensures r.Some? ==> r.value in names && r.value != "pk" && r.value !in columns
  {
    if names == [] then None
    else if names[0] != "pk" && names[0] !in columns then Some(names[0])
    else
      match FirstUnknown(columns, names[1..])
      case Some(c) => Some(c)
      case None =>
        assert forall i :: 1 <= i < |names| ==> names[i] == names[1..][i - 1];
        None
  }

  /** `create_table`: `CREATE TABLE IF NOT EXISTS`, which fails on an empty column list. */
  function Created(store: Store, file: Option<string>, table: string, fields: seq<string>): (r: Result<Store, Error>)
    ensures r.Ok? ==> file.Some? && (file.value, table) in r.value
  {
    if file.None? then Err(TypeError)
    else if fields == [] then Err(SyntaxError)
    else if (file.value, table) in store then Ok(store)
    else Ok(store[(file.value, table) := Table(fields, map[])])
  }

  /** `drop_table`: `DROP TABLE IF EXISTS`. */
  function Dropped(store: Store, file: Option<string>, table: string): (r: Result<Store, Error>)
    ensures r.Ok? ==> file.Some? && (file.value, table) !in r.value
  {
    if file.None? then Err(TypeError)
    else Ok(store - {(file.value, table)})
  }

  /** The row an INSERT naming `fields` writes: each column gets its field's value, the others NULL. */
  function RowFor(columns: seq<string>, fields: seq<string>, values: seq<Value>): (r: seq<Value>)
    requires |values| == |fields|
    ensures |r| == |columns|
  {
    seq(|columns|, j requires 0 <= j < |columns| =>
      match IndexOf(fields, columns[j])
      case Some(i) => values[i]
      case None => Null)
  }

  /** When the table has exactly the repository's columns, the row stored is the values given. */
  lemma RowForOwnColumns(fields: seq<string>, values: seq<Value>)
    requires NoDup(fields) && |values| == |fields|
    ensures RowFor(fields, fields, values) == values
  {
    forall j | 0 <= j < |fields|
      ensures IndexOf(fields, fields[j]) == Some(j)
    {
      assert fields[..IndexOf(fields, fields[j]).value + 1][j] == fields[j];
    }
  }

  /**
   * `add`, when the engine assigns key `k` to the new row: the `pk` guard,
   * then reading the fields, then the INSERT.
   */
  function Added(store: Store, file: Option<string>, table: string, fields: seq<string>,
                 pk: Option<int>, attrs: seq<Binding>, k: int): (r: Result<Store, Error>)
    ensures pk != Some(0) ==> r == Err(ValueError)
    ensures r.Ok? <==> (pk == Some(0) && FieldValues(attrs, fields).Ok? && file.Some? && fields != []
      && (file.value, table) in store && FirstUnknown(store[(file.value, table)].columns, fields).None?)
    ensures r.Ok? ==> file.Some? && (file.value, table) in r.value && k in r.value[(file.value, table)].rows
  {
    if pk != Some(0) then Err(ValueError)
    else
      match FieldValues(attrs, fields)
      case Err(e) => Err(e)
      case Ok(values) =>
        if file.None? then Err(TypeError)
        else if fields == [] then Err(SyntaxError)
        else
          match TableAt(store, file, table)
          case Err(e) => Err(e)
          case Ok(t) =>
            match FirstUnknown(t.columns, fields)
            case Some(c) => Err(NoSuchColumn(c))
            case None => Ok(store[(file.value, table) := Table(t.columns, t.rows[k := RowFor(t.columns, fields, values)])])
  }

  /** `get`: the record stored under `pk`, or `None`. */
  function Got(store: Store, file: Option<string>, table: string, fields: seq<string>, pk: int): (r: Result<Option<seq<Binding>>, Error>)
    ensures r.Ok? <==> file.Some? && (file.value, table) in store
    ensures r.Ok? ==> (r.value.Some? <==> pk in store[(file.value, table)].rows)
    ensures r.Ok? && r.value.Some? ==> r.value.value != [] && r.value.value[0] == ("pk", Int(pk))
  {
    match TableAt(store, file, table)
    case Err(e) => Err(e)
    case Ok(t) => Ok(if pk in t.rows then Some(Parse(fields, pk, t.rows[pk])) else None)
  }

  /** The value a condition compares: the key for `pk`, otherwise the named column of the row. */
  function ColumnValue(columns: seq<string>, pk: int, row: seq<Value>, name: string): Value {
    if name == "pk" then Int(pk)
    else
      match IndexOf(columns, name)
      case Some(j) => if j < |row| then row[j] else Null
      case None => Null
  }

  /** A row satisfies every `name = value` condition. */
  predicate Matches(t: Table, pk: int, cond: seq<Binding>)
    requires pk in t.rows
  {
    forall i :: 0 <= i < |cond| ==> ColumnValue(t.columns, pk, t.rows[pk], cond[i].0) == cond[i].1
  }

  /** A set that is not empty has an element. */
  lemma NonEmpty(keys: set<int>)
    requires keys != {}
    ensures exists y :: y in keys
  {
    if forall y :: y !in keys {
      assert false;
    }
  }

  /** The least element of a non-empty set of keys. */
  lemma {:induction false} Least(keys: set<int>) returns (m: int)
    requires keys != {}
    ensures m in keys && forall x :: x in keys ==> m <= x
  {
    NonEmpty(keys);
    var y :| y in keys;
    if keys == {y} {
      m := y;
    } else {
      var n := Least(keys - {y});
      m := if y < n then y else n;
      forall x | x in keys
        ensures m <= x
      {
        if x != y {
          assert x in keys - {y};
        }
      }
    }
  }

  lemma HasMin(keys: set<int>)
    requires keys != {}
    ensures exists m :: m in keys && forall x :: x in keys ==> m <= x
  {
    var m := Least(keys);
  }

  /** The keys of a table in ascending order, the order a full scan of a rowid table visits them. */
  ghost function Ascending(s: set<int>): (r: seq<int>)
    ensures forall i :: 0 <= i < |r| ==> r[i] in s
    decreases |s|
  {
    if s == {} then []
    else
      HasMin(s);
      var m :| m in s && forall x :: x in s ==> m <= x;
      [m] + Ascending(s - {m})
  }

  /** The least key comes first. */
  lemma AscendingFirst(s: set<int>, m: int)
    requires m in s && forall x :: x in s ==> m <= x
    ensures Ascending(s) == [m] + Ascending(s - {m})
  {
  }

  /** `Ascending` lists every key once, in strictly increasing order. */
  lemma {:induction false} AscendingSorted(s: set<int>)
    ensures |Ascending(s)| == |s|
    ensures forall x :: x in Ascending(s) <==> x in s
    ensures forall i, j :: 0 <= i < j < |Ascending(s)| ==> Ascending(s)[i] < Ascending(s)[j]
    decreases |s|
  {
    if s != {} {
      var m := Least(s);
      AscendingFirst(s, m);
      AscendingSorted(s - {m});
      var r, tail := Ascending(s), Ascending(s - {m});
      assert forall x :: x in r <==> x == m || x in tail;
      forall i, j | 0 <= i < j < |r|
        ensures r[i] < r[j]
      {
        assert r[j] == tail[j - 1];
        if i > 0 {
          assert r[i] == tail[i - 1];
        } else {
          assert r[j] in s - {m};
        }
      }
    }
  }

  /** The keys among `ks` whose rows satisfy the conditions, in the order of `ks`. */
  ghost function Matching(t: Table, cond: seq<Binding>, ks: seq<int>): (r: seq<int>)
    requires forall i :: 0 <= i < |ks| ==> ks[i] in t.rows
    ensures forall i :: 0 <= i < |r| ==> r[i] in t.rows
  {
    if ks == [] then []
    else
      var init, k := ks[..|ks| - 1], ks[|ks| - 1];
      var r := Matching(t, cond, init);
      if Matches(t, k, cond) then r + [k] else r
  }

  /** `Matching` keeps exactly the matching keys, in their order. */
  lemma {:induction false} MatchingSpec(t: Table, cond: seq<Binding>, ks: seq<int>)
    requires forall i :: 0 <= i < |ks| ==> ks[i] in t.rows
    ensures forall k :: k in Matching(t, cond, ks) <==> k in ks && k in t.rows && Matches(t, k, cond)
    ensures (forall i, j :: 0 <= i < j < |ks| ==> ks[i] < ks[j]) ==>
      forall i, j :: 0 <= i < j < |Matching(t, cond, ks)| ==> Matching(t, cond, ks)[i] < Matching(t, cond, ks)[j]
  {
    if ks != [] {
      var init, k := ks[..|ks| - 1], ks[|ks| - 1];
      MatchingSpec(t, cond, init);
      assert forall x :: x in ks <==> x in init || x == k;
      var r := Matching(t, cond, init);
      if (forall i, j :: 0 <= i < j < |ks| ==> ks[i] < ks[j]) && Matches(t, k, cond) {
        forall x | x in r
          ensures x < k
        {
          var i :| 0 <= i < |init| && init[i] == x;
          assert ks[i] == x;
        }
      }
    }
  }

  /** Scanning one more key adds it when its row matches. */
  lemma MatchingSnoc(t: Table, cond: seq<Binding>, ks: seq<int>, k: int)
    requires forall i :: 0 <= i < |ks| ==> ks[i] in t.rows
    requires k in t.rows
    ensures Matching(t, cond, ks + [k]) == if Matches(t, k, cond) then Matching(t, cond, ks) + [k] else Matching(t, cond, ks)
  {
    assert (ks + [k])[..|ks|] == ks;
  }

  /** One step of the scan: the least remaining key moves to the scanned ones. */
  lemma ScanStep(t: Table, fields: seq<string>, cond: seq<Binding>, seen: seq<int>, rest: set<int>, m: int)
    requires rest <= t.rows.Keys && m in rest && forall x :: x in rest ==> m <= x
    requires forall i :: 0 <= i < |seen| ==> seen[i] in t.rows
    requires Ascending(t.rows.Keys) == seen + Ascending(rest)
    ensures forall i :: 0 <= i < |seen + [m]| ==> (seen + [m])[i] in t.rows
    ensures Ascending(t.rows.Keys) == (seen + [m]) + Ascending(rest - {m})
    ensures Records(t, fields, Matching(t, cond, seen + [m]))
      == Records(t, fields, Matching(t, cond, seen)) + (if Matches(t, m, cond) then [Parse(fields, m, t.rows[m])] else [])
  {
    AscendingFirst(rest, m);
    MatchingSnoc(t, cond, seen, m);
    if Matches(t, m, cond) {
      RecordsSnoc(t, fields, Matching(t, cond, seen), m);
    }
    Associative(seen, [m], Ascending(rest - {m}));
  }

  lemma Associative(a: seq<int>, b: seq<int>, c: seq<int>)
    ensures a + (b + c) == (a + b) + c
  {
  }

  /** The records read back for some keys. */
  function Records(t: Table, fields: seq<string>, ks: seq<int>): (r: seq<seq<Binding>>)
    requires forall i :: 0 <= i < |ks| ==> ks[i] in t.rows
    ensures |r| == |ks| && forall i :: 0 <= i < |ks| ==> r[i] == Parse(fields, ks[i], t.rows[ks[i]])
  {
    seq(|ks|, i requires 0 <= i < |ks| => Parse(fields, ks[i], t.rows[ks[i]]))
  }

  lemma RecordsSnoc(t: Table, fields: seq<string>, ks: seq<int>, k: int)
    requires forall i :: 0 <= i < |ks| ==> ks[i] in t.rows
    requires k in t.rows
    ensures Records(t, fields, ks + [k]) == Records(t, fields, ks) + [Parse(fields, k, t.rows[k])]
  {
  }

  /**
   * `get_all(where)` without a subquery: a `where` whose values are all
   * `None` leaves ` WHERE ` with nothing after it; a condition on an
   * unknown column fails; otherwise the matching rows, in key order.
   */
  ghost function Selected(store: Store, file: Option<string>, table: string, fields: seq<string>,
                          where: Option<seq<Binding>>): (r: Result<seq<seq<Binding>>, Error>)
    ensures file.None? ==> r == Err(TypeError)
    ensures r.Ok? ==> file.Some? && (file.value, table) in store
    ensures r.Ok? ==> forall i :: 0 <= i < |r.value| ==>
      r.value[i] != [] && r.value[i][0].0 == "pk" && r.value[i][0].1.Int? && r.value[i][0].1.i in store[(file.value, table)].rows
  {
    if file.None? then Err(TypeError)
    else if where.Some? && Bound(where.value) == [] then Err(SyntaxError)
    else
      match TableAt(store, file, table)
      case Err(e) => Err(e)
      case Ok(t) =>
        var cond := if where.Some? then Bound(where.value) else [];
        match FirstUnknown(t.columns, Names(cond))
        case Some(c) => Err(NoSuchColumn(c))
        case None => Ok(Records(t, fields, Matching(t, cond, Ascending(t.rows.Keys))))
  }

  /** The row after `SET`: each column sets in the clause takes the sets value. */
  function SetRow(columns: seq<string>, row: seq<Value>, sets: seq<Binding>): (r: seq<Value>)
    ensures |r| == |row|
  {
    seq(|row|, j requires 0 <= j < |row| =>
      if j < |columns| && Lookup(sets, columns[j]).Some? then Lookup(sets, columns[j]).value else row[j])
  }

  /** `update`: the `pk` guard, then the UPDATE of the row with that key, if there is one. */
  function Updated(store: Store, file: Option<string>, table: string, pk: Option<int>, attrs: seq<Binding>): (r: Result<Store, Error>)
    ensures pk.None? ==> r == Err(AttributeError("pk"))
    ensures pk == Some(0) ==> r == Err(ValueError)
    ensures r.Ok? <==> (pk.Some? && pk.value != 0 && file.Some? && Bound(attrs) != [] && (file.value, table) in store
      && FirstUnknown(store[(file.value, table)].columns, Names(Bound(attrs))).None?)
  {
    if pk.None? then Err(AttributeError("pk"))
    else if pk.value == 0 then Err(ValueError)
    else if file.None? then Err(TypeError)
    else if Bound(attrs) == [] then Err(SyntaxError)
    else
      match TableAt(store, file, table)
      case Err(e) => Err(e)
      case Ok(t) =>
        match FirstUnknown(t.columns, Names(Bound(attrs)))
        case Some(c) => Err(NoSuchColumn(c))
        case None =>
          if pk.value in t.rows then
            Ok(store[(file.value, table) := Table(t.columns, t.rows[pk.value := SetRow(t.columns, t.rows[pk.value], Bound(attrs))])])
          else Ok(store)
  }

  /** `delete`: the `pk` guard, then the DELETE. */
  function Deleted(store: Store, file: Option<string>, table: string, pk: int): (r: Result<Store, Error>)
    ensures pk == 0 ==> r == Err(ValueError)
    ensures r.Ok? <==> pk != 0 && file.Some? && (file.value, table) in store
    ensures r.Ok? ==> (file.value, table) in r.value && pk !in r.value[(file.value, table)].rows
  {
    if pk == 0 then Err(ValueError)
    else
      match TableAt(store, file, table)
      case Err(e) => Err(e)
      case Ok(t) => Ok(store[(file.value, table) := Table(t.columns, t.rows - {pk})])
  }

  // ---- what the operations mean ------------------------------------------------------

  /**
   * `get(add(obj))`: the record read back under the new key carries that key
   * and the value of each field, in field order (when the table has the
   * repository's columns).
   */
  lemma AddThenGet(store: Store, file: Option<string>, table: string, fields: seq<string>,
                   attrs: seq<Binding>, k: int, after: Store)
    requires Added(store, file, table, fields, Some(0), attrs, k) == Ok(after)
    requires file.Some? && store[(file.value, table)].columns == fields && NoDup(fields)
    ensures var rec := Got(after, file, table, fields, k);
      rec.Ok? && rec.value.Some? && |rec.value.value| == |fields| + 1 && rec.value.value[0] == ("pk", Int(k))
      && forall i :: 0 <= i < |fields| ==> rec.value.value[i + 1] == (fields[i], Lookup(attrs, fields[i]).value)
  {
    var values := FieldValues(attrs, fields).value;
    var t := store[(file.value, table)];
    RowForOwnColumns(fields, values);
    assert after == store[(file.value, table) := Table(t.columns, t.rows[k := values])];
    assert Got(after, file, table, fields, k) == Ok(Some(Parse(fields, k, values)));
  }

  /** `add` changes only the new row: every other key reads back as before, and no other table changes. */
  lemma AddKeepsOthers(store: Store, file: Option<string>, table: string, fields: seq<string>,
                       pk: Option<int>, attrs: seq<Binding>, k: int, after: Store)
    requires Added(store, file, table, fields, pk, attrs, k) == Ok(after)
    ensures after.Keys == store.Keys
    ensures forall key :: key in store && key != (file.value, table) ==> after[key] == store[key]
    ensures forall j :: j != k ==> Got(after, file, table, fields, j) == Got(store, file, table, fields, j)
  {
  }

  /** `update` changes no other table and no other row, and keeps the columns and the set of keys. */
  lemma UpdateKeepsOthers(store: Store, file: Option<string>, table: string, pk: int, attrs: seq<Binding>, after: Store)
    requires Updated(store, file, table, Some(pk), attrs) == Ok(after)
    ensures after.Keys == store.Keys
    ensures forall key :: key in store && key != (file.value, table) ==> after[key] == store[key]
    ensures var t, t' := store[(file.value, table)], after[(file.value, table)];
      t'.columns == t.columns && t'.rows.Keys == t.rows.Keys
      && forall j :: j in t.rows && j != pk ==> t'.rows[j] == t.rows[j]
  {
  }

  /** The row `update` writes: the SET clause applied to the old row. */
  lemma UpdatedRow(store: Store, file: Option<string>, table: string, pk: int, attrs: seq<Binding>, after: Store)
    requires Updated(store, file, table, Some(pk), attrs) == Ok(after)
    requires pk in store[(file.value, table)].rows
    ensures var t := store[(file.value, table)];
      (file.value, table) in after && pk in after[(file.value, table)].rows
      && after[(file.value, table)].rows[pk] == SetRow(t.columns, t.rows[pk], Bound(attrs))
  {
  }

  /** The SET clause assigns each column its attribute when that is not `None`, and keeps the old value otherwise. */
  lemma SetRowKeeps(columns: seq<string>, row: seq<Value>, attrs: seq<Binding>)
    requires NoDup(Names(attrs))
    ensures var row' := SetRow(columns, row, Bound(attrs));
      |row'| == |row| && forall c :: 0 <= c < |row| && c < |columns| ==>
        row'[c] == (match Lookup(attrs, columns[c])
                    case Some(v) => if v != Null then v else row[c]
                    case None => row[c])
  {
    var row' := SetRow(columns, row, Bound(attrs));
    forall c | 0 <= c < |row| && c < |columns|
      ensures row'[c] == (match Lookup(attrs, columns[c])
                          case Some(v) => if v != Null then v else row[c]
                          case None => row[c])
    {
      BoundLookup(attrs, columns[c]);
    }
  }

  /**
   * `update` writes every attribute whose value is not `None` into the row
   * with its key and keeps the old column value for the others.
   */
  lemma UpdateThenGet(store: Store, file: Option<string>, table: string, pk: int, attrs: seq<Binding>, after: Store)
    requires Updated(store, file, table, Some(pk), attrs) == Ok(after)
    requires NoDup(Names(attrs)) && pk in store[(file.value, table)].rows
    ensures var t, t' := store[(file.value, table)], after[(file.value, table)];
      pk in t'.rows && |t'.rows[pk]| == |t.rows[pk]|
      && forall c :: 0 <= c < |t.rows[pk]| && c < |t.columns| ==>
           t'.rows[pk][c] == (match Lookup(attrs, t.columns[c])
                              case Some(v) => if v != Null then v else t.rows[pk][c]
                              case None => t.rows[pk][c])
  {
    var t := store[(file.value, table)];
    UpdatedRow(store, file, table, pk, attrs, after);
    SetRowKeeps(t.columns, t.rows[pk], attrs);
  }

  /**
   * Looking a name up among the assignments of the SET clause finds the
   * object's attribute when it is not `None`, and nothing otherwise.
   */
  lemma BoundLookup(attrs: seq<Binding>, n: string)
    requires NoDup(Names(attrs))
    ensures Lookup(Bound(attrs), n) == (match Lookup(attrs, n) case Some(v) => if v != Null then Some(v) else None case None => None)
  {
    BoundLookupFound(attrs, n);
    BoundLookupKept(attrs, n);
  }

  /** What the SET clause assigns is the object's attribute, and not `None`. */
  lemma BoundLookupFound(attrs: seq<Binding>, n: string)
    requires NoDup(Names(attrs))
    ensures Lookup(Bound(attrs), n).Some? ==>
      Lookup(attrs, n) == Lookup(Bound(attrs), n) && Lookup(attrs, n).value != Null
  {
    var w := Lookup(Bound(attrs), n);
    if w.Some? {
      LookupUnique(attrs, n, w.value);
    }
  }

  /** Every attribute that is not `None` is assigned in the SET clause. */
  lemma BoundLookupKept(attrs: seq<Binding>, n: string)
    ensures Lookup(attrs, n).Some? && Lookup(attrs, n).value != Null ==> n in Names(Bound(attrs))
  {
    var v := Lookup(attrs, n);
    if v.Some? && v.value != Null {
      var b := Bound(attrs);
      NotNullHas(attrs, (n, v.value));
      BoundPermutation(attrs);
      assert (n, v.value) in multiset(b);
      var i :| 0 <= i < |b| && b[i] == (n, v.value);
      assert Names(b)[i] == n;
    }
  }

  /** An entry whose value is not `None` is kept by `NotNull`. */
  lemma {:induction false} NotNullHas(bs: seq<Binding>, x: Binding)
    requires x in bs && x.1 != Null
    ensures x in NotNull(bs)
  {
    if bs[0] != x {
      NotNullHas(bs[1..], x);
    }
  }

  /** Updating a key with no row changes nothing. */
  lemma UpdateAbsent(store: Store, file: Option<string>, table: string, pk: int, attrs: seq<Binding>, after: Store)
    requires Updated(store, file, table, Some(pk), attrs) == Ok(after)
    requires pk !in store[(file.value, table)].rows
    ensures after == store
  {
  }

  /**
   * `delete(pk)` removes that row and only it: `get(pk)` is `None` afterwards,
   * every other key reads back as before, and deleting again changes nothing.
   */
  lemma DeleteThenGet(store: Store, file: Option<string>, table: string, fields: seq<string>, pk: int, after: Store)
    requires Deleted(store, file, table, pk) == Ok(after)
    ensures Got(after, file, table, fields, pk) == Ok(None)
    ensures forall j :: j != pk ==> Got(after, file, table, fields, j) == Got(store, file, table, fields, j)
    ensures after.Keys == store.Keys
    ensures forall key :: key in store && key != (file.value, table) ==> after[key] == store[key]
    ensures Deleted(after, file, table, pk) == Ok(after)
  {
    var key := (file.value, table);
    var t := store[key];
    assert after[key].rows == t.rows - {pk};
    assert after[key].rows - {pk} == after[key].rows;
    assert after[key := Table(t.columns, after[key].rows - {pk})] == after;
  }

  /** Deleting a key that has no row leaves every table as it was. */
  lemma DeleteAbsent(store: Store, file: Option<string>, table: string, pk: int, after: Store)
    requires Deleted(store, file, table, pk) == Ok(after)
    requires pk !in store[(file.value, table)].rows
    ensures after == store
  {
    var key := (file.value, table);
    assert store[key].rows - {pk} == store[key].rows;
  }

  /**
   * `get_all(where)` returns one record per matching row and no other, in
   * ascending key order, each read back as `get` reads it.
   */
  lemma SelectedRows(store: Store, file: Option<string>, table: string, fields: seq<string>,
                     where: seq<Binding>, recs: seq<seq<Binding>>) returns (ks: seq<int>)
    requires Selected(store, file, table, fields, Some(where)) == Ok(recs)
    ensures file.Some? && (file.value, table) in store
    ensures var t := store[(file.value, table)];
      |ks| == |recs|
      && (forall i, j :: 0 <= i < j < |ks| ==> ks[i] < ks[j])
      && (forall k :: k in ks <==> k in t.rows && Matches(t, k, Bound(where)))
      && (forall i :: 0 <= i < |ks| ==> Got(store, file, table, fields, ks[i]) == Ok(Some(recs[i])))
  {
    var t := SelectedTable(store, file, table, fields, Some(where), recs);
    AscendingSorted(t.rows.Keys);
    MatchingSpec(t, Bound(where), Ascending(t.rows.Keys));
    ks := Matching(t, Bound(where), Ascending(t.rows.Keys));
  }

  /** What `get_all` reads is the table's matching rows in key order. */
  lemma SelectedTable(store: Store, file: Option<string>, table: string, fields: seq<string>,
                      where: Option<seq<Binding>>, recs: seq<seq<Binding>>) returns (t: Table)
    requires Selected(store, file, table, fields, where) == Ok(recs)
    ensures file.Some? && (file.value, table) in store && t == store[(file.value, table)]
    ensures recs == Records(t, fields, Matching(t, if where.Some? then Bound(where.value) else [], Ascending(t.rows.Keys)))
  {
    t := store[(file.value, table)];
  }

  /** A `where` whose values are all `None` yields ` WHERE ` with no condition, which SQLite rejects. */
  lemma WhereAllNone(store: Store, file: string, table: string, fields: seq<string>, where: seq<Binding>)
    requires forall i :: 0 <= i < |where| ==> where[i].1 == Null
    ensures Selected(store, Some(file), table, fields, Some(where)) == Err(SyntaxError)
  {
    BoundEmpty(where);
  }

  /**
   * `repository_factory`'s effect on the files: for each model in turn, derive
   * its schema and create its table, stopping at the first model that fails.
   * The store reached and, when a model failed, its error.
   */
  function OpenedAll(store: Store, file: Option<string>, models: seq<RecordType>): (Store, Option<Error>)
    decreases |models|
  {
    if models == [] then (store, None)
    else
      match Schema(models[0])
      case Err(e) => (store, Some(e))
      case Ok(schema) =>
        match Created(store, file, schema.0, schema.1)
        case Err(e) => (store, Some(e))
        case Ok(next) => OpenedAll(next, file, models[1..])
  }

  /** Opening the repositories never removes or changes a table that was there before. */
  lemma {:induction false} OpenedAllKeeps(store: Store, file: Option<string>, models: seq<RecordType>)
    ensures var after := OpenedAll(store, file, models).0;
      forall key :: key in store ==> key in after && after[key] == store[key]
    decreases |models|
  {
    if models != [] && Schema(models[0]).Ok? {
      var schema := Schema(models[0]).value;
      var created := Created(store, file, schema.0, schema.1);
      if created.Ok? {
        assert forall key :: key in store ==> key in created.value && created.value[key] == store[key];
        OpenedAllKeeps(created.value, file, models[1..]);
      }
    }
  }

  /**
   * Every repository opens exactly when every model has a `pk` annotation and
   * another field, and the file is given (or there is no model); each model's
   * table then exists in the file.
   */
  lemma {:induction false} OpenedAllSucceeds(store: Store, file: Option<string>, models: seq<RecordType>)
    ensures var outcome := OpenedAll(store, file, models);
      (outcome.1.None? <==>
        ((models == [] || file.Some?)
         && forall i :: 0 <= i < |models| ==> Schema(models[i]).Ok? && Schema(models[i]).value.1 != []))
      && (outcome.1.None? ==> forall i :: 0 <= i < |models| ==> (file.value, Lower(models[i].name)) in outcome.0)
    decreases |models|
  {
    if models != [] && Schema(models[0]).Ok? {
      var schema := Schema(models[0]).value;
      var created := Created(store, file, schema.0, schema.1);
      if created.Ok? {
        OpenedAllSucceeds(created.value, file, models[1..]);
        OpenedAllKeeps(created.value, file, models[1..]);
        forall i | 1 <= i < |models|
          ensures models[i] == models[1..][i - 1]
        {
        }
      }
    }
  }

  /**
   * Without a file, the first model ends it: `KeyError` when it has no `pk`,
   * otherwise the `TypeError` of `sqlite3.connect(None)`; nothing is created.
   */
  lemma OpenedAllNoFile(store: Store, models: seq<RecordType>)
    requires models != []
    ensures OpenedAll(store, None, models) == (store, Some(if "pk" in models[0].annotations then TypeError else KeyError("pk")))
  {
  }

  /**
   * `reset_db_file` to the same file leaves the table empty; to another file
   * it leaves the table that file already holds (`IF NOT EXISTS`).
   */
  lemma ResetEmpties(store: Store, file: string, table: string, fields: seq<string>, next: string, mid: Store, after: Store)
    requires Dropped(store, Some(file), table) == Ok(mid)
    requires Created(mid, Some(next), table, fields) == Ok(after)
    ensures next == file ==> after[(next, table)] == Table(fields, map[])
    ensures next != file && (next, table) in store ==> after[(next, table)] == store[(next, table)]
    ensures forall pk :: next == file ==> Got(after, Some(next), table, fields, pk) == Ok(None)
  {
  }

  // ---- the objects -----------------------------------------------------------------

  /** The SQLite files. */
  class Database {
    var store: Store

    constructor (s: Store)
      ensures store == s
    {
      store := s;
    }
  }

  /**
   * An instance of a record dataclass: its `pk` attribute (`None` when it has
   * none) and its other attributes in `__dict__` order.
   */
  class Instance {
    var pk: Option<int>
    var attrs: seq<Binding>

    constructor (pk: Option<int>, attrs: seq<Binding>)
      ensures this.pk == pk && this.attrs == attrs
    {
      this.pk := pk;
      this.attrs := attrs;
    }
  }

  /** The least positive key above every key in use exists, so the engine can always allocate one. */
  lemma {:induction false} FreshKey(s: set<int>) returns (u: int)
    ensures u > 0 && u !in s
    ensures forall x :: x in s ==> x < u
  {
    if s == {} {
      u := 1;
    } else {
      NonEmpty(s);
      var x :| x in s;
      var v := FreshKey(s - {x});
      u := if x < v then v else x + 1;
      forall y | y in s
        ensures y < u
      {
        if y != x {
          assert y in s - {x};
        }
      }
    }
  }

  /** `SQLiteRepository`: a repository for one record class in one database file. */
  class Repository {
    const db: Database
    var dbFile: Option<string>
    const tableName: string
    const fields: seq<string>
    const cls: RecordType

    constructor Init(db: Database, cls: RecordType, dbFile: Option<string>, tableName: string, fields: seq<string>)
      ensures this.db == db && this.cls == cls && this.dbFile == dbFile
      ensures this.tableName == tableName && this.fields == fields
    {
      this.db := db;
      this.cls := cls;
      this.dbFile := dbFile;
      this.tableName := tableName;
      this.fields := fields;
    }

    /** `SQLiteRepository(cls, db_file)`: derive the schema, then create the table. */
    static method Open(db: Database, cls: RecordType, dbFile: Option<string>) returns (r: Result<Repository, Error>)
      modifies db
      ensures Schema(cls).Err? ==> r == Err(Schema(cls).error) && db.store == old(db.store)
      ensures Schema(cls).Ok? ==>
        var created := Created(old(db.store), dbFile, Schema(cls).value.0, Schema(cls).value.1);
        (created.Err? ==> r == Err(created.error) && db.store == old(db.store))
        && (created.Ok? ==> (r.Ok? && fresh(r.value) && db.store == created.value
            && r.value.db == db && r.value.cls == cls && r.value.dbFile == dbFile
            && r.value.tableName == Lower(cls.name) && r.value.fields == Schema(cls).value.1))
    {
      var schema := Schema(cls);
      if schema.Err? {
        return Err(schema.error);
      }
      var created := Created(db.store, dbFile, schema.value.0, schema.value.1);
      if created.Err? {
        return Err(created.error);
      }
      db.store := created.value;
      var repo := new Repository.Init(db, cls, dbFile, schema.value.0, schema.value.1);
      r := Ok(repo);
    }

    /** `create_table`. */
    method CreateTable() returns (r: Result<(), Error>)
      modifies db
      ensures var created := Created(old(db.store), dbFile, tableName, fields);
        (created.Err? ==> r == Err(created.error) && db.store == old(db.store))
        && (created.Ok? ==> r.Ok? && db.store == created.value)
    {
      var created := Created(db.store, dbFile, tableName, fields);
      if created.Err? {
        return Err(created.error);
      }
      db.store := created.value;
      r := Ok(());
    }

    /** `drop_table`. */
    method DropTable() returns (r: Result<(), Error>)
      modifies db
      ensures var dropped := Dropped(old(db.store), dbFile, tableName);
        (dropped.Err? ==> r == Err(dropped.error) && db.store == old(db.store))
        && (dropped.Ok? ==> r.Ok? && db.store == dropped.value)
    {
      var dropped := Dropped(db.store, dbFile, tableName);
      if dropped.Err? {
        return Err(dropped.error);
      }
      db.store := dropped.value;
      r := Ok(());
    }

    /** `reset_db_file`: drop the table, point at another file, create the table there. */
    method ResetDbFile(next: Option<string>) returns (r: Result<(), Error>)
      modifies this, db
      ensures var dropped := Dropped(old(db.store), old(dbFile), tableName);
        (dropped.Err? ==> r == Err(dropped.error) && db.store == old(db.store) && dbFile == old(dbFile))
        && (dropped.Ok? ==> (dbFile == next &&
            var created := Created(dropped.value, next, tableName, fields);
            (created.Err? ==> r == Err(created.error) && db.store == dropped.value)
            && (created.Ok? ==> r.Ok? && db.store == created.value)))
    {
      r := DropTable();
      if r.Err? {
        return;
      }
      dbFile := next;
      r := CreateTable();
    }

    /**
     * `add`: refuse an object whose `pk` is not 0, read its fields, insert
     * them under a fresh positive key, and give the object that key.
     */
    method Add(obj: Instance) returns (r: Result<int, Error>)
      modifies db, obj
      ensures obj.attrs == old(obj.attrs)
      ensures r.Err? ==> (db.store == old(db.store) && obj.pk == old(obj.pk)
        && forall k :: Added(old(db.store), dbFile, tableName, fields, old(obj.pk), obj.attrs, k) == Err(r.error))
      ensures r.Ok? ==> (old(obj.pk) == Some(0) && obj.pk == Some(r.value) && r.value > 0
        && dbFile.Some? && (dbFile.value, tableName) in old(db.store)
        && r.value !in old(db.store)[(dbFile.value, tableName)].rows
        && Added(old(db.store), dbFile, tableName, fields, old(obj.pk), obj.attrs, r.value) == Ok(db.store))
    {
      if obj.pk != Some(0) {
        return Err(ValueError);
      }
      var values := FieldValues(obj.attrs, fields);
      if values.Err? {
        return Err(values.error);
      }
      if dbFile.None? {
        return Err(TypeError);
      }
      if fields == [] {
        return Err(SyntaxError);
      }
      var found := TableAt(db.store, dbFile, tableName);
      if found.Err? {
        return Err(found.error);
      }
      var t := found.value;
      var unknown := FirstUnknown(t.columns, fields);
      if unknown.Some? {
        return Err(NoSuchColumn(unknown.value));
      }
      var _ := FreshKey(t.rows.Keys);
      var k :| k > 0 && k !in t.rows;
      db.store := db.store[(dbFile.value, tableName) := Table(t.columns, t.rows[k := RowFor(t.columns, fields, values.value)])];
      obj.pk := Some(k);
      r := Ok(k);
    }

    /** `get`. */
    method Get(pk: int) returns (r: Result<Option<seq<Binding>>, Error>)
      ensures r == Got(db.store, dbFile, tableName, fields, pk)
    {
      var found := TableAt(db.store, dbFile, tableName);
      if found.Err? {
        return Err(found.error);
      }
      var t := found.value;
      if pk in t.rows {
        r := Ok(Some(Parse(fields, pk, t.rows[pk])));
      } else {
        r := Ok(None);
      }
    }

    /** `get_all(where)`: scan the rows in key order and keep those meeting every condition. */
    method GetAll(where: Option<seq<Binding>>) returns (r: Result<seq<seq<Binding>>, Error>)
      ensures r == Selected(db.store, dbFile, tableName, fields, where)
    {
      if dbFile.None? {
        return Err(TypeError);
      }
      if where.Some? && Bound(where.value) == [] {
        return Err(SyntaxError);
      }
      var found := TableAt(db.store, dbFile, tableName);
      if found.Err? {
        return Err(found.error);
      }
      var t := found.value;
      var cond := if where.Some? then Bound(where.value) else [];
      var unknown := FirstUnknown(t.columns, Names(cond));
      if unknown.Some? {
        return Err(NoSuchColumn(unknown.value));
      }
      var out := Scan(t, cond);
      r := Ok(out);
    }

    /** The full scan of `get_all`: the rows in ascending key order, kept when they match. */
    method Scan(t: Table, cond: seq<Binding>) returns (out: seq<seq<Binding>>)
      ensures out == Records(t, fields, Matching(t, cond, Ascending(t.rows.Keys)))
    {
      var rest := t.rows.Keys;
      ghost var seen: seq<int> := [];
      out := [];
      while rest != {}
        invariant rest <= t.rows.Keys
        invariant forall i :: 0 <= i < |seen| ==> seen[i] in t.rows
        invariant Ascending(t.rows.Keys) == seen + Ascending(rest)
        invariant out == Records(t, fields, Matching(t, cond, seen))
        decreases |rest|
      {
        ghost var least := Least(rest);
        var m :| m in rest && forall x :: x in rest ==> m <= x;
        ScanStep(t, fields, cond, seen, rest, m);
        if Matches(t, m, cond) {
          out := out + [Parse(fields, m, t.rows[m])];
        }
        seen, rest := seen + [m], rest - {m};
      }
      assert seen == Ascending(t.rows.Keys);
    }

    /** `update`: write the object's attributes that are not `None` into its row. */
    method Update(obj: Instance) returns (r: Result<(), Error>)
      modifies db
      ensures var updated := Updated(old(db.store), dbFile, tableName, obj.pk, obj.attrs);
        (updated.Err? ==> r == Err(updated.error) && db.store == old(db.store))
        && (updated.Ok? ==> r.Ok? && db.store == updated.value)
    {
      var updated := Updated(db.store, dbFile, tableName, obj.pk, obj.attrs);
      if updated.Err? {
        return Err(updated.error);
      }
      db.store := updated.value;
      r := Ok(());
    }

    /** `delete`. */
    method Delete(pk: int) returns (r: Result<(), Error>)
      modifies db
      ensures var deleted := Deleted(old(db.store), dbFile, tableName, pk);
        (deleted.Err? ==> r == Err(deleted.error) && db.store == old(db.store))
        && (deleted.Ok? ==> r.Ok? && db.store == deleted.value)
    {
      if pk == 0 {
        return Err(ValueError);
      }
      var found := TableAt(db.store, dbFile, tableName);
      if found.Err? {
        return Err(found.error);
      }
      var t := found.value;
      db.store := db.store[(dbFile.value, tableName) := Table(t.columns, t.rows - {pk})];
      r := Ok(());
    }

    /**
     * `repository_factory`: one repository per model, all on the same file;
     * the first model whose repository cannot be opened ends it.
     */
    static method RepositoryFactory(db: Database, models: seq<RecordType>, dbFile: Option<string>)
      returns (r: Result<map<RecordType, Repository>, Error>)
      modifies db
      ensures r.Ok? ==> forall m :: m in r.value.Keys <==> m in models
      ensures r.Ok? ==> forall m :: m in r.value ==>
        r.value[m].db == db && r.value[m].cls == m && r.value[m].dbFile == dbFile && r.value[m].tableName == Lower(m.name)
      ensures r.Ok? ==> forall m :: m in r.value ==> Schema(m).Ok? && r.value[m].fields == Schema(m).value.1
      ensures var outcome := OpenedAll(old(db.store), dbFile, models);
        db.store == outcome.0 && (r.Ok? <==> outcome.1.None?) && (r.Err? ==> r.error == outcome.1.value)
    {
      var out: map<RecordType, Repository> := map[];
      for i := 0 to |models|
        invariant forall m :: m in out.Keys <==> m in models[..i]
        invariant forall m :: m in out ==>
          out[m].db == db && out[m].cls == m && out[m].dbFile == dbFile && out[m].tableName == Lower(m.name)
        invariant forall m :: m in out ==> Schema(m).Ok? && out[m].fields == Schema(m).value.1
        invariant OpenedAll(old(db.store), dbFile, models) == OpenedAll(db.store, dbFile, models[i..])
      {
        assert models[i..][1..] == models[i + 1..];
        var made := Open(db, models[i], dbFile);
        if made.Err? {
          return Err(made.error);
        }
        out := out[models[i] := made.value];
        assert models[..i + 1] == models[..i] + [models[i]];
      }
      assert models[..|models|] == models;
      r := Ok(out);
    }
  }
}
