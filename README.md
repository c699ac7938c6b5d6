# bookkeeper core in Dafny

bookkeeper is a small personal-finance application. It records expenses,
budgets and spending categories in SQLite. This project models the two parts
of it that hold its logic and proves properties of those models.

- **The tree utilities of `bookkeeper/utils.py`.**
  - `read_tree` turns an indented outline of category names into
    (child, parent) pairs. It keeps a stack of open levels and raises
    `IndentationError` on an unindent that matches no open level.
  - The category tree is a nested dictionary. Each node is keyed by its
    integer id and holds a `"name"` entry plus its children.
    `build_dict_tree_from_list`, `set_elem_in_tree`, `get_elem_in_tree`,
    `get_elem_parent` and `delete_elem_from_tree` build, search and prune it.
- **`SQLiteRepository` of `bookkeeper/repository/sqlite_repository.py`.** A
  generic repository of dataclass records. It keeps one table per class,
  named after the class in lower case. The table has a column `pk INTEGER
  PRIMARY KEY` and one column per annotated field. A `pk` of 0 marks a record
  that has not been stored yet.

Modules:

- `Results` (`results.dfy`): `Option` and `Result`.
- `Text` (`text.dfy`): the string functions the source calls:
  - `str.strip`, `str.lstrip` and `str.isspace`;
  - `str.lower` on ASCII;
  - `', '.join`;
  - `str(int)`.

  `Split` and `Count` are not operations of the source. They are proof
  devices: `SqlText.SetClauseSplits` splits a SET clause back into its
  assignments, and `SqlText.MarksCount` and `SqlText.InsertPlaceholders`
  count the `?` marks of a statement.
- `Outline` (`outline.dfy`): `_get_indent`, `_lines_with_indent` and
  `read_tree`.
  - `ReadLines` is the source's loop, with its `parents` stack. It is proved
    equal to the declarative `ReadTreeSpec`.
  - `ReadTreeSpec` states the rule directly: the parent of a line is the
    nearest earlier line with a smaller indentation.
  - A line is rejected when the nearest earlier line that is not indented
    deeper sits at a different indentation.
- `CategoryTree` (`category_tree.dfy`): the dictionary tree.
  - A dictionary level is a sequence of `Entry(id, Node(name, children))` in
    insertion order.
  - The recursive searches and updates are functions. The loops of
    `set_elem_in_tree`, `build_dict_tree_from_list` and
    `delete_elem_from_tree` are methods proved equal to those functions.
  - Their meaning is stated through the flat view `Flat`, which maps
    id -> (name, parent id).
- `SqlText` (`sql_text.dfy`): the SQL text the repository formats: CREATE,
  DROP, INSERT, the two SELECTs, UPDATE and DELETE. This includes the
  `get_all` WHERE clause and the `update` SET clause. These builders are
  not connected to `Added`, `Selected` or `Updated`. SQLite runs the text
  against the bound values, and the state model works on those values
  directly: it does not parse the statements.
- `SqliteRepository` (`sqlite_repository.dfy`): the repository as a state
  machine.
  - `Database` holds every table of every SQLite file, keyed by
    (file, table name). A table is its column list and a map from key to row.
  - `Instance` is a record object: its `pk` attribute and its other
    attributes in `__dict__` order.
  - `Repository` is the class. Each of its methods is proved to do exactly
    what a specification function says: `Added`, `Got`, `Selected`,
    `Updated`, `Deleted`, `Created` and `Dropped`. Lemmas then state what
    those functions mean.
  - Every error the source lets through is a value of `Error`:
    - `KeyError` from `fields.pop('pk')`;
    - `ValueError` from the `pk` guards;
    - `AttributeError`;
    - `TypeError` from `sqlite3.connect(None)`;
    - SQLite's syntax, no-such-table and no-such-column errors.

Where the description of the system and the code differ, the model follows
the code:

- The key column is `pk`, not `id`.
- `update` writes only the attributes that are not `None`. A `None` field
  keeps its stored value.
- `set_elem_in_tree` and `delete_elem_from_tree` search every entry before
  the first top-level match recursively. When ids repeat, a record can
  therefore be inserted (or a node deleted) in more than one place. The model
  keeps that behaviour; the view lemmas assume unique ids.
- `get_all` promises no row order. The model returns the rows in ascending
  key order, the order of a full scan of a rowid table.
- `reset_db_file` recreates the table with `IF NOT EXISTS`. The table comes
  out empty only when the new file does not already hold it.
- `repository_factory(models, None)` does not give repositories that share
  `None`. The first repository calls `sqlite3.connect(None)`, which raises
  `TypeError`.
- `CREATE` or `INSERT` with an empty field list, and a `where` whose values
  are all `None`, produce SQL text that SQLite rejects. The model returns
  `SyntaxError` for them.

## Model

| member | source | states |
|---|---|---|
| Text.LStrip | bookkeeper/utils.py:9 | `line.lstrip()`: the result is a suffix of the input, everything removed is whitespace, and the result does not start with whitespace |
| Text.RStrip | bookkeeper/utils.py:16 | the trailing half of `line.strip()`: the result is a prefix of the input, everything removed is whitespace, and the result does not end with whitespace |
| Text.StripNonBlank | bookkeeper/utils.py:14-16 | a line that is not blank strips to a non-empty name that neither starts nor ends with whitespace |
| Text.Lower | bookkeeper/repository/sqlite_repository.py:31 | `cls.__name__.lower()`: same length, no upper-case letter is left, and each character is unchanged or is its upper-case letter shifted to lower case |
| Text.NatToString | bookkeeper/repository/sqlite_repository.py:95 | the decimal text of a key is non-empty, all digits and has no leading zero |
| Text.IntToStringRoundTrip | bookkeeper/repository/sqlite_repository.py:95 | the decimal text written into a statement for a key parses back to that key, negative keys included |
| Text.IntDigits | bookkeeper/repository/sqlite_repository.py:95 | `str(i)` is digits after an optional minus sign |
| Text.JoinAvoids | bookkeeper/repository/sqlite_repository.py:53 | a character absent from the parts and the separator is absent from the join |
| Text.JoinEmpty | bookkeeper/repository/sqlite_repository.py:106-115 | joining parts that are never empty is empty exactly when there are no parts |
| Text.CountJoin | bookkeeper/repository/sqlite_repository.py:77-78 | joining parts that each hold `each` occurrences of a character, with a separator that holds none, gives `each` times the number of parts |
| Text.SplitJoin | bookkeeper/repository/sqlite_repository.py:131-140 | splitting a `','.join` of parts free of commas gives back the parts |
| Outline.GetIndent | bookkeeper/utils.py:8-9 | `_get_indent`: the number of leading whitespace characters; all of them are whitespace and the next one is not |
| Outline.LinesWithIndent | bookkeeper/utils.py:12-16 | `_lines_with_indent`: at most one entry per line, each with a non-empty name |
| Outline.LinesWithIndentOne | bookkeeper/utils.py:13-16 | a blank line yields nothing; any other line yields its indentation and its stripped text |
| Outline.LinesWithIndentAppend | bookkeeper/utils.py:13-16 | the lines are read one at a time: reading `a + b` gives the entries of `a` followed by those of `b` |
| Outline.LastBelow | bookkeeper/utils.py:52-54 | the nearest earlier line whose indentation is below a bound; all lines in between are at or above it |
| Outline.ReadTreeSpec | bookkeeper/utils.py:19-63 | `read_tree` accepts the outline exactly when every line is aligned, and then gives one pair per line, in order, named by the line |
| Outline.FirstMisalignedIsFirst | bookkeeper/utils.py:55-59 | the line reported is the first rejected line, and every line before it is accepted |
| Outline.StackIncreasing | bookkeeper/utils.py:45-54 | the `parents` stack starts at `(None, -1)`, its indentations strictly increase, and all lie below the current line's indentation |
| Outline.PushStep | bookkeeper/utils.py:50-51 | a line indented deeper than the previous one is accepted, its parent is the previous line, and the previous line is pushed |
| Outline.PopStep | bookkeeper/utils.py:53-54 | popping an open level deeper than the current line exposes that level's parent on top of the stack |
| Outline.MatchStep | bookkeeper/utils.py:55 | a line that unindents exactly to an open level is accepted and shares that level's parent |
| Outline.MismatchStep | bookkeeper/utils.py:55-59 | a line that unindents past every open level at its own indentation is rejected |
| Outline.FirstMisalignedAt | bookkeeper/utils.py:55-59 | when every earlier line is accepted and line `i` is not, `read_tree` raises `IndentationError` for line `i` |
| Outline.Advance | bookkeeper/utils.py:60 | once a line is accepted, the name on top of the stack is its parent in the output |
| Outline.AllAligned | bookkeeper/utils.py:49-63 | when every line is accepted, the result is one (name, parent) pair per line |
| Outline.Unindent | bookkeeper/utils.py:52-54 | the pop loop stops on the first open level not deeper than the line; every line popped past is deeper |
| Outline.ReadLine | bookkeeper/utils.py:50-59 | one pass of the loop accepts the line exactly when the specification does, and leaves the line's ancestors on the stack |
| Outline.ReadLines | bookkeeper/utils.py:45-63 | the loop of `read_tree` returns exactly `ReadTreeSpec`: the pairs, or `IndentationError` for the first rejected line |
| Outline.ReadTree | bookkeeper/utils.py:19-63 | `read_tree(lines)` is `ReadTreeSpec` of the non-blank lines |
| Outline.ReadTreeOnePairPerLine | bookkeeper/utils.py:20-23 | one pair per non-blank line, in input order, carrying the stripped name; the first line's parent is `None` |
| Outline.ReadTreeParentRule | bookkeeper/utils.py:50-60 | a deeper line's parent is the previous line; a line at the same indentation shares the previous line's parent |
| Outline.NeighbourParent | bookkeeper/utils.py:50-60 | between neighbouring lines: a deeper line's parent is the line before it, and a line at the same indentation has the same parent |
| Outline.ReadTreeTopological | bookkeeper/utils.py:20-23 | every parent named is an earlier, less indented line of the output (topological order) |
| Outline.ReadTreeError | bookkeeper/utils.py:52-59 | the rejected line unindents, and every earlier line at its indentation has been closed by a shallower line in between |
| Outline.ReadTreeDocExample | bookkeeper/utils.py:25-33 | the documented text, `parent` and its children indented by four and eight blanks, is read into the four documented pairs |
| Outline.Spaces | bookkeeper/utils.py:26-29 | `n` blanks |
| Outline.LStripSpaces | bookkeeper/utils.py:9 | `lstrip` removes exactly the leading blanks before a word |
| Outline.IndentedLine | bookkeeper/utils.py:8-16 | a word indented by `n` blanks is read as that word at indentation `n` |
| Outline.LinesWithIndentFour | bookkeeper/utils.py:12-16 | four lines are read one after another |
| Outline.FourLinesIndented | bookkeeper/utils.py:25-29 | any four words indented by 0, 4, 8 and 4 blanks are read as those words at those indentations |
| Outline.DocExampleText | bookkeeper/utils.py:25-29 | the documented text is read as `parent` at 0, `child1` at 4, `child2` at 8 and `child3` at 4 |
| Outline.DocExamplePairs | bookkeeper/utils.py:31-33 | those four measured lines give the four documented pairs |
| CategoryTree.Size | bookkeeper/utils.py:76-127 | the measure of the recursions: the first entry and the rest of a level are each smaller than the level |
| CategoryTree.SizeChild | bookkeeper/utils.py:80-82 | the children of any entry are smaller than the level holding it |
| CategoryTree.KeysFlat | bookkeeper/utils.py:76-99 | the flat view holds exactly the ids that occur in the tree |
| CategoryTree.Find | bookkeeper/utils.py:76-86 | `get_elem_in_tree` finds a node exactly when `pk` occurs in the tree |
| CategoryTree.FindParent | bookkeeper/utils.py:89-99 | `get_elem_parent` gives a parent only for an id that occurs, and that parent is `prev_parent` or an id of the tree |
| CategoryTree.FindFlat | bookkeeper/utils.py:76-99 | `get_elem_in_tree` finds an id exactly when it occurs, with its name; `get_elem_parent` gives its enclosing key, and `None` for a top-level or absent id |
| CategoryTree.FindInside | bookkeeper/utils.py:76-86 | the node found for `pk` lies inside the tree: `pk` occurs, and every id below the node found is an id of the tree (`FindSubtree` states which ids, with unique ids) |
| CategoryTree.FlatParents | bookkeeper/utils.py:80-86 | every parent in the view is the enclosing key or an id of the tree |
| CategoryTree.FindSubtreeView | bookkeeper/utils.py:76-86 | with unique ids, every node below the node found appears in the tree's view with the same name and parent |
| CategoryTree.FindSubtreeClosed | bookkeeper/utils.py:76-86 | with unique ids, a node of the view whose parent is `pk` or below `pk` is itself below `pk` |
| CategoryTree.FindSubtree | bookkeeper/utils.py:76-86 | with unique ids, the children found for `pk` are exactly `pk`'s descendants, with the names and parents the tree gives them |
| CategoryTree.TopIndex | bookkeeper/utils.py:107 | the position of the first entry of a level with a given key, or -1 when no entry has it |
| CategoryTree.Put | bookkeeper/utils.py:107 | `tree[pk] = {"name": name}` replaces the value of an existing key in place (dropping its subtree) and otherwise appends |
| CategoryTree.InsertedUnder | bookkeeper/utils.py:109-115 | inserting under a parent keeps the top level's ids and names, and adds no id besides the new one |
| CategoryTree.Inserted | bookkeeper/utils.py:102-115 | `set_elem_in_tree`: a record without parent becomes a leaf of the top level; one with a parent leaves the top level's ids as they were; no id but its own can appear |
| CategoryTree.InsertedUnderAbsent | bookkeeper/utils.py:109-115 | a record whose parent occurs nowhere leaves the tree unchanged |
| CategoryTree.KeysAppend | bookkeeper/utils.py:114 | appending an entry to a level adds its id and the ids below it |
| CategoryTree.KeysReplace | bookkeeper/utils.py:107 | replacing an entry of a level adds no ids besides the new entry's |
| CategoryTree.AppendLeaf | bookkeeper/utils.py:114 | appending a fresh leaf keeps the ids unique and adds exactly that leaf to the view |
| CategoryTree.InsertedUnderUnique | bookkeeper/utils.py:109-115 | inserting a fresh id keeps the ids unique |
| CategoryTree.InsertedUnderView | bookkeeper/utils.py:109-115 | inserting a fresh id under a parent that occurs adds exactly that id to the view, under that parent |
| CategoryTree.InsertedFresh | bookkeeper/utils.py:102-115 | `set_elem_in_tree` of a fresh record whose parent is `None` or present adds exactly that record to the view and keeps the ids unique |
| CategoryTree.KeysHasTop | bookkeeper/utils.py:80-86 | every key of the top level is an id of the tree |
| CategoryTree.Built | bookkeeper/utils.py:66-73 | `build_dict_tree_from_list`: every id of the tree is the pk of a record |
| CategoryTree.BuiltView | bookkeeper/utils.py:66-73 | building from records whose parents come first gives unique ids, and its view is exactly what the records say |
| CategoryTree.DeletedAbsent | bookkeeper/utils.py:118-127 | deleting an absent id is a no-op |
| CategoryTree.Deleted | bookkeeper/utils.py:118-127 | `delete_elem_from_tree` never adds an id |
| CategoryTree.DeletedUnique | bookkeeper/utils.py:118-127 | deleting keeps the ids unique |
| CategoryTree.DeletedView | bookkeeper/utils.py:118-127 | with unique ids, deleting removes exactly `pk` and its descendants from the view; every other node keeps its name and parent |
| CategoryTree.DeletedKeys | bookkeeper/utils.py:118-127 | with unique ids, the ids left are the old ids minus `pk`'s subtree |
| CategoryTree.DeletedGone | bookkeeper/utils.py:118-127 | after deleting, `get_elem_in_tree(pk)` is `None`, and a second delete changes nothing |
| CategoryTree.InsertUnder | bookkeeper/utils.py:109-115 | the loop of `set_elem_in_tree`, with its `break`, computes `InsertedUnder` |
| CategoryTree.Insert | bookkeeper/utils.py:102-115 | `set_elem_in_tree` computes `Inserted` |
| CategoryTree.BuildTree | bookkeeper/utils.py:66-73 | `build_dict_tree_from_list` computes `Built`, the left fold of `set_elem_in_tree` from the empty tree |
| CategoryTree.Delete | bookkeeper/utils.py:118-127 | the loop of `delete_elem_from_tree`, with its `break`, computes `Deleted` |
| CategoryTree.ChainExample | bookkeeper/utils.py:66-127 | A -> B -> C built from three records is found, parented and pruned as expected |
| CategoryTree.ChainBuilt | bookkeeper/utils.py:66-73 | the records A, B under A and C under B build the nested tree A -> B -> C |
| SqlText.NumericBindings | bookkeeper/repository/sqlite_repository.py:107-110 | the first comprehension keeps only `int`/`float` values |
| SqlText.TextBindings | bookkeeper/repository/sqlite_repository.py:111-114 | the second comprehension keeps only values that are neither numbers nor `None` |
| SqlText.Render | bookkeeper/repository/sqlite_repository.py:107 | an integer is written as decimal text that reads back as that integer |
| SqlText.Comparison | bookkeeper/repository/sqlite_repository.py:107-114 | `key = value`: the value is written bare exactly when it is a number, and in single quotes otherwise |
| SqlText.Bound | bookkeeper/repository/sqlite_repository.py:106-115 | the clause keeps only pairs of the input whose value is not `None`, numbers before the others |
| SqlText.BoundPermutation | bookkeeper/repository/sqlite_repository.py:105-115 | the numeric conditions followed by the quoted ones are a permutation of the pairs whose value is not `None` |
| SqlText.BoundEmpty | bookkeeper/repository/sqlite_repository.py:105-115 | the clause has no condition exactly when every value is `None` |
| SqlText.Comparisons | bookkeeper/repository/sqlite_repository.py:106-114 | one comparison per value that is not `None` |
| SqlText.ClauseEmpty | bookkeeper/repository/sqlite_repository.py:106-115 | a joined clause is empty exactly when every value is `None` |
| SqlText.WhereClause | bookkeeper/repository/sqlite_repository.py:106-115 | the WHERE conditions are empty exactly when every value of `where` is `None` |
| SqlText.SetClause | bookkeeper/repository/sqlite_repository.py:131-140 | the SET assignments are empty exactly when every attribute is `None` |
| SqlText.SetClauseSplits | bookkeeper/repository/sqlite_repository.py:131-140 | when names and values hold no comma, the SET clause splits back into exactly its comparisons |
| SqlText.ComparisonNoComma | bookkeeper/repository/sqlite_repository.py:132-136 | a comparison holds a comma only when its name or its value does: an integer is written without one |
| SqlText.CreateTableSql | bookkeeper/repository/sqlite_repository.py:51-54 | the CREATE statement, run without parameters, holds no placeholder unless a name brings one |
| SqlText.DropTableSql | bookkeeper/repository/sqlite_repository.py:71 | the DROP statement holds no placeholder unless the table name brings one |
| SqlText.Placeholders | bookkeeper/repository/sqlite_repository.py:78 | `"?" * len(fields)` joined with `, ` is one `?` per field |
| SqlText.NamesCount | bookkeeper/repository/sqlite_repository.py:77 | the column-name list holds no `?` when no field name does |
| SqlText.MarksCount | bookkeeper/repository/sqlite_repository.py:78 | the placeholder list holds exactly `n` question marks |
| SqlText.InsertPlaceholders | bookkeeper/repository/sqlite_repository.py:77-84 | the pieces of the INSERT hold one `?` per field when no name holds one |
| SqlText.InsertSql | bookkeeper/repository/sqlite_repository.py:77-86 | the INSERT holds one `?` per field, so the values list, one per field, binds every placeholder |
| SqlText.SelectByPkSql | bookkeeper/repository/sqlite_repository.py:95 | the key written after `WHERE pk=` reads back as the key asked for |
| SqlText.SelectAllSql | bookkeeper/repository/sqlite_repository.py:104-117 | a `where` whose values are all `None` leaves ` WHERE ` with nothing after it |
| SqlText.UpdateSql | bookkeeper/repository/sqlite_repository.py:130-141 | the key written after `WHERE pk=` reads back as the object's key |
| SqlText.DeleteSql | bookkeeper/repository/sqlite_repository.py:151 | the key written after `WHERE pk=` reads back as the key asked for |
| SqliteRepository.Names | bookkeeper/repository/sqlite_repository.py:59 | the names of a list of bindings, position by position |
| SqliteRepository.Without | bookkeeper/repository/sqlite_repository.py:33 | `fields.pop('pk')`: the names left are those of the input other than `pk` |
| SqliteRepository.Schema | bookkeeper/repository/sqlite_repository.py:29-35 | `KeyError('pk')` exactly when the class has no `pk` annotation; otherwise the lower-cased class name and every other annotated field |
| SqliteRepository.SchemaOrder | bookkeeper/repository/sqlite_repository.py:32-33 | the fields keep their declaration order, with `pk` taken out of its place |
| SqliteRepository.WithoutAt | bookkeeper/repository/sqlite_repository.py:33 | removing a name that occurs once at position `i` leaves the rest in order |
| SqliteRepository.Lookup | bookkeeper/repository/sqlite_repository.py:79 | `getattr(obj, x)`: found exactly when the object has the attribute, and the value found is the attribute's |
| SqliteRepository.LookupUnique | bookkeeper/repository/sqlite_repository.py:79 | with distinct names, the value read for a name is the one bound to it |
| SqliteRepository.IndexOf | bookkeeper/repository/sqlite_repository.py:83-86 | the first position of a column among the INSERT's names, or none when absent |
| SqliteRepository.FieldValues | bookkeeper/repository/sqlite_repository.py:79 | one value per field, each the object's attribute; otherwise `AttributeError` for the first missing field |
| SqliteRepository.Zip | bookkeeper/repository/sqlite_repository.py:59 | `zip` pairs names and values position by position, up to the shorter |
| SqliteRepository.Parse | bookkeeper/repository/sqlite_repository.py:57-63 | `__parse_query_to_class`: the first keyword is `pk` with the row's key; for a row of the fields' width, each field is paired with its value in order |
| SqliteRepository.TableAt | bookkeeper/repository/sqlite_repository.py:49 | connecting to `None` is a `TypeError`; a missing table is "no such table"; otherwise the table |
| SqliteRepository.FirstUnknown | bookkeeper/repository/sqlite_repository.py:83-86 | none exactly when every name is `pk` or a column; otherwise a name that is neither |
| SqliteRepository.Created | bookkeeper/repository/sqlite_repository.py:45-55 | after `CREATE TABLE IF NOT EXISTS` succeeds, the table exists in the file |
| SqliteRepository.Dropped | bookkeeper/repository/sqlite_repository.py:65-72 | after `DROP TABLE IF EXISTS` succeeds, the table is gone from the file |
| SqliteRepository.RowFor | bookkeeper/repository/sqlite_repository.py:83-86 | the row an INSERT writes has one value per table column |
| SqliteRepository.RowForOwnColumns | bookkeeper/repository/sqlite_repository.py:83-86 | when the table's columns are the fields, the row stored is the values given, in field order |
| SqliteRepository.Added | bookkeeper/repository/sqlite_repository.py:74-89 | `ValueError` unless `pk` is 0; succeeds exactly when every field is read, the file is given, there are fields, the table exists and knows every field; then the new key holds a row |
| SqliteRepository.Got | bookkeeper/repository/sqlite_repository.py:91-99 | succeeds exactly when the table exists in the file; the record is found exactly when a row has the key, and carries that key as `pk` |
| SqliteRepository.AddThenGet | bookkeeper/repository/sqlite_repository.py:74-99 | `get(add(obj))` is the record with the new key as `pk` followed by each field's value, in field order |
| SqliteRepository.AddKeepsOthers | bookkeeper/repository/sqlite_repository.py:80-86 | `add` changes no other table and no other key |
| SqliteRepository.Least | bookkeeper/repository/sqlite_repository.py:119-120 | a non-empty set of keys has a least key (the next row of the scan) |
| SqliteRepository.Ascending | bookkeeper/repository/sqlite_repository.py:119-120 | the scan visits only keys of the table |
| SqliteRepository.AscendingSorted | bookkeeper/repository/sqlite_repository.py:119-120 | the scan visits every key exactly once, in strictly ascending order |
| SqliteRepository.Matching | bookkeeper/repository/sqlite_repository.py:105-120 | the keys selected are keys of the table |
| SqliteRepository.MatchingSpec | bookkeeper/repository/sqlite_repository.py:105-120 | a key is selected exactly when its row meets every condition, and the selection keeps the scan's order |
| SqliteRepository.Records | bookkeeper/repository/sqlite_repository.py:122 | one record per key, each the row parsed as `get` parses it |
| SqliteRepository.Selected | bookkeeper/repository/sqlite_repository.py:101-123 | `TypeError` for no file; a successful `get_all` read an existing table, and every record carries the key of a stored row |
| SqliteRepository.SetRow | bookkeeper/repository/sqlite_repository.py:130-142 | the UPDATE keeps the row's length |
| SqliteRepository.Updated | bookkeeper/repository/sqlite_repository.py:125-143 | `AttributeError` without `pk`, `ValueError` for key 0; otherwise succeeds exactly when the file is given, some attribute is not `None`, the table exists and knows every attribute assigned |
| SqliteRepository.UpdateKeepsOthers | bookkeeper/repository/sqlite_repository.py:125-143 | `update` changes no other table and no row but the one with the object's key |
| SqliteRepository.UpdatedRow | bookkeeper/repository/sqlite_repository.py:130-142 | the updated row is the old row with the SET clause applied |
| SqliteRepository.SetRowKeeps | bookkeeper/repository/sqlite_repository.py:131-140 | each column takes the object's value when that value is not `None`, and keeps its old value otherwise |
| SqliteRepository.UpdateThenGet | bookkeeper/repository/sqlite_repository.py:125-143 | after `update`, each column holds the object's attribute when it is not `None`, and its old value otherwise |
| SqliteRepository.BoundLookup | bookkeeper/repository/sqlite_repository.py:131-139 | the SET clause assigns a column exactly when the object's attribute is present and not `None`, and assigns that value |
| SqliteRepository.BoundLookupFound | bookkeeper/repository/sqlite_repository.py:131-139 | a name assigned by the SET clause is an attribute of the object whose value is not `None` |
| SqliteRepository.BoundLookupKept | bookkeeper/repository/sqlite_repository.py:131-139 | every attribute whose value is not `None` is assigned by the SET clause |
| SqliteRepository.NotNullHas | bookkeeper/repository/sqlite_repository.py:134 | every pair whose value is not `None` survives the filter |
| SqliteRepository.UpdateAbsent | bookkeeper/repository/sqlite_repository.py:141-142 | updating a key with no row changes nothing |
| SqliteRepository.Deleted | bookkeeper/repository/sqlite_repository.py:145-153 | `ValueError` for key 0; otherwise succeeds exactly when the table exists in the file, and then no row has the key |
| SqliteRepository.DeleteThenGet | bookkeeper/repository/sqlite_repository.py:145-153 | after `delete(pk)`, `get(pk)` is `None`, every other key reads back as before, and deleting again changes nothing |
| SqliteRepository.DeleteAbsent | bookkeeper/repository/sqlite_repository.py:145-153 | deleting a key with no row changes nothing |
| SqliteRepository.SelectedRows | bookkeeper/repository/sqlite_repository.py:101-123 | `get_all(where)` gives one record per matching row and no other, in ascending key order, each as `get` reads it |
| SqliteRepository.SelectedTable | bookkeeper/repository/sqlite_repository.py:119-122 | a successful `get_all` read the repository's table in its file |
| SqliteRepository.WhereAllNone | bookkeeper/repository/sqlite_repository.py:105-115 | a `where` whose values are all `None` leaves an empty WHERE clause, which SQLite rejects |
| SqliteRepository.ResetEmpties | bookkeeper/repository/sqlite_repository.py:37-43 | resetting to the same file leaves the table empty; a file that already holds the table keeps its rows |
| SqliteRepository.FreshKey | bookkeeper/repository/sqlite_repository.py:87 | a positive key above every key in use exists, so an insert can always be given a new key |
| SqliteRepository.OpenedAll | bookkeeper/repository/sqlite_repository.py:155-163 | the tables `repository_factory` creates, one model at a time, stopping at the first error |
| SqliteRepository.OpenedAllKeeps | bookkeeper/repository/sqlite_repository.py:155-163 | creating the repositories never removes or changes a table that was there |
| SqliteRepository.OpenedAllSucceeds | bookkeeper/repository/sqlite_repository.py:29-35 | the factory succeeds exactly when the models are none or the file is given, and every model has `pk` and other fields; then every model's table exists in the file |
| SqliteRepository.OpenedAllNoFile | bookkeeper/repository/sqlite_repository.py:29-35 | without a file the first model fails: `KeyError` when it has no `pk`, `TypeError` otherwise, and nothing changes |
| SqliteRepository.Database.constructor | bookkeeper/repository/sqlite_repository.py:49 | the SQLite files start as the given state |
| SqliteRepository.Instance.constructor | bookkeeper/models/expense.py:25 | a record object with its `pk` and its other attributes |
| SqliteRepository.Repository.Init | bookkeeper/repository/sqlite_repository.py:29-34 | the repository's file, table name, fields and class |
| SqliteRepository.Repository.Open | bookkeeper/repository/sqlite_repository.py:29-35 | `KeyError` for a class without `pk`; otherwise the table is created and the repository refers to it |
| SqliteRepository.Repository.CreateTable | bookkeeper/repository/sqlite_repository.py:45-55 | the new state is `Created`, or the error with nothing changed |
| SqliteRepository.Repository.DropTable | bookkeeper/repository/sqlite_repository.py:65-72 | the new state is `Dropped`, or the error with nothing changed |
| SqliteRepository.Repository.ResetDbFile | bookkeeper/repository/sqlite_repository.py:37-43 | drop in the old file, repoint, create in the new file, stopping at the first error |
| SqliteRepository.Repository.Add | bookkeeper/repository/sqlite_repository.py:74-89 | `ValueError` unless `pk` is 0; on success a fresh positive key is written to `obj.pk`, returned, and holds the row `Added` describes |
| SqliteRepository.Repository.Get | bookkeeper/repository/sqlite_repository.py:91-99 | the result is `Got`: the parsed row with that key, or `None` |
| SqliteRepository.Repository.GetAll | bookkeeper/repository/sqlite_repository.py:101-123 | the result is `Selected`: the error, or the matching rows in key order |
| SqliteRepository.Repository.Scan | bookkeeper/repository/sqlite_repository.py:119-122 | the scan loop collects the matching rows in ascending key order |
| SqliteRepository.Repository.Update | bookkeeper/repository/sqlite_repository.py:125-143 | the new state is `Updated`, or the error with nothing changed |
| SqliteRepository.Repository.Delete | bookkeeper/repository/sqlite_repository.py:145-153 | `ValueError` for key 0; otherwise only the row with that key is removed |
| SqliteRepository.Repository.RepositoryFactory | bookkeeper/repository/sqlite_repository.py:155-163 | the new state is `OpenedAll`, the tables created model by model; it succeeds exactly when the fold does, and then gives one repository per model on the given file, for its lower-cased table with its fields; otherwise it fails with the fold's error |

## Left out

- Connections, cursors, `con.close()` and `PRAGMA foreign_keys = ON`: the SQLite engine is abstracted as a map from (file, table) to tables.
- How SQLite chooses `lastrowid`: `Add` takes any fresh positive key, and `Added` is stated for every possible key.
- The `DB_FILE` default path: the file is always passed explicitly.
- Quote escaping and SQL injection: a value containing `'` or SQL text is treated as the plain value it is meant to be.
- SQLite type affinity and cross-type comparisons: `Num` is compared by its text, and `pk = '5'` does not match key 5.
- `datetime` values are carried as their text (`Str`), `bool` values as `Int`, and `float` values as the text `str()` gives for them (`Num`). Floating point is not modelled.
- `SqliteRepository.Repository.GetAll`: takes no `subquery`. Appending free SQL text after the WHERE clause (`SqlText.SelectAllSql` builds the text) would mean modelling SQL parsing.
- The operator precedence in the comprehensions (`a and b and isinstance(v, int) or isinstance(v, float)`): it differs from the evident intent only for a `float` `pk`, and `pk` is always an `int`.
- `str.lower` on non-ASCII letters: `Text.Lower` folds only `A`-`Z`.
- Constructing the dataclass in `__parse_query_to_class`: `Parse` returns the keyword arguments. The `TypeError` a dataclass raises for a row whose width differs from its fields is not modelled.
- A table created with other columns than the repository's fields is kept with its own column list. `AddThenGet` assumes the columns are the fields.
- In-place mutation and aliasing of the nested dictionaries: the category tree is a value, and the methods return the new tree.
- The `__main__` block of `bookkeeper/utils.py`: it passes plain lists where `set_elem_in_tree` reads attributes, so it does not run as written.
- The user interface, `bookkeeper/workapp.py` and the models beyond the shapes of their records: they hold no logic of the core.
