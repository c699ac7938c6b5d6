/**
 * The category tree of bookkeeper/utils.py: a nested dictionary in which
 * every node is keyed by its integer id and holds a "name" entry followed by
 * its child nodes, in insertion order.
 *
 * A dictionary level is a sequence of entries (Python dictionaries keep
 * insertion order and the searches return the first match in that order);
 * the "name" entry becomes the `name` field of a node, which the searches
 * never descend into. The functions below are the specification; the
 * methods that build and change a tree with loops are proved against them.
 * Properties are stated against `Flat`, the flat view id -> (name, parent).
 */
module CategoryTree {
  import opened Results

  datatype Node = Node(name: string, children: seq<Entry>)

  /** One key of a dictionary level: a category id and the node stored under it. */
  datatype Entry = Entry(id: int, node: Node)

  /** A category record as read from the repository: `(name, parent, pk)`. */
  datatype Rec = Rec(name: string, parent: Option<int>, pk: int)

  // ---- views of a tree --------------------------------------------------------

  /** The number of entries in the tree, at every depth: the measure the recursions decrease. */
  function Size(t: seq<Entry>): (r: nat)
    ensures t != [] ==> EntrySize(t[0]) < r && Size(t[1..]) < r
  {
    if t == [] then 0 else 1 + EntrySize(t[0]) + Size(t[1..])
  }

  function EntrySize(e: Entry): nat {
    Size(e.node.children)
  }

  /** The children of any entry of a level are smaller than the level. */
  lemma {:induction false} SizeChild(t: seq<Entry>, i: nat)
    requires i < |t|
    ensures Size(t[i].node.children) < Size(t)
  {
    if i > 0 {
      SizeChild(t[1..], i - 1);
    }
  }

  /** Every id that occurs anywhere in the tree. */
  function Keys(t: seq<Entry>): set<int>
    decreases Size(t)
  {
    if t == [] then {}
    else {t[0].id} + Keys(t[0].node.children) + Keys(t[1..])
  }

  /** No id occurs twice anywhere in the tree (the ids are primary keys). */
  predicate Unique(t: seq<Entry>)
    decreases Size(t)
  {
    t == [] ||
    var c, rest := t[0].node.children, t[1..];
    && Unique(c) && Unique(rest)
    && t[0].id !in Keys(c) && t[0].id !in Keys(rest)
    && Keys(c) !! Keys(rest)
  }

  /**
   * The flat view: each id with its name and the id of the enclosing node
   * (`par` for the entries of this level). Where an id occurs twice, the first
   * occurrence in pre-order wins, as in the searches.
   */
  function Flat(t: seq<Entry>, par: Option<int>): map<int, (string, Option<int>)>
    decreases Size(t)
  {
    if t == [] then map[]
    else Flat(t[1..], par) + Flat(t[0].node.children, Some(t[0].id)) + map[t[0].id := (t[0].node.name, par)]
  }

  lemma {:induction false} KeysFlat(t: seq<Entry>, par: Option<int>)
    ensures Flat(t, par).Keys == Keys(t)
    decreases Size(t)
  {
    if t != [] {
      KeysFlat(t[1..], par);
      KeysFlat(t[0].node.children, Some(t[0].id));
    }
  }

  // ---- get_elem_in_tree, get_elem_parent ----------------------------------------

  /** `get_elem_in_tree`: the node (name and children) of the first key equal to `pk`, depth first. */
  function Find(t: seq<Entry>, pk: int): (r: Option<Node>)
    ensures r.Some? <==> pk in Keys(t)
    decreases Size(t)
  {
    if t == [] then None
    else if t[0].id != pk then
      match Find(t[0].node.children, pk)
      case Some(n) => Some(n)
      case None => Find(t[1..], pk)
    else Some(t[0].node)
  }

  /** `get_elem_parent`: the key enclosing the first match; `prev` is the key of this level. */
  function FindParent(t: seq<Entry>, pk: int, prev: Option<int>): (r: Option<int>)
    ensures r.Some? ==> pk in Keys(t)
    ensures r.Some? && r != prev ==> r.value in Keys(t)
    decreases Size(t)
  {
    if t == [] then None
    else if t[0].id != pk then
      match FindParent(t[0].node.children, pk, Some(t[0].id))
      case Some(p) => Some(p)
      case None => FindParent(t[1..], pk, prev)
    else prev
  }

  /**
   * Both searches agree with the flat view: an id is found exactly when it
   * occurs, with its name, and its parent is the enclosing key. An absent id
   * and a top-level id both give no parent.
   */
  lemma {:induction false} FindFlat(t: seq<Entry>, pk: int, par: Option<int>)
    ensures Find(t, pk).Some? <==> pk in Flat(t, par)
    ensures pk in Flat(t, par) ==> Find(t, pk).value.name == Flat(t, par)[pk].0
    ensures pk in Flat(t, par) ==> FindParent(t, pk, par) == Flat(t, par)[pk].1
    ensures pk !in Flat(t, par) ==> FindParent(t, pk, par) == None
    ensures par.Some? && pk in Flat(t, par) ==> FindParent(t, pk, par).Some?
    decreases Size(t)
  {
    if t != [] && t[0].id != pk {
      FindFlat(t[0].node.children, pk, Some(t[0].id));
      FindFlat(t[1..], pk, par);
    }
  }

  /** The subtree found is the one stored under `pk`: its ids all occur in the tree. */
  lemma {:induction false} FindInside(t: seq<Entry>, pk: int)
    requires Find(t, pk).Some?
    ensures pk in Keys(t) && Keys(Find(t, pk).value.children) <= Keys(t)
    decreases Size(t)
  {
    if t[0].id != pk {
      if Find(t[0].node.children, pk).Some? {
        FindInside(t[0].node.children, pk);
      } else {
        FindInside(t[1..], pk);
      }
    }
  }

  /** Every parent in the view is the enclosing key `par` or an id of the tree. */
  lemma {:induction false} FlatParents(t: seq<Entry>, par: Option<int>)
    ensures forall k :: k in Flat(t, par) ==>
      Flat(t, par)[k].1 == par || (Flat(t, par)[k].1.Some? && Flat(t, par)[k].1.value in Keys(t))
    decreases Size(t)
  {
    if t != [] {
      FlatParents(t[1..], par);
      FlatParents(t[0].node.children, Some(t[0].id));
    }
  }

  /**
   * With unique ids, the children `get_elem_in_tree` returns for `pk` carry
   * the names and parents the tree gives those ids.
   */
  lemma {:induction false} FindSubtreeView(t: seq<Entry>, pk: int, par: Option<int>)
    requires Unique(t) && Find(t, pk).Some?
    ensures var sub := Flat(Find(t, pk).value.children, Some(pk));
      forall k :: k in sub ==> k in Flat(t, par) && Flat(t, par)[k] == sub[k]
    decreases Size(t)
  {
    var id, ch, rest := t[0].id, t[0].node.children, t[1..];
    var c := Find(t, pk).value.children;
    KeysFlat(ch, Some(id));
    KeysFlat(rest, par);
    KeysFlat(c, Some(pk));
    if id != pk {
      if Find(ch, pk).Some? {
        FindSubtreeView(ch, pk, Some(id));
        FindInside(ch, pk);
      } else {
        FindSubtreeView(rest, pk, par);
        FindInside(rest, pk);
      }
    }
  }

  /**
   * With unique ids, nothing outside the children returned for `pk` hangs
   * under `pk` or under one of them: the subtree is closed under the parent
   * relation of the view.
   */
  lemma {:induction false} FindSubtreeClosed(t: seq<Entry>, pk: int, par: Option<int>)
    requires Unique(t) && Find(t, pk).Some?
    requires par.None? || par.value !in Keys(t)
    ensures var c := Find(t, pk).value.children; var v := Flat(t, par);
      forall k :: k in v && v[k].1.Some? && (v[k].1.value == pk || v[k].1.value in Keys(c)) ==> k in Keys(c)
    decreases Size(t)
  {
    var id, ch, rest := t[0].id, t[0].node.children, t[1..];
    var c := Find(t, pk).value.children;
    var v := Flat(t, par);
    var below := Flat(rest, par) + Flat(ch, Some(id));
    assert v == below + map[id := (t[0].node.name, par)];
    KeysFlat(ch, Some(id));
    KeysFlat(rest, par);
    FlatParents(ch, Some(id));
    FlatParents(rest, par);
    FindInside(t, pk);
    // the ids the conclusion is about: pk and those of c
    var inner := {pk} + Keys(c);
    if id == pk {
      assert inner !! Keys(rest);
    } else if Find(ch, pk).Some? {
      FindSubtreeClosed(ch, pk, Some(id));
      FindInside(ch, pk);
      assert inner <= Keys(ch);
    } else {
      FindSubtreeClosed(rest, pk, par);
      FindInside(rest, pk);
      assert inner <= Keys(rest) && id !in inner && inner !! Keys(ch);
    }
    forall k | k in v && v[k].1.Some? && v[k].1.value in inner
      ensures k in Keys(c)
    {
      if k == id {
        assert false;
      } else if k in Flat(ch, Some(id)) {
        assert v[k] == Flat(ch, Some(id))[k];
      } else {
        assert v[k] == Flat(rest, par)[k];
        if id == pk || Find(ch, pk).Some? {
          assert false;
        }
      }
    }
  }

  /**
   * `get_elem_in_tree(tree, pk)` on a tree with unique ids returns the
   * subtree stored under `pk`: each id in it has the name and parent the tree
   * gives it, each hangs under `pk` or under another id of it, and every id
   * of the tree that hangs under `pk` or under one of them is in it.
   */
  lemma FindSubtree(t: seq<Entry>, pk: int)
    requires Unique(t) && Find(t, pk).Some?
    ensures var c := Find(t, pk).value.children; var v := Flat(t, None);
      && Flat(c, Some(pk)).Keys == Keys(c)
      && (forall k :: k in Keys(c) ==> k in v && v[k] == Flat(c, Some(pk))[k])
      && (forall k :: k in Keys(c) ==> v[k].1 == Some(pk) || (v[k].1.Some? && v[k].1.value in Keys(c)))
      && (forall k :: k in v && v[k].1.Some? && (v[k].1.value == pk || v[k].1.value in Keys(c)) ==> k in Keys(c))
  {
    var c := Find(t, pk).value.children;
    KeysFlat(c, Some(pk));
    FlatParents(c, Some(pk));
    FindSubtreeView(t, pk, None);
    FindSubtreeClosed(t, pk, None);
  }

  // ---- set_elem_in_tree, build_dict_tree_from_list --------------------------------

  /** Index of the key `k` on one dictionary level, or -1. */
  function TopIndex(t: seq<Entry>, k: int): (r: int)
    ensures -1 <= r < |t|
    ensures r >= 0 ==> t[r].id == k && forall j :: 0 <= j < r ==> t[j].id != k
    ensures r < 0 ==> forall j :: 0 <= j < |t| ==> t[j].id != k
  {
    if t == [] then -1
    else if t[0].id == k then 0
    else var j := TopIndex(t[1..], k); if j < 0 then -1 else j + 1
  }

  /** `level[k] = n` on one dictionary level: replaces the value of an existing key in place, else appends. */
  function Put(t: seq<Entry>, k: int, n: Node): (r: seq<Entry>)
    ensures TopIndex(t, k) >= 0 ==> r == t[TopIndex(t, k) := Entry(k, n)]
    ensures TopIndex(t, k) < 0 ==> r == t + [Entry(k, n)]
  {
    if t == [] then [Entry(k, n)]
    else if t[0].id == k then [Entry(k, n)] + t[1..]
    else [t[0]] + Put(t[1..], k, n)
  }

  /**
   * The loop of `set_elem_in_tree` for a record with parent `p`: every entry
   * before the first key equal to `p` is searched recursively; under that key
   * the record is stored as `{"name": name}`; the entries after it are left alone.
   */
  function InsertedUnder(t: seq<Entry>, p: int, k: int, name: string): (r: seq<Entry>)
    ensures |r| == |t| && forall i :: 0 <= i < |t| ==> r[i].id == t[i].id && r[i].node.name == t[i].node.name
    ensures Keys(r) <= Keys(t) + {k}
    decreases Size(t)
  {
    if t == [] then []
    else if t[0].id != p then
      var r := [Entry(t[0].id, Node(t[0].node.name, InsertedUnder(t[0].node.children, p, k, name)))]
        + InsertedUnder(t[1..], p, k, name);
      assert r[1..] == InsertedUnder(t[1..], p, k, name);
      r
    else
      var leaf := Entry(k, Node(name, []));
      var c := t[0].node.children;
      KeysAppend(c, leaf);
      var i := TopIndex(c, k);
      if i >= 0 then
        KeysReplace(c, i, leaf);
        [Entry(p, Node(t[0].node.name, Put(c, k, leaf.node)))] + t[1..]
      else
        [Entry(p, Node(t[0].node.name, Put(c, k, leaf.node)))] + t[1..]
  }

  /**
   * `set_elem_in_tree(tree, rec)`: a top-level record is a leaf of the top
   * level; a child record leaves the top level as it was. Either way the
   * record's pk is the only id that can join the tree.
   */
  function Inserted(t: seq<Entry>, rec: Rec): (r: seq<Entry>)
    ensures rec.parent.None? ==> Entry(rec.pk, Node(rec.name, [])) in r
    ensures rec.parent.Some? ==> |r| == |t| && forall i :: 0 <= i < |t| ==> r[i].id == t[i].id
    ensures Keys(r) <= Keys(t) + {rec.pk}
  {
    match rec.parent
    case None =>
      var leaf := Entry(rec.pk, Node(rec.name, []));
      KeysAppend(t, leaf);
      var i := TopIndex(t, rec.pk);
      if i >= 0 then
        KeysReplace(t, i, leaf);
        assert Put(t, rec.pk, leaf.node)[i] == leaf;
        Put(t, rec.pk, leaf.node)
      else
        assert Put(t, rec.pk, leaf.node)[|t|] == leaf;
        Put(t, rec.pk, leaf.node)
    case Some(p) => InsertedUnder(t, p, rec.pk, rec.name)
  }

  /** `build_dict_tree_from_list`: `set_elem_in_tree` for each record in turn, from an empty tree; every id comes from a record. */
  function Built(recs: seq<Rec>): (r: seq<Entry>)
    ensures Keys(r) <= Pks(recs)
  {
    if recs == [] then []
    else
      var init := recs[..|recs| - 1];
      assert Pks(init) + {recs[|recs| - 1].pk} == Pks(recs) by {
        assert recs == init + [recs[|recs| - 1]];
      }
      Inserted(Built(init), recs[|recs| - 1])
  }

  /** An orphan (its parent occurs nowhere) is dropped: the tree is unchanged. */
  lemma {:induction false} InsertedUnderAbsent(t: seq<Entry>, p: int, k: int, name: string)
    requires p !in Keys(t)
    ensures InsertedUnder(t, p, k, name) == t
    decreases Size(t)
  {
    if t != [] {
      InsertedUnderAbsent(t[0].node.children, p, k, name);
      InsertedUnderAbsent(t[1..], p, k, name);
    }
  }

  /** Appending an entry to a level: its ids join the keys. */
  lemma {:induction false} KeysAppend(t: seq<Entry>, e: Entry)
    ensures Keys(t + [e]) == Keys(t) + {e.id} + Keys(e.node.children)
    decreases Size(t)
  {
    if t == [] {
      assert [e][1..] == [];
    } else {
      assert (t + [e])[1..] == t[1..] + [e];
      KeysAppend(t[1..], e);
    }
  }

  /** Replacing one entry of a level: only the new entry's ids can join the keys. */
  lemma {:induction false} KeysReplace(t: seq<Entry>, i: nat, e: Entry)
    requires i < |t|
    ensures Keys(t[i := e]) <= Keys(t) + {e.id} + Keys(e.node.children)
    decreases Size(t)
  {
    var u := t[i := e];
    if i > 0 {
      assert u[0] == t[0] && u[1..] == t[1..][i - 1 := e];
      KeysReplace(t[1..], i - 1, e);
    } else {
      assert u[0] == e && u[1..] == t[1..];
    }
  }

  /** Appending a fresh leaf to a unique level keeps it unique and adds the leaf to the view. */
  lemma {:induction false} AppendLeaf(t: seq<Entry>, k: int, name: string, par: Option<int>)
    requires Unique(t) && k !in Keys(t)
    ensures Unique(t + [Entry(k, Node(name, []))])
    ensures Flat(t + [Entry(k, Node(name, []))], par) == Flat(t, par)[k := (name, par)]
    decreases Size(t)
  {
    var e := Entry(k, Node(name, []));
    if t == [] {
      assert [e][1..] == [];
    } else {
      var u := t + [e];
      assert u[0] == t[0] && u[1..] == t[1..] + [e];
      AppendLeaf(t[1..], k, name, par);
      KeysAppend(t[1..], e);
      KeysFlat(t[0].node.children, Some(t[0].id));
      UpdateLeft(Flat(t[1..], par), Flat(t[0].node.children, Some(t[0].id)),
        map[t[0].id := (t[0].node.name, par)], k, (name, par));
    }
  }

  /** Inserting a fresh id into a tree with unique ids keeps them unique. */
  lemma {:induction false} InsertedUnderUnique(t: seq<Entry>, p: int, k: int, name: string)
    requires Unique(t) && k !in Keys(t)
    ensures Unique(InsertedUnder(t, p, k, name))
    decreases Size(t)
  {
    if t == [] {
      return;
    }
    var id, c, rest := t[0].id, t[0].node.children, t[1..];
    var u := InsertedUnder(t, p, k, name);
    if id != p {
      var c', rest' := InsertedUnder(c, p, k, name), InsertedUnder(rest, p, k, name);
      assert u[0] == Entry(id, Node(t[0].node.name, c')) && u[1..] == rest';
      InsertedUnderUnique(c, p, k, name);
      InsertedUnderUnique(rest, p, k, name);
      if p in Keys(c) {
        InsertedUnderAbsent(rest, p, k, name);
      } else {
        InsertedUnderAbsent(c, p, k, name);
      }
    } else {
      var leaf := Entry(k, Node(name, []));
      if TopIndex(c, k) >= 0 {
        KeysHasTop(c, TopIndex(c, k));
      }
      assert u[0] == Entry(p, Node(t[0].node.name, c + [leaf])) && u[1..] == rest;
      AppendLeaf(c, k, name, Some(p));
      KeysAppend(c, leaf);
    }
  }

  /**
   * Inserting a fresh id under a parent that occurs in a tree with unique ids
   * adds exactly that id to the view, under that parent.
   */
  lemma {:induction false} InsertedUnderView(t: seq<Entry>, p: int, k: int, name: string, par: Option<int>)
    requires Unique(t) && p in Keys(t) && k !in Keys(t)
    ensures Flat(InsertedUnder(t, p, k, name), par) == Flat(t, par)[k := (name, Some(p))]
    decreases Size(t)
  {
    var id, c, rest := t[0].id, t[0].node.children, t[1..];
    var top := map[id := (t[0].node.name, par)];
    KeysFlat(c, Some(id));
    KeysFlat(rest, par);
    if id == p {
      if TopIndex(c, k) >= 0 {
        KeysHasTop(c, TopIndex(c, k));
      }
      AppendLeaf(c, k, name, Some(p));
      UpdateMiddle(Flat(rest, par), Flat(c, Some(p)), top, k, (name, Some(p)));
    } else if p in Keys(c) {
      InsertedUnderView(c, p, k, name, Some(id));
      InsertedUnderAbsent(rest, p, k, name);
      UpdateMiddle(Flat(rest, par), Flat(c, Some(id)), top, k, (name, Some(p)));
    } else {
      InsertedUnderAbsent(c, p, k, name);
      InsertedUnderView(rest, p, k, name, par);
      UpdateLeft(Flat(rest, par), Flat(c, Some(id)), top, k, (name, Some(p)));
    }
  }

  // ---- map algebra for the flat view -----------------------------------------------

  lemma UpdateMiddle<V>(a: map<int, V>, b: map<int, V>, m: map<int, V>, k: int, v: V)
    requires k !in m
    ensures a + b[k := v] + m == (a + b + m)[k := v]
  {
    assert (a + b[k := v] + m).Keys == (a + b + m)[k := v].Keys;
  }

  lemma MinusUnion<V>(a: map<int, V>, b: map<int, V>, m: map<int, V>, s: set<int>)
    ensures (a + b + m) - s == (a - s) + (b - s) + (m - s)
  {
    assert ((a + b + m) - s).Keys == ((a - s) + (b - s) + (m - s)).Keys;
  }

  lemma MinusDisjoint<V>(a: map<int, V>, s: set<int>)
    requires a.Keys !! s
    ensures a - s == a
  {
  }

  lemma MinusCovered<V>(a: map<int, V>, s: set<int>)
    requires a.Keys <= s
    ensures a - s == map[]
  {
  }

  lemma UpdateLeft<V>(a: map<int, V>, b: map<int, V>, m: map<int, V>, k: int, v: V)
    requires k !in b && k !in m
    ensures a[k := v] + b + m == (a + b + m)[k := v]
  {
    assert (a[k := v] + b + m).Keys == (a + b + m)[k := v].Keys;
  }

  /** Inserting a fresh record whose parent is absent (top level) or present keeps the tree unique and adds it to the view. */
  lemma InsertedFresh(t: seq<Entry>, r: Rec)
    requires Unique(t) && r.pk !in Keys(t)
    requires r.parent.None? || r.parent.value in Keys(t)
    ensures Unique(Inserted(t, r)) && Keys(Inserted(t, r)) == Keys(t) + {r.pk}
    ensures Flat(Inserted(t, r), None) == Flat(t, None)[r.pk := (r.name, r.parent)]
  {
    if r.parent.None? {
      AppendLeaf(t, r.pk, r.name, None);
      KeysAppend(t, Entry(r.pk, Node(r.name, [])));
      if TopIndex(t, r.pk) >= 0 {
        KeysHasTop(t, TopIndex(t, r.pk));
      }
    } else {
      var t' := Inserted(t, r);
      InsertedUnderUnique(t, r.parent.value, r.pk, r.name);
      InsertedUnderView(t, r.parent.value, r.pk, r.name, None);
      KeysFlat(t, None);
      KeysFlat(t', None);
    }
  }

  lemma {:induction false} KeysHasTop(t: seq<Entry>, i: nat)
    requires i < |t|
    ensures t[i].id in Keys(t)
    decreases Size(t)
  {
    if i > 0 {
      KeysHasTop(t[1..], i - 1);
    }
  }

  /** The pks of the records. */
  function Pks(recs: seq<Rec>): set<int> {
    set r | r in recs :: r.pk
  }

  /**
   * Records as the repository lists categories: pks are distinct and every
   * parent is the pk of an earlier record.
   */
  predicate ParentsFirst(recs: seq<Rec>) {
    && (forall i, j :: 0 <= i < j < |recs| ==> recs[i].pk != recs[j].pk)
    && (forall j :: 0 <= j < |recs| && recs[j].parent.Some? ==>
          exists i :: 0 <= i < j && recs[i].pk == recs[j].parent.value)
  }

  /** The flat view the records describe: pk -> (name, parent). */
  function RecView(recs: seq<Rec>): map<int, (string, Option<int>)> {
    if recs == [] then map[]
    else
      var r := recs[|recs| - 1];
      RecView(recs[..|recs| - 1])[r.pk := (r.name, r.parent)]
  }

  /**
   * Building from records whose parents come first gives a tree with unique
   * ids whose view is exactly what the records say: every record is present
   * under its own parent and nothing else is.
   */
  lemma {:induction false} BuiltView(recs: seq<Rec>)
    requires ParentsFirst(recs)
    ensures Unique(Built(recs)) && Keys(Built(recs)) == Pks(recs)
    ensures Flat(Built(recs), None) == RecView(recs)
  {
    if recs != [] {
      var init, r := recs[..|recs| - 1], recs[|recs| - 1];
      ParentsFirstInit(recs);
      BuiltView(init);
      assert recs == init + [r];
      assert Pks(recs) == Pks(init) + {r.pk};
      assert r.pk !in Pks(init) by {
      }
      if r.parent.Some? {
        var i :| 0 <= i < |recs| - 1 && recs[i].pk == r.parent.value;
        assert init[i] in init;
      }
      InsertedFresh(Built(init), r);
    }
  }

  /** Dropping the last record keeps the parents first. */
  lemma ParentsFirstInit(recs: seq<Rec>)
    requires recs != [] && ParentsFirst(recs)
    ensures ParentsFirst(recs[..|recs| - 1])
  {
    var init := recs[..|recs| - 1];
    forall j | 0 <= j < |init| && init[j].parent.Some?
      ensures exists i :: 0 <= i < j && init[i].pk == init[j].parent.value
    {
      assert recs[j] == init[j];
      var i :| 0 <= i < j && recs[i].pk == recs[j].parent.value;
      assert init[i] == recs[i];
    }
  }

  // ---- delete_elem_from_tree ----------------------------------------------------

  /**
   * `delete_elem_from_tree`: every entry before the first key equal to `pk`
   * is searched recursively, that key is removed with its whole subtree, and
   * the entries after it are left alone.
   */
  function Deleted(t: seq<Entry>, pk: int): (r: seq<Entry>)
    ensures Keys(r) <= Keys(t)
    decreases Size(t)
  {
    if t == [] then []
    else if t[0].id != pk then
      [Entry(t[0].id, Node(t[0].node.name, Deleted(t[0].node.children, pk)))] + Deleted(t[1..], pk)
    else t[1..]
  }

  /** The ids removed by deleting `pk`: `pk` and every id below it, or none when it is absent. */
  function Subtree(t: seq<Entry>, pk: int): set<int> {
    match Find(t, pk)
    case None => {}
    case Some(n) => {pk} + Keys(n.children)
  }

  /** Deleting an absent id is a no-op. */
  lemma {:induction false} DeletedAbsent(t: seq<Entry>, pk: int)
    requires pk !in Keys(t)
    ensures Deleted(t, pk) == t
    decreases Size(t)
  {
    if t != [] {
      DeletedAbsent(t[0].node.children, pk);
      DeletedAbsent(t[1..], pk);
    }
  }

  /** Deleting keeps the ids unique. */
  lemma {:induction false} DeletedUnique(t: seq<Entry>, pk: int)
    requires Unique(t)
    ensures Unique(Deleted(t, pk))
    decreases Size(t)
  {
    if t != [] && t[0].id != pk {
      var c, rest := t[0].node.children, t[1..];
      DeletedUnique(c, pk);
      DeletedUnique(rest, pk);
      var u := Deleted(t, pk);
      assert u[0] == Entry(t[0].id, Node(t[0].node.name, Deleted(c, pk))) && u[1..] == Deleted(rest, pk);
    }
  }

  /**
   * In a tree with unique ids, deleting `pk` removes exactly `pk` and its
   * descendants from the view and leaves the name and parent of every other
   * node unchanged.
   */
  lemma {:induction false} DeletedView(t: seq<Entry>, pk: int, par: Option<int>)
    requires Unique(t)
    ensures Flat(Deleted(t, pk), par) == Flat(t, par) - Subtree(t, pk)
    decreases Size(t)
  {
    if t == [] {
      return;
    }
    var id, c, rest := t[0].id, t[0].node.children, t[1..];
    var sub := Subtree(t, pk);
    var top := map[id := (t[0].node.name, par)];
    KeysFlat(c, Some(id));
    KeysFlat(rest, par);
    MinusUnion(Flat(rest, par), Flat(c, Some(id)), top, sub);
    if id == pk {
      assert sub == {pk} + Keys(c);
      MinusDisjoint(Flat(rest, par), sub);
      MinusCovered(Flat(c, Some(pk)), sub);
      MinusCovered(top, sub);
    } else if Find(c, pk).Some? {
      assert sub == Subtree(c, pk);
      FindInside(c, pk);
      DeletedView(c, pk, Some(id));
      DeletedAbsent(rest, pk);
      MinusDisjoint(Flat(rest, par), sub);
      MinusDisjoint(top, sub);
    } else {
      assert sub == Subtree(rest, pk);
      if Find(rest, pk).Some? {
        FindInside(rest, pk);
      }
      FindFlat(c, pk, Some(id));
      DeletedAbsent(c, pk);
      DeletedView(rest, pk, par);
      MinusDisjoint(Flat(c, Some(id)), sub);
      MinusDisjoint(top, sub);
    }
  }

  /** Deleting from a tree with unique ids removes exactly `pk` and its descendants and keeps the ids unique. */
  lemma DeletedKeys(t: seq<Entry>, pk: int)
    requires Unique(t)
    ensures Unique(Deleted(t, pk)) && Keys(Deleted(t, pk)) == Keys(t) - Subtree(t, pk)
  {
    DeletedUnique(t, pk);
    DeletedView(t, pk, None);
    KeysFlat(t, None);
    KeysFlat(Deleted(t, pk), None);
  }

  /** After deleting `pk` from a tree with unique ids, `pk` is no longer found, and a second delete changes nothing. */
  lemma DeletedGone(t: seq<Entry>, pk: int)
    requires Unique(t)
    ensures Find(Deleted(t, pk), pk) == None
    ensures Deleted(Deleted(t, pk), pk) == Deleted(t, pk)
  {
    DeletedKeys(t, pk);
    DeletedView(t, pk, None);
    KeysFlat(t, None);
    FindFlat(t, pk, None);
    KeysFlat(Deleted(t, pk), None);
    FindFlat(Deleted(t, pk), pk, None);
    DeletedAbsent(Deleted(t, pk), pk);
  }

  // ---- the loops of set_elem_in_tree, delete_elem_from_tree, build_dict_tree_from_list

  /** The loop of `set_elem_in_tree` over one level, for a record with parent `p`. */
  method InsertUnder(t: seq<Entry>, p: int, k: int, name: string) returns (r: seq<Entry>)
    ensures r == InsertedUnder(t, p, k, name)
    decreases Size(t)
  {
    r := [];
    var i := 0;
    while i < |t|
      invariant 0 <= i <= |t|
      invariant r + InsertedUnder(t[i..], p, k, name) == InsertedUnder(t, p, k, name)
    {
      assert t[i..][1..] == t[i + 1..];
      if t[i].id != p {
        SizeChild(t, i);
        var c := InsertUnder(t[i].node.children, p, k, name);
        r := r + [Entry(t[i].id, Node(t[i].node.name, c))];
      } else {
        r := r + [Entry(p, Node(t[i].node.name, Put(t[i].node.children, k, Node(name, []))))] + t[i + 1..];
        return;
      }
      i := i + 1;
    }
  }

  /** `set_elem_in_tree(tree, rec)`. */
  method Insert(t: seq<Entry>, rec: Rec) returns (r: seq<Entry>)
    ensures r == Inserted(t, rec)
  {
    if rec.parent.None? {
      r := Put(t, rec.pk, Node(rec.name, []));
    } else {
      r := InsertUnder(t, rec.parent.value, rec.pk, rec.name);
    }
  }

  /** `build_dict_tree_from_list(records)`. */
  method BuildTree(recs: seq<Rec>) returns (t: seq<Entry>)
    ensures t == Built(recs)
  {
    t := [];
    for i := 0 to |recs|
      invariant t == Built(recs[..i])
    {
      assert recs[..i + 1][..i] == recs[..i];
      t := Insert(t, recs[i]);
    }
    assert recs[..|recs|] == recs;
  }

  /** `delete_elem_from_tree(tree, pk)`. */
  method Delete(t: seq<Entry>, pk: int) returns (r: seq<Entry>)
    ensures r == Deleted(t, pk)
    decreases Size(t)
  {
    r := [];
    var i := 0;
    while i < |t|
      invariant 0 <= i <= |t|
      invariant r + Deleted(t[i..], pk) == Deleted(t, pk)
    {
      assert t[i..][1..] == t[i + 1..];
      if t[i].id != pk {
        SizeChild(t, i);
        var c := Delete(t[i].node.children, pk);
        r := r + [Entry(t[i].id, Node(t[i].node.name, c))];
      } else {
        r := r + t[i + 1..];
        return;
      }
      i := i + 1;
    }
  }

  // ---- the documented example -------------------------------------------------

  /** A -> B -> C built from `[("A", None, 1), ("B", 1, 2), ("C", 2, 3)]`, then searched and pruned. */
  lemma ChainExample()
    ensures var t := Built([Rec("A", None, 1), Rec("B", Some(1), 2), Rec("C", Some(2), 3)]);
      && t == [Entry(1, Node("A", [Entry(2, Node("B", [Entry(3, Node("C", []))]))]))]
      && FindParent(t, 3, None) == Some(2) && FindParent(t, 1, None) == None
      && Deleted(t, 2) == [Entry(1, Node("A", []))]
      && Inserted(t, Rec("D", Some(9), 4)) == t
  {
    ChainBuilt();
    var t := [Entry(1, Node("A", [Entry(2, Node("B", [Entry(3, Node("C", []))]))]))];
    assert Deleted([Entry(2, Node("B", [Entry(3, Node("C", []))]))], 2) == [];
    InsertedUnderAbsent(t, 9, 4, "D");
  }

  /** The chain A -> B -> C built from its three records. */
  lemma ChainBuilt()
    ensures Built([Rec("A", None, 1), Rec("B", Some(1), 2), Rec("C", Some(2), 3)])
      == [Entry(1, Node("A", [Entry(2, Node("B", [Entry(3, Node("C", []))]))]))]
  {
    var recs := [Rec("A", None, 1), Rec("B", Some(1), 2), Rec("C", Some(2), 3)];
    var c := [Entry(3, Node("C", []))];
    var b := [Entry(2, Node("B", c))];
    var t1 := [Entry(1, Node("A", []))];
    var t2 := [Entry(1, Node("A", [Entry(2, Node("B", []))]))];
    var t := [Entry(1, Node("A", b))];
    assert recs[..1] == [recs[0]] && recs[..2] == [recs[0], recs[1]] && [recs[0]][..0] == [];
    assert Built([recs[0]]) == t1;
    assert Built(recs[..2]) == t2;
    assert InsertedUnder([Entry(2, Node("B", []))], 2, 3, "C") == b;
    assert InsertedUnder(t2, 2, 3, "C") == t;
    assert Built(recs) == t;
  }
}
