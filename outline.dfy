/**
 * `read_tree` from bookkeeper/utils.py: reads an outline whose nesting is
 * given by indentation and returns (child, parent) pairs in input order.
 *
 * The method keeps the source's `parents` stack; it is proved against a
 * declarative specification: the parent of a line is the nearest earlier line
 * with a smaller indentation, and a line is rejected when the nearest earlier
 * line that is not indented deeper sits at a different indentation.
 */
module Outline {
  import opened Results
  import opened Text

  /** A non-blank input line: its leading-whitespace width and its stripped text. */
  datatype Line = Line(indent: nat, name: string)

  /** `IndentationError` raised for the line with this index among the non-blank lines. */
  datatype ReadError = IndentationError(line: nat)

  type Pair = (string, Option<string>)

  /** `_get_indent`: the number of leading whitespace characters. */
  function GetIndent(line: string): (r: nat)
    ensures r <= |line|
    ensures forall i :: 0 <= i < r ==> IsSpace(line[i])
    ensures r == |line| || !IsSpace(line[r])
  {
    |line| - |LStrip(line)|
  }

  /** `_lines_with_indent`: skips blank lines, pairs each other line's indentation with its stripped text. */
  function LinesWithIndent(lines: seq<string>): (r: seq<Line>)
    ensures |r| <= |lines|
    ensures forall k :: 0 <= k < |r| ==> r[k].name != []
  {
    if lines == [] then []
    else if IsBlank(lines[0]) then LinesWithIndent(lines[1..])
    else
      StripNonBlank(lines[0]);
      [Line(GetIndent(lines[0]), Strip(lines[0]))] + LinesWithIndent(lines[1..])
  }

  /** The generator works line by line: the items of two blocks of text are the items of each, in order. */
  lemma {:induction false} LinesWithIndentAppend(a: seq<string>, b: seq<string>)
    ensures LinesWithIndent(a + b) == LinesWithIndent(a) + LinesWithIndent(b)
  {
    if a == [] {
      assert a + b == b;
    } else {
      assert (a + b)[0] == a[0];
      assert (a + b)[1..] == a[1..] + b;
      LinesWithIndentAppend(a[1..], b);
    }
  }

  /** One line yields one item when it is not blank, none when it is. */
  lemma LinesWithIndentOne(line: string)
    ensures IsBlank(line) ==> LinesWithIndent([line]) == []
    ensures !IsBlank(line) ==> LinesWithIndent([line]) == [Line(GetIndent(line), Strip(line))]
  {
    assert [line][1..] == [];
  }

  // ---- the specification ----------------------------------------------------

  /** The last index below `k` whose line is indented less than `d`, or -1 when there is none. */
  function LastBelow(ls: seq<Line>, k: nat, d: int): (r: int)
    requires k <= |ls|
    ensures -1 <= r < k
    ensures r >= 0 ==> ls[r].indent < d
    ensures forall y :: r < y < k ==> ls[y].indent >= d
  {
    if k == 0 then -1 else if ls[k - 1].indent < d then k - 1 else LastBelow(ls, k - 1, d)
  }

  /** Index of the parent line: the nearest earlier line with a smaller indentation (-1 for none). */
  function ParentIndex(ls: seq<Line>, i: nat): int
    requires i < |ls|
  {
    LastBelow(ls, i, ls[i].indent)
  }

  function ParentName(ls: seq<Line>, i: nat): Option<string>
    requires i < |ls|
  {
    var p := ParentIndex(ls, i);
    if p < 0 then None else Some(ls[p].name)
  }

  /**
   * Line `i` is accepted: it is the first line, or it is indented deeper than
   * the line before, or the nearest earlier line that is not deeper has
   * exactly its indentation.
   */
  predicate Aligned(ls: seq<Line>, i: nat)
    requires i < |ls|
  {
    i == 0 || ls[i].indent > ls[i - 1].indent ||
    var q := LastBelow(ls, i, ls[i].indent + 1);
    q >= 0 && ls[q].indent == ls[i].indent
  }

  /** The first line at or after `from` that is not aligned. */
  function FirstMisaligned(ls: seq<Line>, from: nat): Option<nat>
    requires from <= |ls|
    decreases |ls| - from
  {
    if from == |ls| then None
    else if !Aligned(ls, from) then Some(from)
    else FirstMisaligned(ls, from + 1)
  }

  /** `FirstMisaligned` finds the first line at or after `from` that is not aligned, if any. */
  lemma {:induction false} FirstMisalignedIsFirst(ls: seq<Line>, from: nat)
    requires from <= |ls|
    ensures var r := FirstMisaligned(ls, from);
      && (r.Some? ==> from <= r.value < |ls| && !Aligned(ls, r.value))
      && (r.Some? ==> forall k :: from <= k < r.value ==> Aligned(ls, k))
      && (r.None? ==> forall k :: from <= k < |ls| ==> Aligned(ls, k))
    decreases |ls| - from
  {
    if from < |ls| && Aligned(ls, from) {
      FirstMisalignedIsFirst(ls, from + 1);
    }
  }

  /** The pairs for the first `n` lines. */
  function Pairs(ls: seq<Line>, n: nat): seq<Pair>
    requires n <= |ls|
  {
    seq(n, k requires 0 <= k < n => (ls[k].name, ParentName(ls, k)))
  }

  lemma PairAt(ls: seq<Line>, n: nat, k: nat)
    requires k < n <= |ls|
    ensures Pairs(ls, n)[k] == (ls[k].name, ParentName(ls, k))
  {
  }

  /**
   * What `read_tree` returns for the non-blank lines `ls`: the outline is
   * accepted exactly when every line is aligned, and then each line gives one
   * pair, in order.
   */
  function ReadTreeSpec(ls: seq<Line>): (r: Result<seq<Pair>, ReadError>)
    ensures r.Ok? <==> forall k :: 0 <= k < |ls| ==> Aligned(ls, k)
    ensures r.Ok? ==> |r.value| == |ls| && forall k :: 0 <= k < |ls| ==> r.value[k].0 == ls[k].name
  {
    FirstMisalignedIsFirst(ls, 0);
    match FirstMisaligned(ls, 0)
    case Some(i) => Err(IndentationError(i))
    case None => Ok(Pairs(ls, |ls|))
  }

  // ---- the parents stack ------------------------------------------------------

  /** Indentation of line `c`, with -1 standing for the virtual root before the first line. */
  function IndentOf(ls: seq<Line>, c: int): int
    requires -1 <= c < |ls|
  {
    if c < 0 then -1 else ls[c].indent
  }

  function NameOf(ls: seq<Line>, c: int): Option<string>
    requires -1 <= c < |ls|
  {
    if c < 0 then None else Some(ls[c].name)
  }

  /** The `parents` stack once line `c` has been read: the entries of its ancestors, outermost first. */
  ghost function StackOf(ls: seq<Line>, c: int): seq<(Option<string>, int)>
    requires -1 <= c < |ls|
    decreases c + 1
  {
    if c < 0 then []
    else
      var p := ParentIndex(ls, c);
      StackOf(ls, p) + [(NameOf(ls, p), IndentOf(ls, p))]
  }

  /** The stack starts at (None, -1), its indentations strictly increase, and all lie below the last line's. */
  lemma {:induction false} StackIncreasing(ls: seq<Line>, c: int)
    requires 0 <= c < |ls|
    ensures var s := StackOf(ls, c);
      && s != [] && s[0] == (None, -1)
      && (forall m :: 0 < m < |s| ==> s[m - 1].1 < s[m].1)
      && s[|s| - 1].1 < ls[c].indent
  {
    var p := ParentIndex(ls, c);
    if p >= 0 {
      StackIncreasing(ls, p);
    }
  }

  /** Lines that are all indented at least `d` do not change the nearest earlier line below `d`. */
  lemma {:induction false} SkipDeeper(ls: seq<Line>, lo: int, hi: nat, d: int)
    requires -1 <= lo < hi <= |ls|
    requires forall y :: lo < y < hi ==> ls[y].indent >= d
    ensures LastBelow(ls, hi, d) == LastBelow(ls, lo + 1, d)
  {
    if hi > lo + 1 {
      SkipDeeper(ls, lo, hi - 1, d);
    }
  }

  /** A line indented deeper than the last one read is accepted, hangs under it, and pushes it. */
  lemma PushStep(ls: seq<Line>, i: nat)
    requires i < |ls| && ls[i].indent > IndentOf(ls, i - 1)
    ensures Aligned(ls, i) && ParentIndex(ls, i) == i - 1
    ensures StackOf(ls, i) == StackOf(ls, i - 1) + [(NameOf(ls, i - 1), IndentOf(ls, i - 1))]
  {
  }

  /** Popping line `cur`, which is deeper than line `i`, leaves its parent on top; everything in between is deeper too. */
  lemma PopStep(ls: seq<Line>, i: nat, cur: int)
    requires 0 <= cur < i < |ls| && ls[i].indent < ls[cur].indent
    requires forall y :: cur < y < i ==> ls[y].indent > ls[i].indent
    ensures var p := ParentIndex(ls, cur);
      && (forall y :: p < y < i ==> ls[y].indent > ls[i].indent)
      && var s := StackOf(ls, cur);
      && s != [] && s[|s| - 1].1 == IndentOf(ls, p) && s[..|s| - 1] == StackOf(ls, p)
  {
  }

  /** Line `i` closes back to the open line `cur` at its own indentation: it is accepted and shares cur's parent. */
  lemma MatchStep(ls: seq<Line>, i: nat, cur: int)
    requires 0 <= cur < i < |ls| && ls[cur].indent == ls[i].indent
    requires forall y :: cur < y < i ==> ls[y].indent > ls[i].indent
    ensures Aligned(ls, i) && ParentIndex(ls, i) == ParentIndex(ls, cur)
    ensures StackOf(ls, i) == StackOf(ls, cur)
  {
    SkipDeeper(ls, cur, i, ls[i].indent);
    SkipDeeper(ls, cur, i, ls[i].indent + 1);
  }

  /** Line `i` unindents past every open line at its own indentation: it is rejected. */
  lemma MismatchStep(ls: seq<Line>, i: nat, cur: int)
    requires -1 <= cur < i < |ls| && 0 < i && IndentOf(ls, cur) < ls[i].indent < ls[i - 1].indent
    requires forall y :: cur < y < i ==> ls[y].indent > ls[i].indent
    ensures !Aligned(ls, i)
  {
    SkipDeeper(ls, cur, i, ls[i].indent + 1);
    assert LastBelow(ls, cur + 1, ls[i].indent + 1) == cur;
  }

  /** Every one of the first `n` lines is aligned. */
  predicate AlignedUpTo(ls: seq<Line>, n: nat)
    requires n <= |ls|
  {
    n == 0 || (AlignedUpTo(ls, n - 1) && Aligned(ls, n - 1))
  }

  lemma {:induction false} AlignedUpToAll(ls: seq<Line>, n: nat)
    requires n <= |ls| && AlignedUpTo(ls, n)
    ensures forall k :: 0 <= k < n ==> Aligned(ls, k)
  {
    if n > 0 {
      AlignedUpToAll(ls, n - 1);
    }
  }

  lemma FirstMisalignedAt(ls: seq<Line>, i: nat)
    requires i < |ls| && !Aligned(ls, i) && AlignedUpTo(ls, i)
    ensures ReadTreeSpec(ls) == Err(IndentationError(i))
  {
    AlignedUpToAll(ls, i);
    FirstMisalignedIsFirst(ls, 0);
  }

  /** Once line `i` is accepted with the stack in its place, the top of the stack gives its pair. */
  lemma Advance(ls: seq<Line>, i: nat, parents: seq<(Option<string>, int)>, result: seq<Pair>)
    requires i < |ls| && parents == StackOf(ls, i) && result == Pairs(ls, i)
    ensures parents != []
    ensures result + [(ls[i].name, parents[|parents| - 1].0)] == Pairs(ls, i + 1)
  {
  }

  lemma AllAligned(ls: seq<Line>)
    requires AlignedUpTo(ls, |ls|)
    ensures ReadTreeSpec(ls) == Ok(Pairs(ls, |ls|))
  {
    AlignedUpToAll(ls, |ls|);
    FirstMisalignedIsFirst(ls, 0);
  }

  // ---- read_tree --------------------------------------------------------------

  /**
   * The unindent loop of `read_tree`: pops open levels while line `i` is
   * shallower than the last one popped; `cur` is the line whose entry ends up
   * as the last popped.
   */
  method Unindent(ls: seq<Line>, i: nat, parents: seq<(Option<string>, int)>, lastIndent: int)
    returns (parents': seq<(Option<string>, int)>, lastIndent': int, ghost cur: int)
    requires 0 < i < |ls|
    requires parents == StackOf(ls, i - 1) && lastIndent == IndentOf(ls, i - 1)
    ensures -1 <= cur < i && parents' == StackOf(ls, cur) && lastIndent' == IndentOf(ls, cur)
    ensures lastIndent' <= ls[i].indent
    ensures forall y :: cur < y < i ==> ls[y].indent > ls[i].indent
  {
    var indent := ls[i].indent;
    parents', lastIndent', cur := parents, lastIndent, i - 1;
    while indent < lastIndent'
      invariant -1 <= cur < i
      invariant parents' == StackOf(ls, cur) && lastIndent' == IndentOf(ls, cur)
      invariant forall y :: cur < y < i ==> ls[y].indent > indent
      decreases cur + 1
    {
      PopStep(ls, i, cur);
      lastIndent' := parents'[|parents'| - 1].1;
      parents' := parents'[..|parents'| - 1];
      cur := ParentIndex(ls, cur);
    }
  }

  /** `read_tree(lines)`: the loop over the non-blank lines is `ReadLines`. */
  method ReadTree(lines: seq<string>) returns (r: Result<seq<Pair>, ReadError>)
    ensures r == ReadTreeSpec(LinesWithIndent(lines))
  {
    r := ReadLines(LinesWithIndent(lines));
  }

  /**
   * One pass of `read_tree`'s loop, for line `i`: pushes the previous line
   * when `i` is deeper, unindents when it is shallower, and rejects it when
   * the unindent does not land on its indentation.
   */
  method ReadLine(ls: seq<Line>, i: nat, parents: seq<(Option<string>, int)>, lastIndent: int, lastName: Option<string>)
    returns (ok: bool, parents': seq<(Option<string>, int)>)
    requires i < |ls|
    requires parents == StackOf(ls, i - 1) && lastIndent == IndentOf(ls, i - 1) && lastName == NameOf(ls, i - 1)
    ensures ok <==> Aligned(ls, i)
    ensures ok ==> parents' == StackOf(ls, i)
  {
    var indent := ls[i].indent;
    ok := true;
    if indent > lastIndent {
      PushStep(ls, i);
      parents' := parents + [(lastName, lastIndent)];
    } else if indent < lastIndent {
      var lastIndent';
      ghost var cur;
      parents', lastIndent', cur := Unindent(ls, i, parents, lastIndent);
      if indent != lastIndent' {
        MismatchStep(ls, i, cur);
        ok := false;
      } else {
        MatchStep(ls, i, cur);
      }
    } else {
      MatchStep(ls, i, i - 1);
      parents' := parents;
    }
  }

  /** The loop of `read_tree` over the non-blank lines `ls`, with its `parents` stack. */
  method ReadLines(ls: seq<Line>) returns (r: Result<seq<Pair>, ReadError>)
    ensures r == ReadTreeSpec(ls)
  {
    var parents: seq<(Option<string>, int)> := [];
    var lastIndent: int := -1;
    var lastName: Option<string> := None;
    var result: seq<Pair> := [];
    var i := 0;
    while i < |ls|
      invariant 0 <= i <= |ls|
      invariant parents == StackOf(ls, i - 1)
      invariant lastIndent == IndentOf(ls, i - 1) && lastName == NameOf(ls, i - 1)
      invariant result == Pairs(ls, i)
      invariant AlignedUpTo(ls, i)
    {
      var ok;
      ok, parents := ReadLine(ls, i, parents, lastIndent, lastName);
      if !ok {
        FirstMisalignedAt(ls, i);
        return Err(IndentationError(i));
      }
      Advance(ls, i, parents, result);
      result := result + [(ls[i].name, parents[|parents| - 1].0)];
      lastName := Some(ls[i].name);
      lastIndent := ls[i].indent;
      i := i + 1;
    }
    AllAligned(ls);
    r := Ok(result);
  }

  // ---- what the specification promises ----------------------------------------

  /** One pair per non-blank line, in input order; the first line is top-level. */
  lemma ReadTreeOnePairPerLine(ls: seq<Line>)
    requires ReadTreeSpec(ls).Ok?
    ensures var ps := ReadTreeSpec(ls).value;
      && |ps| == |ls|
      && (forall k :: 0 <= k < |ls| ==> ps[k].0 == ls[k].name)
      && (|ls| > 0 ==> ps[0].1 == None)
  {
  }

  /** A deeper line hangs under the line before it; a line at the same indentation shares its parent. */
  lemma ReadTreeParentRule(ls: seq<Line>, k: nat)
    requires ReadTreeSpec(ls).Ok? && 0 < k < |ls|
    ensures ls[k].indent > ls[k - 1].indent ==> ReadTreeSpec(ls).value[k].1 == Some(ls[k - 1].name)
    ensures ls[k].indent == ls[k - 1].indent ==> ReadTreeSpec(ls).value[k].1 == ReadTreeSpec(ls).value[k - 1].1
  {
    ReadTreeSpecPairs(ls);
    var ps := Pairs(ls, |ls|);
    PairAt(ls, |ls|, k);
    PairAt(ls, |ls|, k - 1);
    NeighbourParent(ls, k);
    assert ps[k].1 == ParentName(ls, k) && ps[k - 1].1 == ParentName(ls, k - 1);
  }

  /** An accepted outline gives exactly the pairs of its lines. */
  lemma ReadTreeSpecPairs(ls: seq<Line>)
    requires ReadTreeSpec(ls).Ok?
    ensures ReadTreeSpec(ls).value == Pairs(ls, |ls|)
  {
  }

  /** The parent rule between neighbouring lines. */
  lemma NeighbourParent(ls: seq<Line>, k: nat)
    requires 0 < k < |ls|
    ensures ls[k].indent > ls[k - 1].indent ==> ParentName(ls, k) == Some(ls[k - 1].name)
    ensures ls[k].indent == ls[k - 1].indent ==> ParentName(ls, k) == ParentName(ls, k - 1)
  {
    if ls[k].indent == ls[k - 1].indent {
      assert LastBelow(ls, k, ls[k].indent) == LastBelow(ls, k - 1, ls[k - 1].indent);
    }
  }

  /** Topological order: every parent is an earlier, less indented line. */
  lemma ReadTreeTopological(ls: seq<Line>, k: nat)
    requires ReadTreeSpec(ls).Ok? && k < |ls|
    requires ReadTreeSpec(ls).value[k].1.Some?
    ensures exists j :: (0 <= j < k && ls[j].indent < ls[k].indent
      && ReadTreeSpec(ls).value[j].0 == ReadTreeSpec(ls).value[k].1.value)
  {
    var j := ParentIndex(ls, k);
    assert ReadTreeSpec(ls).value[j].0 == ls[j].name;
  }

  /**
   * The error names the first rejected line: an unindent for which every
   * earlier line at the same indentation has been closed by a shallower one.
   */
  lemma ReadTreeError(ls: seq<Line>)
    requires ReadTreeSpec(ls).Err?
    ensures var i := ReadTreeSpec(ls).error.line;
      && 0 < i < |ls|
      && ls[i].indent < ls[i - 1].indent
      && (forall j :: 0 <= j < i && ls[j].indent == ls[i].indent ==>
            exists y :: j < y < i && ls[y].indent < ls[i].indent)
  {
    FirstMisalignedIsFirst(ls, 0);
    var i := ReadTreeSpec(ls).error.line;
    var q := LastBelow(ls, i, ls[i].indent + 1);
    forall j | 0 <= j < i && ls[j].indent == ls[i].indent
      ensures exists y :: j < y < i && ls[y].indent < ls[i].indent
    {
      assert j < q;
    }
  }

  /** `n` blanks. */
  function Spaces(n: nat): (r: string)
    ensures |r| == n && forall i :: 0 <= i < n ==> r[i] == ' '
  {
    seq(n, _ => ' ')
  }

  /** Stripping the blanks in front of a word leaves the word. */
  lemma {:induction false} LStripSpaces(n: nat, w: string)
    requires w == [] || !IsSpace(w[0])
    ensures LStrip(Spaces(n) + w) == w
    decreases n
  {
    if n == 0 {
      assert Spaces(n) + w == w;
    } else {
      assert (Spaces(n) + w)[1..] == Spaces(n - 1) + w;
      LStripSpaces(n - 1, w);
    }
  }

  /** A word indented by `n` blanks is read as that word at indentation `n`. */
  lemma IndentedLine(line: string, n: nat, w: string)
    requires line == Spaces(n) + w
    requires Word(w)
    ensures LinesWithIndent([line]) == [Line(n, w)]
  {
    LStripSpaces(n, w);
    assert line[n] == w[0];
    LinesWithIndentOne(line);
  }

  lemma Four<T>(a: T, b: T, c: T, d: T)
    ensures [a] + [b] + [c] + [d] == [a, b, c, d]
  {
  }

  /** Four lines are read one after another. */
  lemma LinesWithIndentFour(a: string, b: string, c: string, d: string)
    ensures LinesWithIndent([a, b, c, d])
      == LinesWithIndent([a]) + LinesWithIndent([b]) + LinesWithIndent([c]) + LinesWithIndent([d])
  {
    assert [a, b, c, d] == [a] + [b] + [c] + [d];
    LinesWithIndentAppend([a], [b]);
    LinesWithIndentAppend([a] + [b], [c]);
    LinesWithIndentAppend([a] + [b] + [c], [d]);
  }

  /** A non-empty string that starts and ends with a non-blank character. */
  predicate Word(w: string)
  {
    w != [] && !IsSpace(w[0]) && !IsSpace(w[|w| - 1])
  }

  /** An outline of four words indented by 0, 4, 8 and 4 blanks is measured word by word. */
  lemma FourLinesIndented(a: string, b: string, c: string, d: string)
    requires Word(a) && Word(b) && Word(c) && Word(d)
    ensures LinesWithIndent([a, Spaces(4) + b, Spaces(8) + c, Spaces(4) + d])
      == [Line(0, a), Line(4, b), Line(8, c), Line(4, d)]
  {
    assert Spaces(0) + a == a;
    IndentedLine(a, 0, a);
    IndentedLine(Spaces(4) + b, 4, b);
    IndentedLine(Spaces(8) + c, 8, c);
    IndentedLine(Spaces(4) + d, 4, d);
    LinesWithIndentFour(a, Spaces(4) + b, Spaces(8) + c, Spaces(4) + d);
    Four(Line(0, a), Line(4, b), Line(8, c), Line(4, d));
  }

  /** The text of `read_tree`'s documented example, line by line, with its indentation. */
  lemma DocExampleText()
    ensures LinesWithIndent(["parent", Spaces(4) + "child1", Spaces(8) + "child2", Spaces(4) + "child3"])
      == [Line(0, "parent"), Line(4, "child1"), Line(8, "child2"), Line(4, "child3")]
  {
    FourLinesIndented("parent", "child1", "child2", "child3");
  }

  /** The pairs of the documented example, once its lines are measured. */
  lemma DocExamplePairs()
    ensures ReadTreeSpec([Line(0, "parent"), Line(4, "child1"), Line(8, "child2"), Line(4, "child3")])
      == Ok([("parent", None), ("child1", Some("parent")), ("child2", Some("child1")), ("child3", Some("parent"))])
  {
    var ls := [Line(0, "parent"), Line(4, "child1"), Line(8, "child2"), Line(4, "child3")];
    assert LastBelow(ls, 2, 5) == 1 && LastBelow(ls, 3, 5) == 1;
    assert FirstMisaligned(ls, 3) == None;
    assert FirstMisaligned(ls, 2) == None;
    assert FirstMisaligned(ls, 1) == None;
    assert FirstMisaligned(ls, 0) == None;
    assert LastBelow(ls, 2, 4) == 0 && LastBelow(ls, 3, 4) == 0;
    var ps := [("parent", None), ("child1", Some("parent")), ("child2", Some("child1")), ("child3", Some("parent"))];
    assert Aligned(ls, 3) && Aligned(ls, 2) && Aligned(ls, 1) && Aligned(ls, 0);
    assert ParentName(ls, 0) == None && ParentName(ls, 1) == Some("parent");
    assert ParentName(ls, 2) == Some("child1") && ParentName(ls, 3) == Some("parent");
    assert Pairs(ls, 4) == ps;
    assert ReadTreeSpec(ls) == Ok(ps);
  }

  /** The example of `read_tree`'s documentation, from its text. */
  lemma ReadTreeDocExample()
    ensures ReadTreeSpec(LinesWithIndent(["parent", Spaces(4) + "child1", Spaces(8) + "child2", Spaces(4) + "child3"]))
      == Ok([("parent", None), ("child1", Some("parent")), ("child2", Some("child1")), ("child3", Some("parent"))])
  {
    DocExampleText();
    DocExamplePairs();
  }
}
