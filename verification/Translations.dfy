/**
 Translation trees: dotted keys, flattening into rows, rebuilding from rows, and the merge that
 fills gaps without overwriting. A tree is what `JSON.parse` gives, with strings at its leaves.
 */
module Translations {
  import opened Prelude

  datatype Tree = Leaf(text: string) | Node(kids: map<string, Tree>)

  type Path = seq<string>

  const EMPTY: Tree := Node(map[])

  /** The node a path leads to. */
  function NodeAt(t: Tree, p: Path): Option<Tree>
    decreases |p|
  {
    if p == [] then Some(t)
    else if t.Node? && p[0] in t.kids then NodeAt(t.kids[p[0]], p[1..])
    else None
  }

  function LeafAt(t: Tree, p: Path): Option<string> {
    match NodeAt(t, p)
    case Some(Leaf(text)) => Some(text)
    case _ => None
  }

  // ---- dotted keys -------------------------------------------------------------------------------

  /** `key.split('.')`. */
  function Split(key: string): (parts: Path)
    ensures parts != []
  {
    if key == "" then [""]
    else
      var rest := Split(key[1..]);
      if key[0] == '.' then [""] + rest else [[key[0]] + rest[0]] + rest[1..]
  }

  /** The key under `prefix`: an empty prefix adds no dot. */
  function FullKey(prefix: string, k: string): string {
    if prefix == "" then k else prefix + "." + k
  }

  function KeyOf(prefix: string, p: Path): string
    decreases |p|
  {
    if p == [] then prefix else KeyOf(FullKey(prefix, p[0]), p[1..])
  }

  predicate PlainKey(k: string) {
    k != "" && '.' !in k
  }

  /** Every key of the tree is non-empty and free of dots. */
  predicate PlainKeys(t: Tree) {
    t.Node? ==> forall k :: k in t.kids ==> PlainKey(k) && PlainKeys(t.kids[k])
  }

  lemma {:induction false} SplitPlain(k: string)
    requires '.' !in k
    ensures Split(k) == [k]
  {
    if k != "" {
      assert k[0] in k && forall c :: c in k[1..] ==> c in k;
      SplitPlain(k[1..]);
      assert [k[0]] + k[1..] == k;
    }
  }

  /** The parts of a key, one more character in front of it. */
  function Charge(c: char, parts: Path): Path
    requires parts != []
  {
    if c == '.' then [""] + parts else [[c] + parts[0]] + parts[1..]
  }

  lemma SplitStep(c: char, key: string)
    ensures Split([c] + key) == Charge(c, Split(key))
  {
    assert ([c] + key)[1..] == key;
  }

  lemma ChargeAppend(c: char, a: Path, b: Path)
    requires a != []
    ensures Charge(c, a + b) == Charge(c, a) + b
  {
    assert (a + b)[1..] == a[1..] + b;
  }

  lemma {:induction false} SplitAtDot(a: string, b: string)
    ensures Split(a + "." + b) == Split(a) + Split(b)
    decreases |a|
  {
    if a == "" {
      assert "" + "." + b == "." + b;
      assert ("." + b)[1..] == b;
    } else {
      SplitAtDot(a[1..], b);
      SplitStep(a[0], a[1..]);
      SplitStep(a[0], a[1..] + "." + b);
      assert a == [a[0]] + a[1..];
      assert a + "." + b == [a[0]] + (a[1..] + "." + b);
      ChargeAppend(a[0], Split(a[1..]), Split(b));
    }
  }

  /** Splitting the key of a path gives the path back, so distinct paths have distinct keys. */
  lemma {:induction false} SplitKeyOf(prefix: string, p: Path)
    requires forall i :: 0 <= i < |p| ==> PlainKey(p[i])
    requires prefix != "" || p != []
    ensures Split(KeyOf(prefix, p)) == (if prefix == "" then [] else Split(prefix)) + p
    decreases |p|
  {
    if p == [] {
      assert Split(prefix) + [] == Split(prefix);
    } else {
      SplitKeyOf(FullKey(prefix, p[0]), p[1..]);
      SplitPlain(p[0]);
      SplitAtDot(prefix, p[0]);
      assert [p[0]] + p[1..] == p;
      if prefix != "" {
        assert Split(prefix) + [p[0]] + p[1..] == Split(prefix) + p;
      } else {
        assert [] + p == p;
      }
    }
  }

  lemma {:induction false} PathsArePlain(t: Tree, p: Path)
    requires PlainKeys(t) && NodeAt(t, p).Some?
    ensures forall i :: 0 <= i < |p| ==> PlainKey(p[i])
    decreases |p|
  {
    if p != [] {
      PathsArePlain(t.kids[p[0]], p[1..]);
      assert forall i :: 0 < i < |p| ==> p[i] == p[1..][i - 1];
    }
  }

  // ---- trees without empty inner objects are determined by their leaves ---------------------------------

  predicate Solid(t: Tree) {
    t.Node? ==> t.kids != map[] && forall k :: k in t.kids ==> Solid(t.kids[k])
  }

  /** A whole file: an object, possibly empty, whose inner objects are not. */
  predicate Whole(t: Tree) {
    t.Node? && forall k :: k in t.kids ==> Solid(t.kids[k])
  }

  lemma {:induction false} SomeLeaf(t: Tree) returns (p: Path)
    requires Solid(t)
    ensures LeafAt(t, p).Some?
  {
    if t.Leaf? {
      p := [];
    } else {
      var k :| k in t.kids;
      var q := SomeLeaf(t.kids[k]);
      p := [k] + q;
      assert p[1..] == q;
    }
  }

  lemma Below(t: Tree, k: string, q: Path)
    requires t.Node? && k in t.kids
    ensures NodeAt(t, [k] + q) == NodeAt(t.kids[k], q)
  {
    assert ([k] + q)[1..] == q;
  }

  lemma {:induction false} KidsMatch(a: Tree, b: Tree, k: string)
    requires Whole(a) && Whole(b) && k in a.kids
    requires forall p :: LeafAt(a, p) == LeafAt(b, p)
    ensures k in b.kids && a.kids[k] == b.kids[k]
    decreases a, 0
  {
    var p := SomeLeaf(a.kids[k]);
    Below(a, k, p);
    assert LeafAt(b, [k] + p).Some?;
    assert k in b.kids;
    Below(b, k, p);
    forall q ensures LeafAt(a.kids[k], q) == LeafAt(b.kids[k], q) {
      Below(a, k, q);
      Below(b, k, q);
      assert LeafAt(a, [k] + q) == LeafAt(b, [k] + q);
    }
    assert LeafAt(a.kids[k], []) == LeafAt(b.kids[k], []);
    if a.kids[k].Node? {
      SameLeavesSameTree(a.kids[k], b.kids[k]);
    }
  }

  lemma {:induction false} SameLeavesSameTree(a: Tree, b: Tree)
    requires Whole(a) && Whole(b)
    requires forall p :: LeafAt(a, p) == LeafAt(b, p)
    ensures a == b
    decreases a, 1
  {
    forall k | k in a.kids ensures k in b.kids && a.kids[k] == b.kids[k] {
      KidsMatch(a, b, k);
    }
    forall k | k in b.kids ensures k in a.kids {
      var p := SomeLeaf(b.kids[k]);
      Below(b, k, p);
      assert LeafAt(a, [k] + p).Some?;
    }
    assert a.kids == b.kids;
  }

  // ---- rebuilding ------------------------------------------------------------------------------------

  datatype Row = Row(key: string, value: string)

  /**
   `setNested`: missing or empty-string steps become objects; stepping into any other string
   fails, as assigning a property of a string does in strict mode.
   */
  function SetNested(t: Tree, p: Path, value: string): Result<Tree, ()>
    requires p != []
    decreases |p|
  {
    if t.Leaf? then Err(())
    else if |p| == 1 then Ok(Node(t.kids[p[0] := Leaf(value)]))
    else
      var child := if p[0] in t.kids && t.kids[p[0]] != Leaf("") then t.kids[p[0]] else EMPTY;
      match SetNested(child, p[1..], value)
      case Err(e) => Err(e)
      case Ok(c) => Ok(Node(t.kids[p[0] := c]))
  }

  /** Nothing of `t` stands in the way of `p`: no leaf above it, no object at it. */
  predicate Free(t: Tree, p: Path)
    requires p != []
    decreases |p|
  {
    && t.Node?
    && (p[0] in t.kids ==>
          if |p| == 1 then t.kids[p[0]].Leaf? else Free(t.kids[p[0]], p[1..]))
  }

  lemma {:induction false} SetNestedSetsOneLeaf(t: Tree, p: Path, value: string, q: Path)
    requires p != [] && Free(t, p)
    ensures SetNested(t, p, value).Ok?
    ensures LeafAt(SetNested(t, p, value).value, q) == if q == p then Some(value) else LeafAt(t, q)
    decreases |p|
  {
    var child := if p[0] in t.kids && t.kids[p[0]] != Leaf("") then t.kids[p[0]] else EMPTY;
    if |p| > 1 {
      var tail := if q == [] then [] else q[1..];
      SetNestedSetsOneLeaf(child, p[1..], value, tail);
      if q != [] && q[0] == p[0] {
        assert q == p <==> q[1..] == p[1..] by { assert q == [q[0]] + q[1..] && p == [p[0]] + p[1..]; }
      }
    } else if q != [] && q[0] == p[0] {
      assert q == [q[0]] + q[1..] && p == [p[0]];
      assert q == p <==> q[1..] == [];
      assert NodeAt(SetNested(t, p, value).value, q) == NodeAt(Leaf(value), q[1..]);
      assert p[0] in t.kids ==> NodeAt(t, q) == NodeAt(t.kids[p[0]], q[1..]);
    }
  }

  lemma {:induction false} SetNestedKeepsWhole(t: Tree, p: Path, value: string)
    requires p != [] && Free(t, p) && Whole(t)
    ensures SetNested(t, p, value).Ok? && Whole(SetNested(t, p, value).value)
    ensures SetNested(t, p, value).value.kids != map[]
    decreases |p|
  {
    var child := if p[0] in t.kids && t.kids[p[0]] != Leaf("") then t.kids[p[0]] else EMPTY;
    if |p| > 1 {
      SetNestedKeepsWhole(child, p[1..], value);
    }
    assert p[0] in SetNested(t, p, value).value.kids;
  }

  lemma NoOtherRelative(t: Tree, p: Path, q: Path)
    requires LeafAt(t, q).Some? && (q <= p || p <= q)
    requires forall r :: LeafAt(t, r).Some? && (r <= p || p <= r) ==> r == p
    ensures q == p
  {
  }

  /** In a tree without empty objects, a path none of whose relatives is a leaf is free. */
  lemma {:induction false} NoRelativeMeansFree(t: Tree, p: Path)
    requires p != [] && Whole(t)
    requires forall q :: LeafAt(t, q).Some? && (q <= p || p <= q) ==> q == p
    ensures Free(t, p)
    decreases |p|
  {
    var k := p[0];
    if k in t.kids {
      if |p| == 1 {
        if t.kids[k].Node? {
          var q := SomeLeaf(t.kids[k]);
          Below(t, k, q);
          NoOtherRelative(t, p, [k] + q);
        }
      } else if t.kids[k].Leaf? {
        Below(t, k, []);
        NoOtherRelative(t, p, [k] + []);
      } else {
        forall q | LeafAt(t.kids[k], q).Some? && (q <= p[1..] || p[1..] <= q) ensures q == p[1..] {
          Below(t, k, q);
          assert p == [k] + p[1..];
          assert LeafAt(t, [k] + q).Some? && ([k] + q <= p || p <= [k] + q);
          assert [k] + q == p && ([k] + q)[1..] == q;
        }
        NoRelativeMeansFree(t.kids[k], p[1..]);
      }
    }
  }

  /** Folding `setNested` over rows, from an empty object. */
  function Rebuild(rows: seq<Row>): Result<Tree, ()> {
    if rows == [] then Ok(EMPTY)
    else
      match Rebuild(rows[..|rows| - 1])
      case Err(e) => Err(e)
      case Ok(t) => SetNested(t, Split(rows[|rows| - 1].key), rows[|rows| - 1].value)
  }

  /** Each row names a leaf of `t` and its text; rows may repeat and come in any order. */
  predicate RowsOf(t: Tree, rows: seq<Row>) {
    forall i :: 0 <= i < |rows| ==> LeafAt(t, Split(rows[i].key)) == Some(rows[i].value)
  }

  predicate Mentions(rows: seq<Row>, p: Path) {
    exists i :: 0 <= i < |rows| && Split(rows[i].key) == p
  }

  /** No leaf lies above another one: the dotted keys of a tree are prefix-free. */
  lemma {:induction false} LeavesArePrefixFree(t: Tree, p: Path, q: Path)
    requires LeafAt(t, p).Some? && LeafAt(t, q).Some? && p <= q
    ensures p == q
    decreases |p|
  {
    if p != [] {
      LeavesArePrefixFree(t.kids[p[0]], p[1..], q[1..]);
      assert p == [p[0]] + p[1..] && q == [q[0]] + q[1..];
    }
  }

  /** Rebuilding from rows of a tree gives exactly the leaves the rows mention. */
  lemma {:induction false} RebuildLeaves(t: Tree, rows: seq<Row>)
    requires Whole(t) && RowsOf(t, rows)
    ensures Rebuild(rows).Ok? && Whole(Rebuild(rows).value)
    ensures forall p :: LeafAt(Rebuild(rows).value, p) == if Mentions(rows, p) then LeafAt(t, p) else None
  {
    if rows == [] {
      forall p ensures LeafAt(EMPTY, p) == None {
      }
    } else {
      var init, last := rows[..|rows| - 1], rows[|rows| - 1];
      RebuildLeaves(t, init);
      var u, path := Rebuild(init).value, Split(last.key);
      forall q | LeafAt(u, q).Some? && (q <= path || path <= q) ensures q == path {
        if q <= path {
          LeavesArePrefixFree(t, q, path);
        } else {
          LeavesArePrefixFree(t, path, q);
        }
      }
      NoRelativeMeansFree(u, path);
      SetNestedKeepsWhole(u, path, last.value);
      forall p ensures LeafAt(Rebuild(rows).value, p) == if Mentions(rows, p) then LeafAt(t, p) else None {
        SetNestedSetsOneLeaf(u, path, last.value, p);
        MentionsSnoc(rows, p);
      }
    }
  }

  lemma MentionsSnoc(rows: seq<Row>, p: Path)
    requires rows != []
    ensures Mentions(rows, p) <==> Mentions(rows[..|rows| - 1], p) || Split(rows[|rows| - 1].key) == p
  {
    var init := rows[..|rows| - 1];
    if Mentions(rows, p) {
      var i :| 0 <= i < |rows| && Split(rows[i].key) == p;
      if i < |init| {
        assert init[i] == rows[i];
      }
    }
    if Mentions(init, p) {
      var i :| 0 <= i < |init| && Split(init[i].key) == p;
      assert rows[i] == init[i];
    }
  }

  /** Every leaf of the tree has its row. */
  ghost predicate Covers(t: Tree, rows: seq<Row>) {
    forall p :: LeafAt(t, p).Some? ==> Mentions(rows, p)
  }

  /** Rows that cover a tree rebuild it, in whatever order they come and however often they repeat. */
  lemma RebuildRestores(t: Tree, rows: seq<Row>)
    requires Whole(t) && RowsOf(t, rows) && Covers(t, rows)
    ensures Rebuild(rows) == Ok(t)
  {
    RebuildLeaves(t, rows);
    SameLeavesSameTree(Rebuild(rows).value, t);
  }
}
