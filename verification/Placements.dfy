/**
 Placing rows one after the other over whatever is already there: when a row can be placed, and
 which texts are left at the end. The row placed last wins over every row above, at or below it.
 */
module Placements {
  import opened Prelude
  import opened Translations

  /** One path lies above the other, or they are the same. */
  predicate Related(p: Path, q: Path) {
    p <= q || q <= p
  }

  /** A text other than the empty one lies strictly above the path. */
  predicate Blocked(t: Tree, p: Path) {
    exists k :: 0 <= k < |p| && LeafAt(t, p[..k]).Some? && LeafAt(t, p[..k]).value != ""
  }

  // ---- one row -------------------------------------------------------------------------------------

  lemma BlockedBelow(t: Tree, p: Path)
    requires t.Node? && p != []
    ensures Blocked(t, p)
            <==> p[0] in t.kids && |p| > 1 && t.kids[p[0]] != Leaf("") && Blocked(t.kids[p[0]], p[1..])
  {
    var head, tail := p[0], p[1..];
    forall k | 0 < k < |p| ensures p[..k] == [head] + tail[..k - 1] && p[..k][1..] == tail[..k - 1] {
    }
    if Blocked(t, p) {
      var k :| 0 <= k < |p| && LeafAt(t, p[..k]).Some? && LeafAt(t, p[..k]).value != "";
      assert k > 0 && LeafAt(t.kids[head], tail[..k - 1]) == LeafAt(t, p[..k]);
    }
    if head in t.kids && Blocked(t.kids[head], tail) {
      var k :| 0 <= k < |tail| && LeafAt(t.kids[head], tail[..k]).Some? && LeafAt(t.kids[head], tail[..k]).value != "";
      assert LeafAt(t, p[..k + 1]) == LeafAt(t.kids[head], tail[..k]);
    }
  }

  lemma TextBlocks(text: string, p: Path)
    requires p != []
    ensures Blocked(Leaf(text), p) <==> text != ""
  {
    assert p[..0] == [] && LeafAt(Leaf(text), []) == Some(text);
    assert forall k :: 0 < k < |p| ==> LeafAt(Leaf(text), p[..k]) == None;
  }

  /** A row can be placed exactly when no text blocks its path. */
  lemma {:induction false} PlacedIffNotBlocked(t: Tree, p: Path, value: string)
    requires t.Node? && p != []
    ensures SetNested(t, p, value).Ok? <==> !Blocked(t, p)
    decreases |p|
  {
    BlockedBelow(t, p);
    if |p| > 1 {
      var child := if p[0] in t.kids && t.kids[p[0]] != Leaf("") then t.kids[p[0]] else EMPTY;
      if child.Leaf? {
        TextBlocks(child.text, p[1..]);
      } else {
        PlacedIffNotBlocked(child, p[1..], value);
        if child == EMPTY {
          BlockedBelow(EMPTY, p[1..]);
        }
      }
    }
  }

  lemma RelatedBelow(p: Path, q: Path)
    requires p != [] && q != []
    ensures Related(p, q) <==> p[0] == q[0] && Related(p[1..], q[1..])
    ensures p == q <==> p[0] == q[0] && p[1..] == q[1..]
  {
    assert p == [p[0]] + p[1..] && q == [q[0]] + q[1..];
  }

  /** A placed row's text is at its path, and every other text above or below it is gone. */
  lemma {:induction false} PlacingLeaves(t: Tree, p: Path, value: string, q: Path)
    requires t.Node? && p != [] && SetNested(t, p, value).Ok?
    ensures LeafAt(SetNested(t, p, value).value, q)
            == if q == p then Some(value) else if Related(p, q) then None else LeafAt(t, q)
    decreases |p|
  {
    if q != [] {
      RelatedBelow(p, q);
      var n := SetNested(t, p, value).value;
      if q[0] == p[0] {
        assert NodeAt(n, q) == NodeAt(n.kids[p[0]], q[1..]);
        assert p[0] in t.kids ==> NodeAt(t, q) == NodeAt(t.kids[p[0]], q[1..]);
        if |p| > 1 {
          var child := if p[0] in t.kids && t.kids[p[0]] != Leaf("") then t.kids[p[0]] else EMPTY;
          PlacingLeaves(child, p[1..], value, q[1..]);
        }
      }
    }
  }

  lemma {:induction false} PlacingKeepsWhole(t: Tree, p: Path, value: string)
    requires Whole(t) && p != [] && SetNested(t, p, value).Ok?
    ensures Whole(SetNested(t, p, value).value) && SetNested(t, p, value).value.kids != map[]
    decreases |p|
  {
    var n := SetNested(t, p, value).value;
    if |p| > 1 {
      var child := if p[0] in t.kids && t.kids[p[0]] != Leaf("") then t.kids[p[0]] else EMPTY;
      PlacingKeepsWhole(child, p[1..], value);
    }
    assert p[0] in n.kids;
  }

  // ---- any rows -------------------------------------------------------------------------------------

  /** The text at a path, by the latest row above, at or below it: its own, or none if it is another path's. */
  function Latest(rows: seq<Row>, q: Path): Option<string> {
    if rows == [] then None
    else
      var last := rows[|rows| - 1];
      if Split(last.key) == q then Some(last.value)
      else if Related(Split(last.key), q) then None
      else Latest(rows[..|rows| - 1], q)
  }

  /** Some step above the path is a text the rows leave there, and not the empty one. */
  predicate BlockedByRows(rows: seq<Row>, p: Path) {
    exists k :: 0 <= k < |p| && Latest(rows, p[..k]).Some? && Latest(rows, p[..k]).value != ""
  }

  /** Where row `i` comes to be placed, a text is in its way. */
  predicate StepsIntoText(rows: seq<Row>, i: nat)
    requires i < |rows|
  {
    BlockedByRows(rows[..i], Split(rows[i].key))
  }

  predicate Placeable(rows: seq<Row>) {
    forall i :: 0 <= i < |rows| ==> !StepsIntoText(rows, i)
  }

  lemma PlaceableSnoc(rows: seq<Row>)
    requires rows != []
    ensures Placeable(rows) <==> Placeable(rows[..|rows| - 1]) && !StepsIntoText(rows, |rows| - 1)
  {
    var n := |rows| - 1;
    var init := rows[..n];
    forall i | 0 <= i < n ensures StepsIntoText(rows, i) <==> StepsIntoText(init, i) {
      assert init[..i] == rows[..i];
    }
  }

  /**
   Any rows rebuild exactly when none of them steps into a text, and then the tree has no empty
   inner object and holds at every path what the latest related row left there.
   */
  lemma {:induction false} RebuildIsLatest(rows: seq<Row>)
    ensures Rebuild(rows).Ok? <==> Placeable(rows)
    ensures Rebuild(rows).Ok? ==>
              && Whole(Rebuild(rows).value)
              && forall q :: LeafAt(Rebuild(rows).value, q) == Latest(rows, q)
    decreases |rows|
  {
    if rows == [] {
      forall q ensures LeafAt(EMPTY, q) == None {
      }
    } else {
      var n := |rows| - 1;
      var init, path, value := rows[..n], Split(rows[n].key), rows[n].value;
      RebuildIsLatest(init);
      PlaceableSnoc(rows);
      if Rebuild(init).Ok? {
        var u := Rebuild(init).value;
        PlacedIffNotBlocked(u, path, value);
        assert StepsIntoText(rows, n) <==> Blocked(u, path);
        if SetNested(u, path, value).Ok? {
          PlacingKeepsWhole(u, path, value);
          forall q ensures LeafAt(Rebuild(rows).value, q) == Latest(rows, q) {
            PlacingLeaves(u, path, value, q);
          }
        }
      }
    }
  }

  // ---- a file's rows behind any others ------------------------------------------------------------------

  predicate MentionsRelated(rows: seq<Row>, p: Path) {
    exists i :: 0 <= i < |rows| && Related(Split(rows[i].key), p)
  }

  /** Rows `rows` of a file over the tree `u`: theirs where they have one, none above or below, else the tree's. */
  ghost predicate PlacedOver(over: Tree, u: Tree, file: Tree, rows: seq<Row>) {
    forall p :: LeafAt(over, p) == OverLeaf(u, file, rows, p)
  }

  function OverLeaf(u: Tree, file: Tree, rows: seq<Row>, p: Path): Option<string> {
    if Mentions(rows, p) then LeafAt(file, p)
    else if MentionsRelated(rows, p) then None
    else LeafAt(u, p)
  }

  lemma MentionsRelatedSnoc(rows: seq<Row>, p: Path)
    requires rows != []
    ensures MentionsRelated(rows, p)
            <==> MentionsRelated(rows[..|rows| - 1], p) || Related(Split(rows[|rows| - 1].key), p)
  {
    var init := rows[..|rows| - 1];
    if MentionsRelated(rows, p) {
      var i :| 0 <= i < |rows| && Related(Split(rows[i].key), p);
      assert i < |init| ==> init[i] == rows[i];
    }
    if MentionsRelated(init, p) {
      var i :| 0 <= i < |init| && Related(Split(init[i].key), p);
      assert rows[i] == init[i];
    }
  }

  lemma RelatedTextIsSame(file: Tree, p: Path, q: Path)
    requires LeafAt(file, p).Some? && LeafAt(file, q).Some? && Related(p, q)
    ensures p == q
  {
    if p <= q {
      LeavesArePrefixFree(file, p, q);
    } else {
      LeavesArePrefixFree(file, q, p);
    }
  }

  /** No text of the tree stands above a row's path. */
  predicate NoneBlocked(u: Tree, rows: seq<Row>) {
    forall i :: 0 <= i < |rows| ==> !Blocked(u, Split(rows[i].key))
  }

  lemma NoneBlockedSnoc(u: Tree, rows: seq<Row>)
    requires rows != []
    ensures NoneBlocked(u, rows)
            <==> NoneBlocked(u, rows[..|rows| - 1]) && !Blocked(u, Split(rows[|rows| - 1].key))
  {
    assert forall i :: 0 <= i < |rows| - 1 ==> rows[..|rows| - 1][i] == rows[i];
  }

  /** Rows of one file never block one another, and never clear the way for one another. */
  lemma BlockedOverIffBlocked(over: Tree, u: Tree, file: Tree, rows: seq<Row>, path: Path)
    requires RowsOf(file, rows) && PlacedOver(over, u, file, rows) && NoneBlocked(u, rows) && LeafAt(file, path).Some?
    ensures Blocked(over, path) <==> Blocked(u, path)
  {
    forall k | 0 <= k < |path| ensures LeafAt(file, path[..k]).None? {
      if LeafAt(file, path[..k]).Some? {
        LeavesArePrefixFree(file, path[..k], path);
      }
    }
    if Blocked(over, path) {
      var k :| 0 <= k < |path| && LeafAt(over, path[..k]).Some? && LeafAt(over, path[..k]).value != "";
      assert LeafAt(over, path[..k]) == OverLeaf(u, file, rows, path[..k]);
      assert LeafAt(u, path[..k]) == LeafAt(over, path[..k]);
    }
    if Blocked(u, path) {
      var k :| 0 <= k < |path| && LeafAt(u, path[..k]).Some? && LeafAt(u, path[..k]).value != "";
      NothingRelatedMentioned(u, file, rows, path, k);
      assert LeafAt(over, path[..k]) == OverLeaf(u, file, rows, path[..k]);
    }
  }

  lemma MentionsTexts(file: Tree, rows: seq<Row>, p: Path)
    requires RowsOf(file, rows) && Mentions(rows, p)
    ensures LeafAt(file, p).Some?
  {
    var i :| 0 <= i < |rows| && Split(rows[i].key) == p;
    assert LeafAt(file, Split(rows[i].key)) == Some(rows[i].value);
  }

  lemma TextAboveBlocks(u: Tree, above: Path, m: Path)
    requires LeafAt(u, above).Some? && LeafAt(u, above).value != "" && above <= m && above != m
    ensures Blocked(u, m)
  {
    assert m[..|above|] == above;
  }

  /** No row of the file is related to a text of the tree that blocks another path of the file. */
  lemma NothingRelatedMentioned(u: Tree, file: Tree, rows: seq<Row>, path: Path, k: nat)
    requires RowsOf(file, rows) && NoneBlocked(u, rows) && LeafAt(file, path).Some? && k < |path|
    requires LeafAt(u, path[..k]).Some? && LeafAt(u, path[..k]).value != ""
    ensures !MentionsRelated(rows, path[..k]) && !Mentions(rows, path[..k])
  {
    forall i | 0 <= i < |rows| ensures !Related(Split(rows[i].key), path[..k]) {
      var m := Split(rows[i].key);
      assert LeafAt(file, m) == Some(rows[i].value);
      if m <= path[..k] {
        assert m <= path;
        RelatedTextIsSame(file, m, path);
      } else if path[..k] <= m {
        TextAboveBlocks(u, path[..k], m);
      }
    }
  }

  /**
   Rows of a file can be placed over any rebuilt tree exactly when no text of that tree blocks one of
   them; then each is at its path, and no other text of the tree is left above or below it.
   */
  lemma {:induction false} PlacingFileRows(first: seq<Row>, file: Tree, rows: seq<Row>)
    requires Rebuild(first).Ok? && RowsOf(file, rows)
    ensures Rebuild(first + rows).Ok? <==> NoneBlocked(Rebuild(first).value, rows)
    ensures Rebuild(first + rows).Ok? ==>
              && Whole(Rebuild(first + rows).value)
              && PlacedOver(Rebuild(first + rows).value, Rebuild(first).value, file, rows)
    decreases |rows|
  {
    RebuildIsLatest(first);
    var u := Rebuild(first).value;
    if rows == [] {
      assert first + rows == first;
    } else {
      var init, last := rows[..|rows| - 1], rows[|rows| - 1];
      var path := Split(last.key);
      assert (first + rows)[..|first + rows| - 1] == first + init;
      PlacingFileRows(first, file, init);
      NoneBlockedSnoc(u, rows);
      if Rebuild(first + init).Ok? {
        var over := Rebuild(first + init).value;
        BlockedOverIffBlocked(over, u, file, init, path);
        PlacedIffNotBlocked(over, path, last.value);
        if !Blocked(over, path) {
          PlacingKeepsWhole(over, path, last.value);
          PlacingOne(over, u, file, rows);
        }
      }
    }
  }

  lemma PlacingOne(over: Tree, u: Tree, file: Tree, rows: seq<Row>)
    requires rows != [] && over.Node? && RowsOf(file, rows) && PlacedOver(over, u, file, rows[..|rows| - 1])
    requires SetNested(over, Split(rows[|rows| - 1].key), rows[|rows| - 1].value).Ok?
    ensures PlacedOver(SetNested(over, Split(rows[|rows| - 1].key), rows[|rows| - 1].value).value, u, file, rows)
  {
    var last := rows[|rows| - 1];
    var path := Split(last.key);
    assert LeafAt(file, path) == Some(last.value);
    forall p ensures LeafAt(SetNested(over, path, last.value).value, p) == OverLeaf(u, file, rows, p) {
      PlacingLeaves(over, path, last.value, p);
      MentionsSnoc(rows, p);
      MentionsRelatedSnoc(rows, p);
      assert LeafAt(over, p) == OverLeaf(u, file, rows[..|rows| - 1], p);
      if Related(path, p) && Mentions(rows[..|rows| - 1], p) {
        MentionsTexts(file, rows, p);
        RelatedTextIsSame(file, path, p);
      }
    }
  }

  lemma PlaceablePrefix(first: seq<Row>, more: seq<Row>)
    ensures Placeable(first + more) ==> Placeable(first)
  {
    forall i | Placeable(first + more) && 0 <= i < |first| ensures !StepsIntoText(first, i) {
      assert (first + more)[..i] == first[..i] && !StepsIntoText(first + more, i);
    }
  }

  /** The same in terms of the rows: a file's rows can follow others exactly when none of its paths is blocked. */
  lemma PlaceableOverIff(first: seq<Row>, file: Tree, rows: seq<Row>)
    requires Placeable(first) && RowsOf(file, rows)
    ensures Placeable(first + rows) <==> forall p :: Mentions(rows, p) ==> !BlockedByRows(first, p)
  {
    RebuildIsLatest(first);
    RebuildIsLatest(first + rows);
    PlacingFileRows(first, file, rows);
    var u := Rebuild(first).value;
    forall p ensures Blocked(u, p) <==> BlockedByRows(first, p) {
    }
    forall i | 0 <= i < |rows| ensures Mentions(rows, Split(rows[i].key)) {
    }
  }
}
