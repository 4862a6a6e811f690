/**
 What repeated startups serve. Every startup inserts all file rows again, no unique index stops it,
 and rows are placed in insertion order, so the file's copy of a text is placed last.
 */
module TranslationReloads {
  import opened Prelude
  import opened Translations
  import opened Placements
  import opened TranslationService

  // ---- texts above and below one another -----------------------------------------------------------

  /** Above a text there is an object. */
  lemma {:induction false} AboveIsObject(t: Tree, q: Path, p: Path)
    requires q <= p && q != p && LeafAt(t, p).Some?
    ensures NodeAt(t, q).Some? && NodeAt(t, q).value.Node?
    decreases |q|
  {
    if q != [] {
      assert q == [q[0]] + q[1..] && p == [p[0]] + p[1..];
      AboveIsObject(t.kids[p[0]], q[1..], p[1..]);
    }
  }

  /** Some text of the tree lies above, at or below the path. */
  ghost predicate NearText(t: Tree, p: Path) {
    exists q :: LeafAt(t, q).Some? && Related(q, p)
  }

  /** Trees disagree on where objects are exactly when a text of one is strictly above or below one of the other. */
  lemma ClashIsNearness(a: Tree, b: Tree)
    requires Whole(a) && Whole(b)
    ensures Compatible(a, b) <==> forall p, q :: LeafAt(a, p).Some? && LeafAt(b, q).Some? && Related(p, q) ==> p == q
  {
    forall p, q | LeafAt(a, p).Some? && LeafAt(b, q).Some? && Related(p, q) && p != q ensures !Compatible(a, b) {
      if p <= q {
        AboveIsObject(b, p, q);
        assert Clash(a, b, p);
      } else {
        AboveIsObject(a, q, p);
        assert Clash(a, b, q);
      }
    }
    if !Compatible(a, b) {
      var r :| Clash(a, b, r);
      var p, q := ClashingTexts(a, b, r);
      assert LeafAt(a, p).Some? && LeafAt(b, q).Some?;
    }
  }

  lemma ClashingTexts(a: Tree, b: Tree, r: Path) returns (p: Path, q: Path)
    requires Whole(a) && Whole(b) && Clash(a, b, r)
    ensures LeafAt(a, p).Some? && LeafAt(b, q).Some? && Related(p, q) && p != q
  {
    SolidBelow(a, r);
    SolidBelow(b, r);
    var x := SomeLeaf(NodeAt(a, r).value);
    var y := SomeLeaf(NodeAt(b, r).value);
    NodeBelow(a, r, x);
    NodeBelow(b, r, y);
    p, q := r + x, r + y;
    if NodeAt(a, r).value.Leaf? {
      assert p == r;
    } else {
      assert q == r;
    }
  }

  // ---- what a load serves once the file was inserted ----------------------------------------------------

  /** The file's text; nothing where the file has a text above or below; else what the earlier rows leave. */
  ghost function FileFirst(first: seq<Row>, file: Tree, p: Path): Option<string> {
    if LeafAt(file, p).Some? then LeafAt(file, p)
    else if NearText(file, p) then None
    else Latest(first, p)
  }

  lemma CoveredOver(over: Tree, u: Tree, first: seq<Row>, file: Tree, more: seq<Row>, p: Path)
    requires RowsOf(file, more) && Covers(file, more) && PlacedOver(over, u, file, more)
    requires forall q :: LeafAt(u, q) == Latest(first, q)
    ensures LeafAt(over, p) == FileFirst(first, file, p)
  {
    assert LeafAt(over, p) == OverLeaf(u, file, more, p);
    if Mentions(more, p) {
      MentionsTexts(file, more, p);
    }
    if MentionsRelated(more, p) {
      var i :| 0 <= i < |more| && Related(Split(more[i].key), p);
      assert LeafAt(file, Split(more[i].key)) == Some(more[i].value);
    }
    if NearText(file, p) {
      var q :| LeafAt(file, q).Some? && Related(q, p);
      assert Mentions(more, q);
      var i :| 0 <= i < |more| && Split(more[i].key) == q;
    }
  }

  /** With all rows of a file behind any others, the rebuilt tree agrees with the file: the merge adds nothing. */
  lemma FileRowsWin(first: seq<Row>, more: seq<Row>, file: Tree, p: Path)
    requires Placeable(first + more) && Placeable(first)
    requires Whole(file) && RowsOf(file, more) && Covers(file, more)
    ensures Rebuild(first + more).Ok? && Rebuild(first + more).value.Node?
    ensures LeafAt(Merge(Rebuild(first + more).value, file), p) == FileFirst(first, file, p)
  {
    RebuildIsLatest(first);
    RebuildIsLatest(first + more);
    PlacingFileRows(first, file, more);
    var u, over := Rebuild(first).value, Rebuild(first + more).value;
    forall q ensures LeafAt(over, q) == FileFirst(first, file, q) {
      CoveredOver(over, u, first, file, more, q);
    }
    forall q, r | LeafAt(over, q).Some? && LeafAt(file, r).Some? && Related(q, r) ensures q == r {
      assert LeafAt(over, q) == FileFirst(first, file, q) && Related(r, q);
      if LeafAt(file, q).Some? {
        RelatedTextIsSame(file, q, r);
      }
    }
    ClashIsNearness(over, file);
    MergeWithoutClash(over, file, p);
  }

  /** Every row of the file is accepted. */
  ghost predicate AllAccepted(file: Tree, lang: string, accepts: Doc -> bool) {
    forall p :: LeafAt(file, p).Some? ==> accepts(Doc(lang, FileRow(file, p)))
  }

  ghost predicate PlainFile(files: map<string, Tree>, lang: string) {
    && (forall l :: l in files ==> files[l].Node?)
    && lang in files && Whole(files[lang]) && PlainKeys(files[lang])
  }

  /** The rows the insertions so far appended: rows of the file, and all of them once one insertion was complete. */
  ghost predicate Appended(docs: seq<Doc>, later: seq<Doc>, file: Tree, lang: string, complete: bool, more: seq<Row>) {
    && RowsFor(later, lang) == RowsFor(docs, lang) + more
    && RowsOf(file, more) && (complete ==> Covers(file, more))
  }

  lemma OneInsertion(docs: seq<Doc>, seeded: seq<Doc>, files: map<string, Tree>, accepts: Doc -> bool, lang: string)
    returns (more: seq<Row>)
    requires PlainFile(files, lang) && Extended(docs, seeded, files, accepts, lang)
    ensures Appended(docs, seeded, files[lang], lang, AllAccepted(files[lang], lang, accepts), more)
  {
    var file := files[lang];
    var full :| Flat(file, "", full) && RowsFor(seeded, lang) == RowsFor(docs, lang) + Kept(full, lang, accepts);
    more := Kept(full, lang, accepts);
    InsertedRows(file, full, lang, accepts);
  }

  lemma LoadedFileFirst(docs: seq<Doc>, later: seq<Doc>, files: map<string, Tree>, lang: string, more: seq<Row>)
    requires PlainFile(files, lang) && Appended(docs, later, files[lang], lang, true, more)
    requires Placeable(RowsFor(later, lang))
    ensures Loaded(later, files, lang).Some?
    ensures forall p :: LeafAt(Loaded(later, files, lang).value, p) == FileFirst(RowsFor(docs, lang), files[lang], p)
  {
    var file, first := files[lang], RowsFor(docs, lang);
    PlaceablePrefix(first, more);
    hide Placeable, Latest;
    forall p ensures LeafAt(Loaded(later, files, lang).value, p) == FileFirst(first, file, p) {
      FileRowsWin(first, more, file, p);
      if first + more == [] {
        NoRows(file, p);
      }
    }
  }

  /** Without any row, the file itself is served. */
  lemma NoRows(file: Tree, p: Path)
    ensures LeafAt(file, p) == FileFirst([], file, p)
  {
  }

  /**
   At the load after a complete insertion of its file, a language that loads at all is served from
   the file first: the file's texts, nothing above or below them, and earlier rows' texts elsewhere.
   The merge promises the opposite order.
   */
  lemma FileWinsOnceInserted(docs: seq<Doc>, seeded: seq<Doc>, files: map<string, Tree>, accepts: Doc -> bool,
                             lang: string)
    requires PlainFile(files, lang) && AllAccepted(files[lang], lang, accepts)
    requires Extended(docs, seeded, files, accepts, lang) && Placeable(RowsFor(seeded, lang))
    ensures Loaded(seeded, files, lang).Some?
    ensures forall p :: LeafAt(Loaded(seeded, files, lang).value, p) == FileFirst(RowsFor(docs, lang), files[lang], p)
  {
    var more := OneInsertion(docs, seeded, files, accepts, lang);
    LoadedFileFirst(docs, seeded, files, lang, more);
  }

  // ---- any number of insertions ---------------------------------------------------------------------------

  /** The collection from one insertion of the files to the next; each may accept different rows. */
  ghost predicate Insertions(docs: seq<seq<Doc>>, accepts: seq<Doc -> bool>, files: map<string, Tree>, lang: string)
    requires lang in files ==> files[lang].Node?
  {
    && |docs| == |accepts| + 1
    && forall i :: 0 <= i < |accepts| ==> Extended(docs[i], docs[i + 1], files, accepts[i], lang)
  }

  ghost predicate OneWasComplete(accepts: seq<Doc -> bool>, n: nat, file: Tree, lang: string)
    requires n <= |accepts|
  {
    exists i :: 0 <= i < n && AllAccepted(file, lang, accepts[i])
  }

  lemma {:induction false} AppendedSoFar(docs: seq<seq<Doc>>, accepts: seq<Doc -> bool>, files: map<string, Tree>,
                                         lang: string, n: nat)
    returns (more: seq<Row>)
    requires PlainFile(files, lang) && Insertions(docs, accepts, files, lang) && n <= |accepts|
    ensures Appended(docs[0], docs[n], files[lang], lang, OneWasComplete(accepts, n, files[lang], lang), more)
  {
    if n == 0 {
      more := [];
    } else {
      var before := AppendedSoFar(docs, accepts, files, lang, n - 1);
      assert Extended(docs[n - 1], docs[n - 1 + 1], files, accepts[n - 1], lang);
      var last := OneInsertion(docs[n - 1], docs[n], files, accepts[n - 1], lang);
      var file := files[lang];
      hide Extended, AllAccepted, Appended, Whole, PlainKeys;
      more := before + last;
      AppendedTogether(docs[0], docs[n - 1], docs[n], file, lang, OneWasComplete(accepts, n - 1, file, lang),
                       AllAccepted(file, lang, accepts[n - 1]), before, last);
      OneMoreInsertion(accepts, n, file, lang);
    }
  }

  lemma AppendedTogether(docs: seq<Doc>, mid: seq<Doc>, later: seq<Doc>, file: Tree, lang: string,
                         a: bool, b: bool, before: seq<Row>, last: seq<Row>)
    requires Appended(docs, mid, file, lang, a, before) && Appended(mid, later, file, lang, b, last)
    ensures Appended(docs, later, file, lang, a || b, before + last)
  {
    assert RowsFor(docs, lang) + before + last == RowsFor(docs, lang) + (before + last);
    JoinedRows(file, before, last);
  }

  lemma OneMoreInsertion(accepts: seq<Doc -> bool>, n: nat, file: Tree, lang: string)
    requires 0 < n <= |accepts|
    ensures OneWasComplete(accepts, n, file, lang)
            <==> OneWasComplete(accepts, n - 1, file, lang) || AllAccepted(file, lang, accepts[n - 1])
  {
  }

  lemma JoinedRows(file: Tree, before: seq<Row>, last: seq<Row>)
    requires RowsOf(file, before) && RowsOf(file, last)
    ensures RowsOf(file, before + last)
    ensures Covers(file, before) || Covers(file, last) ==> Covers(file, before + last)
  {
    var all := before + last;
    forall i | 0 <= i < |all| ensures LeafAt(file, Split(all[i].key)) == Some(all[i].value) {
      if i < |before| {
        assert all[i] == before[i];
      } else {
        assert all[i] == last[i - |before|];
      }
    }
    forall p | Mentions(before, p) || Mentions(last, p) ensures Mentions(all, p) {
      if Mentions(before, p) {
        var i :| 0 <= i < |before| && Split(before[i].key) == p;
        assert all[i] == before[i];
      } else {
        var i :| 0 <= i < |last| && Split(last[i].key) == p;
        assert all[|before| + i] == last[i];
      }
    }
  }

  /** No text the rows leave blocks a text of the file. */
  ghost predicate LeavesRoomFor(rows: seq<Row>, file: Tree) {
    forall p :: LeafAt(file, p).Some? ==> !BlockedByRows(rows, p)
  }

  /**
   After any number of insertions, at least one of them complete, a load succeeds exactly when the
   rows from before the first one can be placed and leave room for the file, and then it serves the
   file first, for good.
   */
  lemma EveryLaterLoad(docs: seq<seq<Doc>>, accepts: seq<Doc -> bool>, files: map<string, Tree>, lang: string, n: nat)
    requires PlainFile(files, lang) && Insertions(docs, accepts, files, lang) && n <= |accepts|
    requires OneWasComplete(accepts, n, files[lang], lang)
    ensures Placeable(RowsFor(docs[n], lang))
            <==> Placeable(RowsFor(docs[0], lang)) && LeavesRoomFor(RowsFor(docs[0], lang), files[lang])
    ensures Placeable(RowsFor(docs[n], lang)) ==>
              && Loaded(docs[n], files, lang).Some?
              && forall p :: LeafAt(Loaded(docs[n], files, lang).value, p)
                             == FileFirst(RowsFor(docs[0], lang), files[lang], p)
  {
    var file, first := files[lang], RowsFor(docs[0], lang);
    var more := AppendedSoFar(docs, accepts, files, lang, n);
    PlaceablePrefix(first, more);
    if Placeable(first) {
      RoomIffPlaceable(first, file, more);
    }
    if Placeable(RowsFor(docs[n], lang)) {
      LoadedFileFirst(docs[0], docs[n], files, lang, more);
    }
  }

  lemma RoomIffPlaceable(first: seq<Row>, file: Tree, more: seq<Row>)
    requires Placeable(first) && RowsOf(file, more) && Covers(file, more)
    ensures Placeable(first + more) <==> LeavesRoomFor(first, file)
  {
    PlaceableOverIff(first, file, more);
    forall p ensures Mentions(more, p) <==> LeafAt(file, p).Some? {
      if Mentions(more, p) {
        MentionsTexts(file, more, p);
      }
    }
  }

  // ---- what is left of the promise --------------------------------------------------------------------------

  /** Rows and file never differ on a text. */
  ghost predicate Agree(u: Tree, file: Tree) {
    forall p :: LeafAt(u, p).Some? && LeafAt(file, p).Some? ==> LeafAt(u, p) == LeafAt(file, p)
  }

  /** The load succeeds, and every path is served with the rows' text, else the file's, as the merge promises. */
  ghost predicate RowsStillWin(u: Tree, seeded: seq<Doc>, files: map<string, Tree>, lang: string)
    requires (forall l :: l in files ==> files[l].Node?) && lang in files
  {
    && Placeable(RowsFor(seeded, lang)) && Loaded(seeded, files, lang).Some?
    && forall p :: LeafAt(Loaded(seeded, files, lang).value, p) == LeftBiased(u, files[lang], p)
  }

  /** File first and rows first are the same exactly for trees that agree on objects and on texts. */
  lemma OrdersCoincide(first: seq<Row>, u: Tree, file: Tree)
    requires Whole(u) && Whole(file) && forall q :: LeafAt(u, q) == Latest(first, q)
    ensures (forall p :: FileFirst(first, file, p) == LeftBiased(u, file, p)) <==> Compatible(u, file) && Agree(u, file)
  {
    ClashIsNearness(u, file);
    if Compatible(u, file) && Agree(u, file) {
      forall p ensures FileFirst(first, file, p) == LeftBiased(u, file, p) {
        if LeafAt(u, p).Some? && NearText(file, p) {
          var q :| LeafAt(file, q).Some? && Related(q, p);
          assert Related(p, q);
        }
      }
    }
    forall p | LeafAt(u, p).Some? && LeafAt(file, p).Some? && LeafAt(u, p) != LeafAt(file, p)
      ensures FileFirst(first, file, p) != LeftBiased(u, file, p)
    {
    }
    forall p, q | LeafAt(u, p).Some? && LeafAt(file, q).Some? && Related(p, q) && p != q
      ensures FileFirst(first, file, p) != LeftBiased(u, file, p)
    {
      assert Related(q, p);
      if LeafAt(file, p).Some? {
        RelatedTextIsSame(file, p, q);
      }
    }
  }

  /** Trees that agree on objects leave room for one another. */
  lemma CompatibleLeavesRoom(first: seq<Row>, u: Tree, file: Tree)
    requires Whole(u) && Whole(file) && Compatible(u, file) && forall q :: LeafAt(u, q) == Latest(first, q)
    ensures LeavesRoomFor(first, file)
  {
    ClashIsNearness(u, file);
    forall p | LeafAt(file, p).Some? ensures !BlockedByRows(first, p) {
      forall k | 0 <= k < |p| ensures Latest(first, p[..k]).None? {
        assert Related(p[..k], p) && |p[..k]| < |p|;
      }
    }
  }

  /**
   The rows keep winning over the file, as the merge promises, exactly when they agree with it on
   where objects are and never differ from it on a text. Any other override is lost at the first load
   after the file was inserted, or that load fails.
   */
  lemma OverridesSurviveIffTheyAgree(docs: seq<Doc>, seeded: seq<Doc>, files: map<string, Tree>,
                                     accepts: Doc -> bool, lang: string)
    requires PlainFile(files, lang) && AllAccepted(files[lang], lang, accepts)
    requires Extended(docs, seeded, files, accepts, lang) && Rebuild(RowsFor(docs, lang)).Ok?
    ensures var u := Rebuild(RowsFor(docs, lang)).value;
            RowsStillWin(u, seeded, files, lang) <==> Compatible(u, files[lang]) && Agree(u, files[lang])
  {
    var file, first := files[lang], RowsFor(docs, lang);
    var u := Rebuild(first).value;
    RebuildIsLatest(first);
    OrdersCoincide(first, u, file);
    var more := OneInsertion(docs, seeded, files, accepts, lang);
    RoomIffPlaceable(first, file, more);
    if Compatible(u, file) {
      CompatibleLeavesRoom(first, u, file);
    }
    if Placeable(RowsFor(seeded, lang)) {
      LoadedFileFirst(docs, seeded, files, lang, more);
      SameAsLoaded(first, u, seeded, files, lang);
    }
  }

  lemma SameAsLoaded(first: seq<Row>, u: Tree, seeded: seq<Doc>, files: map<string, Tree>, lang: string)
    requires PlainFile(files, lang) && Placeable(RowsFor(seeded, lang)) && Loaded(seeded, files, lang).Some?
    requires forall p :: LeafAt(Loaded(seeded, files, lang).value, p) == FileFirst(first, files[lang], p)
    ensures RowsStillWin(u, seeded, files, lang)
            <==> forall p :: FileFirst(first, files[lang], p) == LeftBiased(u, files[lang], p)
  {
    var served := Loaded(seeded, files, lang).value;
    if RowsStillWin(u, seeded, files, lang) {
      forall p ensures FileFirst(first, files[lang], p) == LeftBiased(u, files[lang], p) {
        assert LeafAt(served, p) == FileFirst(first, files[lang], p);
      }
    }
    if forall p :: FileFirst(first, files[lang], p) == LeftBiased(u, files[lang], p) {
      forall p ensures LeafAt(served, p) == LeftBiased(u, files[lang], p) {
        assert LeafAt(served, p) == FileFirst(first, files[lang], p);
      }
    }
  }

  // ---- three instances ----------------------------------------------------------------------------------------

  /** A tree with the one text `hi`. */
  function Greeting(text: string): Tree {
    Node(map["hi" := Leaf(text)])
  }

  lemma PlacingGreeting(rows: seq<Row>, text: string)
    requires rows != [] && rows[|rows| - 1] == Row("hi", text)
    requires Rebuild(rows[..|rows| - 1]).Ok? && Rebuild(rows[..|rows| - 1]).value.Node?
    requires Rebuild(rows[..|rows| - 1]).value.kids.Keys <= {"hi"}
    ensures Rebuild(rows) == Ok(Greeting(text))
  {
    SplitPlain("hi");
    var t := Rebuild(rows[..|rows| - 1]).value;
    assert t.kids["hi" := Leaf(text)] == map["hi" := Leaf(text)];
  }

  lemma MergingGreetings(target: string, source: string)
    ensures Merge(Greeting(target), Greeting(source)) == Greeting(target)
  {
    assert Merge(Greeting(target), Greeting(source)).kids == Greeting(target).kids;
  }

  lemma TwoRows(a: Row, b: Row)
    ensures RowsFor([Doc("en", a)], "en") == [a] && RowsFor([Doc("en", a), Doc("en", b)], "en") == [a, b]
  {
    RebuildOneMore([], Doc("en", a));
    RebuildOneMore([Doc("en", a)], Doc("en", b));
    assert [] + [Doc("en", a)] == [Doc("en", a)] && [Doc("en", a)] + [Doc("en", b)] == [Doc("en", a), Doc("en", b)];
    assert RowsFor([], "en") + [a] == [a] && [a] + [b] == [a, b];
  }

  lemma SplitNested()
    ensures Split("hi") == ["hi"] && Split("hi.there") == ["hi", "there"]
  {
    SplitPlain("hi");
    SplitPlain("there");
    SplitAtDot("hi", "there");
    assert "hi" + "." + "there" == "hi.there";
  }

  /** A row that overrides the file's only text is served before the file is inserted, and not after. */
  lemma OverrideIsLost()
    ensures var files, custom, stored := map["en" := Greeting("Hello")], Row("hi", "Welcome"), Row("hi", "Hello");
            && Loaded([Doc("en", custom)], files, "en") == Some(Greeting("Welcome"))
            && Loaded([Doc("en", custom), Doc("en", stored)], files, "en") == Some(Greeting("Hello"))
  {
    var a, b := Row("hi", "Welcome"), Row("hi", "Hello");
    TwoRows(a, b);
    PlacingGreeting([a], "Welcome");
    PlacingGreeting([a, b], "Hello");
    MergingGreetings("Welcome", "Hello");
    MergingGreetings("Hello", "Hello");
  }

  function NestedGreeting(text: string): Tree {
    Node(map["hi" := Node(map["there" := Leaf(text)])])
  }

  lemma PlacingNested(text: string)
    ensures Rebuild([Row("hi.there", text)]) == Ok(NestedGreeting(text))
  {
    SplitNested();
    var row := Row("hi.there", text);
    assert [row][..0] == [] && ["hi", "there"][1..] == ["there"];
    assert SetNested(EMPTY, ["there"], text) == Ok(Node(map["there" := Leaf(text)]));
  }

  lemma NestedTexts(text: string, other: string, p: Path)
    ensures LeafAt(NestedGreeting(text), ["hi", "there"]) == Some(text)
    ensures LeafAt(NestedGreeting(text), p).Some? ==> |p| == 2
    ensures LeafAt(Greeting(other), p).Some? ==> |p| == 1
  {
    var t := NestedGreeting(text);
    assert ["hi", "there"][1..] == ["there"] && ["there"][1..] == [];
    assert NodeAt(t, ["hi", "there"]) == NodeAt(t.kids["hi"], ["there"]);
    assert NodeAt(t.kids["hi"], ["there"]) == NodeAt(Leaf(text), []);
    if p != [] && p[0] == "hi" {
      assert NodeAt(t, p) == NodeAt(t.kids["hi"], p[1..]) && NodeAt(Greeting(other), p) == NodeAt(Leaf(other), p[1..]);
      if |p| > 1 && p[1] == "there" {
        assert NodeAt(t.kids["hi"], p[1..]) == NodeAt(Leaf(text), p[1..][1..]);
      }
    }
  }

  /** So is a row below a text of the file, although the two never differ on a text. */
  lemma NestedOverrideIsLost()
    ensures var files, custom, stored := map["en" := Greeting("Hello")], Row("hi.there", "x"), Row("hi", "Hello");
            && Rebuild([custom]) == Ok(NestedGreeting("x"))
            && LeafAt(NestedGreeting("x"), ["hi", "there"]) == Some("x")
            && Agree(NestedGreeting("x"), Greeting("Hello"))
            && Loaded([Doc("en", custom), Doc("en", stored)], files, "en") == Some(Greeting("Hello"))
  {
    var a, b := Row("hi.there", "x"), Row("hi", "Hello");
    TwoRows(a, b);
    PlacingNested("x");
    assert [a, b][..1] == [a];
    PlacingGreeting([a, b], "Hello");
    MergingGreetings("Hello", "Hello");
    hide NodeAt, Rebuild, Merge, RowsFor, NestedGreeting, Greeting;
    forall p { NestedTexts("x", "Hello", p); }
  }

  /**
   A release that turns the text `hi` into an object stops every later startup: the row seeded by the
   release before blocks the new one.
   */
  lemma NewReleaseCannotStart()
    ensures !Placeable(RowsFor([Doc("en", Row("hi", "Welcome")), Doc("en", Row("hi.there", "x"))], "en"))
  {
    var a, b := Row("hi", "Welcome"), Row("hi.there", "x");
    SplitNested();
    TwoRows(a, b);
    assert [a, b][..1] == [a] && ["hi", "there"][..1] == ["hi"];
    assert Latest([a], ["hi"]) == Some("Welcome");
    assert StepsIntoText([a, b], 1);
  }
}
