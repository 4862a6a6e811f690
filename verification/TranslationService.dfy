/** The merge that fills gaps, flattening, and the loading of translations from database rows and files. */
module TranslationService {
  import opened Prelude
  import opened Translations
  import opened Placements

  // ---- deepMerge ---------------------------------------------------------------------------------

  /** `deepMerge`: source objects are entered (replacing anything but an object), source texts only fill gaps. */
  function Merge(t: Tree, s: Tree): (r: Tree)
    requires t.Node? && s.Node?
    ensures r.Node?
    decreases s
  {
    Node(map k | k in t.kids.Keys + s.kids.Keys ::
      if k !in s.kids then t.kids[k]
      else if s.kids[k].Leaf? then (if k in t.kids then t.kids[k] else s.kids[k])
      else Merge(if k in t.kids && t.kids[k].Node? then t.kids[k] else EMPTY, s.kids[k]))
  }

  /** No path leads to a text in one tree and to an object in the other. */
  ghost predicate Compatible(t: Tree, s: Tree) {
    forall p :: !Clash(t, s, p)
  }

  predicate Clash(t: Tree, s: Tree, p: Path) {
    NodeAt(t, p).Some? && NodeAt(s, p).Some? && NodeAt(t, p).value.Leaf? != NodeAt(s, p).value.Leaf?
  }

  function LeftBiased(t: Tree, s: Tree, p: Path): Option<string> {
    if LeafAt(t, p).Some? then LeafAt(t, p) else LeafAt(s, p)
  }

  lemma {:induction false} EmptyMergeLeaves(s: Tree, p: Path)
    requires s.Node?
    ensures LeafAt(Merge(EMPTY, s), p) == LeafAt(s, p)
    decreases |p|
  {
    if p != [] && p[0] in s.kids && s.kids[p[0]].Node? {
      EmptyMergeLeaves(s.kids[p[0]], p[1..]);
    }
  }

  lemma Step(t: Tree, p: Path)
    requires p != []
    ensures NodeAt(t, p) == if t.Node? && p[0] in t.kids then NodeAt(t.kids[p[0]], p[1..]) else None
  {
  }

  lemma {:induction false} MergeWithoutClash(t: Tree, s: Tree, p: Path)
    requires t.Node? && s.Node? && Compatible(t, s)
    ensures LeafAt(Merge(t, s), p) == LeftBiased(t, s, p)
    decreases |p|
  {
    if p != [] && p[0] in s.kids {
      var k := p[0];
      if k !in t.kids {
        if s.kids[k].Node? {
          EmptyMergeLeaves(s.kids[k], p[1..]);
        }
      } else {
        forall q ensures !Clash(t.kids[k], s.kids[k], q) {
          Below(t, k, q);
          Below(s, k, q);
          assert !Clash(t, s, [k] + q);
        }
        assert !Clash(t.kids[k], s.kids[k], []);
        Step(t, p);
        Step(s, p);
        Step(Merge(t, s), p);
        if s.kids[k].Node? {
          MergeWithoutClash(t.kids[k], s.kids[k], p[1..]);
        }
      }
    }
  }

  lemma {:induction false} MergeAtClash(t: Tree, s: Tree, p: Path)
    requires t.Node? && s.Node? && Clash(t, s, p)
    ensures LeafAt(Merge(t, s), p).None? && LeftBiased(t, s, p).Some?
    decreases |p|
  {
    var k := p[0];
    Step(t, p);
    Step(s, p);
    Step(Merge(t, s), p);
    if |p| > 1 {
      Step(t.kids[k], p[1..]);
      Step(s.kids[k], p[1..]);
      MergeAtClash(t.kids[k], s.kids[k], p[1..]);
    }
  }

  /** The merge is the left-biased union of the texts exactly when the two trees agree on where objects are. */
  lemma MergeIsLeftBiased(t: Tree, s: Tree)
    requires t.Node? && s.Node?
    ensures (forall p :: LeafAt(Merge(t, s), p) == LeftBiased(t, s, p)) <==> Compatible(t, s)
  {
    if Compatible(t, s) {
      forall p ensures LeafAt(Merge(t, s), p) == LeftBiased(t, s, p) {
        MergeWithoutClash(t, s, p);
      }
    } else {
      var p :| Clash(t, s, p);
      MergeAtClash(t, s, p);
    }
  }

  /** Merging the same source again changes nothing, whatever the shapes. */
  lemma {:induction false} MergeIsIdempotent(t: Tree, s: Tree)
    requires t.Node? && s.Node?
    ensures Merge(Merge(t, s), s) == Merge(t, s)
    decreases s
  {
    var once := Merge(t, s);
    forall k | k in s.kids && s.kids[k].Node?
      ensures Merge(once.kids[k], s.kids[k]) == once.kids[k]
    {
      MergeIsIdempotent(if k in t.kids && t.kids[k].Node? then t.kids[k] else EMPTY, s.kids[k]);
    }
    assert Merge(once, s).kids == once.kids;
  }

  lemma {:induction false} MergeKeepsWhole(t: Tree, s: Tree)
    requires Whole(t) && Whole(s)
    ensures Whole(Merge(t, s))
    ensures s.kids != map[] ==> Merge(t, s).kids != map[]
    decreases s
  {
    var m := Merge(t, s);
    forall k | k in m.kids ensures Solid(m.kids[k]) {
      if k in s.kids && s.kids[k].Node? {
        MergeKeepsWhole(if k in t.kids && t.kids[k].Node? then t.kids[k] else EMPTY, s.kids[k]);
      }
    }
    if s.kids != map[] {
      var k :| k in s.kids;
      assert k in m.kids;
    }
  }

  // ---- what a reload leaves -----------------------------------------------------------------------

  /** An object of the rebuilt tree is an object of the tree the rows came from. */
  lemma RebuiltShapeAgrees(t: Tree, rows: seq<Row>, p: Path)
    requires Whole(t) && RowsOf(t, rows)
    requires Rebuild(rows).Ok? && NodeAt(Rebuild(rows).value, p).Some?
    ensures NodeAt(t, p).Some? && (p != [] ==> NodeAt(t, p).value.Leaf? == NodeAt(Rebuild(rows).value, p).value.Leaf?)
  {
    RebuildLeaves(t, rows);
    var u := Rebuild(rows).value;
    if p != [] {
      SolidBelow(u, p);
      var q := SomeLeaf(NodeAt(u, p).value);
      NodeBelow(u, p, q);
      assert LeafAt(u, p + q).Some?;
      PrefixReached(t, p, q);
      NodeBelow(t, p, q);
      if NodeAt(t, p).value.Leaf? || NodeAt(u, p).value.Leaf? {
        assert LeafAt(u, p) == Some(NodeAt(u, p).value.text) || q != [];
        if q == [] { assert p + q == p; }
      }
    }
  }

  lemma {:induction false} NodeBelow(t: Tree, p: Path, q: Path)
    requires NodeAt(t, p).Some?
    ensures NodeAt(t, p + q) == NodeAt(NodeAt(t, p).value, q)
    decreases |p|
  {
    if p == [] {
      assert p + q == q;
    } else {
      assert (p + q)[1..] == p[1..] + q;
      NodeBelow(t.kids[p[0]], p[1..], q);
    }
  }

  lemma {:induction false} PrefixReached(t: Tree, p: Path, q: Path)
    requires NodeAt(t, p + q).Some?
    ensures NodeAt(t, p).Some?
    decreases |p|
  {
    if p != [] {
      assert (p + q)[1..] == p[1..] + q;
      PrefixReached(t.kids[p[0]], p[1..], q);
    }
  }

  lemma {:induction false} SolidBelow(t: Tree, p: Path)
    requires t.Node? && (forall k :: k in t.kids ==> Solid(t.kids[k])) && p != [] && NodeAt(t, p).Some?
    ensures Solid(NodeAt(t, p).value)
    decreases |p|
  {
    if |p| > 1 {
      SolidBelow(t.kids[p[0]], p[1..]);
    }
  }

  /**
   Loading rows of a tree and then filling the gaps from a file: each text is the row's if there
   is one, else the file's, provided the tree and the file agree on where objects are.
   */
  lemma RowsWinOverFile(t: Tree, rows: seq<Row>, file: Tree, p: Path)
    requires Whole(t) && RowsOf(t, rows) && file.Node? && Compatible(t, file)
    ensures Rebuild(rows).Ok?
    ensures LeafAt(Merge(Rebuild(rows).value, file), p) == if Mentions(rows, p) then LeafAt(t, p) else LeafAt(file, p)
  {
    RebuildLeaves(t, rows);
    var u := Rebuild(rows).value;
    forall q ensures !Clash(u, file, q) {
      if NodeAt(u, q).Some? {
        RebuiltShapeAgrees(t, rows, q);
        assert !Clash(t, file, q);
      }
    }
    MergeWithoutClash(u, file, p);
    if Mentions(rows, p) {
      var i :| 0 <= i < |rows| && Split(rows[i].key) == p;
      assert LeafAt(t, p) == Some(rows[i].value);
    }
  }

  // ---- the service -----------------------------------------------------------------------------------

  datatype Doc = Doc(lang: string, row: Row)

  function RowsFor(docs: seq<Doc>, lang: string): seq<Row> {
    if docs == [] then []
    else
      var last := docs[|docs| - 1];
      RowsFor(docs[..|docs| - 1], lang) + if last.lang == lang then [last.row] else []
  }

  /** What the service answers from for one language after a load: `None` when it has nothing. */
  function Loaded(docs: seq<Doc>, files: map<string, Tree>, lang: string): Option<Tree>
    requires forall l :: l in files ==> files[l].Node?
  {
    var rows := RowsFor(docs, lang);
    var built := Rebuild(rows);
    assert built.Ok? ==> built.value.Node? by { if built.Ok? { RebuildGivesNode(rows); } }
    if rows == [] || built.Err? then (if lang in files then Some(files[lang]) else None)
    else Some(if lang in files then Merge(built.value, files[lang]) else built.value)
  }

  lemma {:induction false} RebuildGivesNode(rows: seq<Row>)
    requires Rebuild(rows).Ok?
    ensures Rebuild(rows).value.Node?
    decreases |rows|
  {
    if rows != [] {
      RebuildGivesNode(rows[..|rows| - 1]);
    }
  }

  /** Whatever part of a file's rows the database holds, loading them and merging the file gives the file back. */
  lemma ReloadRestoresFile(docs: seq<Doc>, files: map<string, Tree>, lang: string)
    requires forall l :: l in files ==> files[l].Node?
    requires lang in files && Whole(files[lang]) && RowsOf(files[lang], RowsFor(docs, lang))
    ensures Loaded(docs, files, lang) == Some(files[lang])
  {
    var file, rows := files[lang], RowsFor(docs, lang);
    RebuildLeaves(file, rows);
    var m := Merge(Rebuild(rows).value, file);
    MergeKeepsWhole(Rebuild(rows).value, file);
    assert Compatible(file, file);
    forall p ensures LeafAt(m, p) == LeafAt(file, p) {
      RowsWinOverFile(file, rows, file, p);
    }
    SameLeavesSameTree(m, file);
  }

  /** The languages with rows, each with its rebuilt tree. */
  ghost predicate Holds(translations: map<string, Tree>, docs: seq<Doc>) {
    forall lang :: HoldsFor(translations, docs, lang)
  }

  predicate HoldsFor(translations: map<string, Tree>, docs: seq<Doc>, lang: string) {
    var rows := RowsFor(docs, lang);
    && (lang in translations <==> rows != [])
    && Rebuild(rows) == Ok(if lang in translations then translations[lang] else EMPTY)
  }

  lemma NothingHolds()
    ensures Holds(map[], [])
  {
  }

  lemma HoldsOneMore(translations: map<string, Tree>, docs: seq<Doc>, doc: Doc)
    requires Holds(translations, docs)
    ensures var tree := if doc.lang in translations then translations[doc.lang] else EMPTY;
            var next := SetNested(tree, Split(doc.row.key), doc.row.value);
            && Rebuild(RowsFor(docs + [doc], doc.lang)) == next
            && (next.Ok? ==> next.value.Node? && Holds(translations[doc.lang := next.value], docs + [doc]))
  {
    RebuildOneMore(docs, doc);
    assert HoldsFor(translations, docs, doc.lang);
    var tree := if doc.lang in translations then translations[doc.lang] else EMPTY;
    var next := SetNested(tree, Split(doc.row.key), doc.row.value);
    if next.Ok? {
      var updated, grown := translations[doc.lang := next.value], docs + [doc];
      forall lang ensures HoldsFor(updated, grown, lang) {
        assert HoldsFor(translations, docs, lang);
      }
    }
  }

  /** `deepMerge` visits the source's entries in any order. */
  method DeepMerge(target: Tree, source: Tree) returns (r: Tree)
    requires target.Node? && source.Node?
    ensures r == Merge(target, source)
    decreases source
  {
    var kids := target.kids;
    var pending := source.kids.Keys;
    while pending != {}
      invariant pending <= source.kids.Keys
      invariant kids.Keys == target.kids.Keys + (source.kids.Keys - pending)
      invariant forall k :: k in kids ==>
                  kids[k] == if k in pending then target.kids[k] else Merge(target, source).kids[k]
    {
      var k :| k in pending;
      var value := source.kids[k];
      if value.Node? {
        var inner := if k in kids && kids[k].Node? then kids[k] else EMPTY;
        var merged := DeepMerge(inner, value);
        kids := kids[k := merged];
      } else if k !in kids {
        kids := kids[k := value];
      }
      pending := pending - {k};
    }
    r := Node(kids);
    assert kids == Merge(target, source).kids;
  }

  function Prepend(k: string, paths: seq<Path>): (r: seq<Path>)
    ensures |r| == |paths| && forall i :: 0 <= i < |paths| ==> r[i] == [k] + paths[i]
  {
    seq(|paths|, i requires 0 <= i < |paths| => [k] + paths[i])
  }

  /** `rows` lists the leaves at `paths`, each path once, all beginning with a key of `done`. */
  ghost predicate Lists(t: Tree, prefix: string, rows: seq<Row>, paths: seq<Path>, done: set<string>)
    requires t.Node?
  {
    && |rows| == |paths|
    && (forall i :: 0 <= i < |paths| ==> paths[i] != [] && paths[i][0] in done)
    && (forall i :: 0 <= i < |paths| ==> LeafAt(t, paths[i]) == Some(rows[i].value))
    && (forall i :: 0 <= i < |paths| ==> rows[i].key == KeyOf(prefix, paths[i]))
    && (forall i, j :: 0 <= i < j < |paths| ==> paths[i] != paths[j])
    && (forall p :: LeafAt(t, p).Some? && p != [] && p[0] in done ==> p in paths)
  }

  lemma PrependedPaths(t: Tree, prefix: string, k: string, more: seq<Row>, inner: seq<Path>)
    requires t.Node? && k in t.kids && |more| == |inner|
    requires forall i :: 0 <= i < |inner| ==> LeafAt(t.kids[k], inner[i]) == Some(more[i].value)
    requires forall i :: 0 <= i < |inner| ==> more[i].key == KeyOf(FullKey(prefix, k), inner[i])
    requires forall i, j :: 0 <= i < j < |inner| ==> inner[i] != inner[j]
    requires forall q :: LeafAt(t.kids[k], q).Some? ==> q in inner
    ensures Lists(t, prefix, more, Prepend(k, inner), {k})
  {
    var added := Prepend(k, inner);
    forall i | 0 <= i < |inner|
      ensures LeafAt(t, added[i]) == Some(more[i].value) && more[i].key == KeyOf(prefix, added[i])
    {
      Below(t, k, inner[i]);
      assert added[i][1..] == inner[i];
    }
    forall i, j | 0 <= i < j < |inner| ensures added[i] != added[j] {
      assert added[i][1..] == inner[i] && added[j][1..] == inner[j];
    }
    forall p | LeafAt(t, p).Some? && p != [] && p[0] in {k} ensures p in added {
      assert p == [k] + p[1..];
      Below(t, k, p[1..]);
      assert LeafAt(t.kids[k], p[1..]).Some?;
      var i :| 0 <= i < |inner| && inner[i] == p[1..];
      assert added[i] == p;
    }
  }

  lemma ListsAppend(t: Tree, prefix: string, rows: seq<Row>, paths: seq<Path>, done: set<string>,
                    more: seq<Row>, added: seq<Path>, k: string)
    requires t.Node? && Lists(t, prefix, rows, paths, done) && Lists(t, prefix, more, added, {k}) && k !in done
    ensures Lists(t, prefix, rows + more, paths + added, done + {k})
  {
    hide NodeAt, KeyOf;
    var n, all := |paths|, paths + added;
    forall i | 0 <= i < |all|
      ensures all[i] != [] && all[i][0] in done + {k}
      ensures LeafAt(t, all[i]) == Some((rows + more)[i].value) && (rows + more)[i].key == KeyOf(prefix, all[i])
    {
      if i < n {
        assert all[i] == paths[i] && (rows + more)[i] == rows[i];
      } else {
        assert all[i] == added[i - n] && (rows + more)[i] == more[i - n];
      }
    }
    forall i, j | 0 <= i < j < |all| ensures all[i] != all[j] {
      if i >= n {
        assert all[i] == added[i - n] && all[j] == added[j - n];
      } else if j >= n {
        assert all[i][0] in done && all[j] == added[j - n];
      }
    }
  }

  /** One row per text of the tree: some listing of all its paths, each once, gives the rows' keys and texts. */
  ghost predicate Flat(t: Tree, prefix: string, rows: seq<Row>)
    requires t.Node?
  {
    exists paths :: Lists(t, prefix, rows, paths, t.kids.Keys)
  }

  /** `flattenTranslations`: one row per text, under its dotted key, in the order the entries are visited. */
  method FlattenTranslations(t: Tree, prefix: string) returns (rows: seq<Row>)
    requires t.Node?
    ensures Flat(t, prefix, rows)
    decreases t
  {
    rows := [];
    ghost var paths: seq<Path> := [];
    var pending := t.kids.Keys;
    while pending != {}
      invariant pending <= t.kids.Keys
      invariant Lists(t, prefix, rows, paths, t.kids.Keys - pending)
    {
      var k :| k in pending;
      ghost var done := t.kids.Keys - pending;
      var fullKey := FullKey(prefix, k);
      match t.kids[k] {
        case Leaf(text) =>
          assert NodeAt(t.kids[k], []) == Some(t.kids[k]);
          PrependedPaths(t, prefix, k, [Row(fullKey, text)], [[]]);
          ListsAppend(t, prefix, rows, paths, done, [Row(fullKey, text)], Prepend(k, [[]]), k);
          rows, paths := rows + [Row(fullKey, text)], paths + Prepend(k, [[]]);
        case Node(_) =>
          var inner := FlattenTranslations(t.kids[k], fullKey);
          ghost var innerPaths :| Lists(t.kids[k], fullKey, inner, innerPaths, t.kids[k].kids.Keys);
          PrependedPaths(t, prefix, k, inner, innerPaths);
          ListsAppend(t, prefix, rows, paths, done, inner, Prepend(k, innerPaths), k);
          rows, paths := rows + inner, paths + Prepend(k, innerPaths);
      }
      pending := pending - {k};
      assert t.kids.Keys - pending == done + {k};
    }
    assert t.kids.Keys - pending == t.kids.Keys;
    assert Lists(t, prefix, rows, paths, t.kids.Keys);
  }

  /**
   With plain keys, the rows of a flattened file are rows of the file, cover it, and have
   distinct keys: they rebuild it in any order.
   */
  lemma FlatRowsRebuild(t: Tree, rows: seq<Row>)
    requires Whole(t) && PlainKeys(t) && Flat(t, "", rows)
    ensures RowsOf(t, rows) && Covers(t, rows)
    ensures forall i, j :: 0 <= i < j < |rows| ==> rows[i].key != rows[j].key
    ensures forall other :: multiset(other) == multiset(rows) ==> Rebuild(other) == Ok(t)
  {
    var paths :| Lists(t, "", rows, paths, t.kids.Keys);
    KeysAreThePaths(t, rows, paths);
    hide Lists, Rebuild;
    forall other | multiset(other) == multiset(rows) ensures Rebuild(other) == Ok(t) {
      SameRows(t, rows, other);
      RebuildRestores(t, other);
    }
  }

  lemma KeysAreThePaths(t: Tree, rows: seq<Row>, paths: seq<Path>)
    requires Whole(t) && PlainKeys(t) && Lists(t, "", rows, paths, t.kids.Keys)
    ensures RowsOf(t, rows) && Covers(t, rows)
    ensures forall i, j :: 0 <= i < j < |rows| ==> rows[i].key != rows[j].key
  {
    forall i | 0 <= i < |rows| ensures Split(rows[i].key) == paths[i] {
      PathsArePlain(t, paths[i]);
      SplitKeyOf("", paths[i]);
      assert [] + paths[i] == paths[i];
    }
    forall p | LeafAt(t, p).Some? ensures Mentions(rows, p) {
      assert p in paths;
      var i :| 0 <= i < |paths| && paths[i] == p;
      assert Split(rows[i].key) == p;
    }
  }

  lemma SameRows(t: Tree, rows: seq<Row>, other: seq<Row>)
    requires multiset(other) == multiset(rows) && RowsOf(t, rows) && Covers(t, rows)
    ensures RowsOf(t, other) && Covers(t, other)
  {
    forall i | 0 <= i < |other| ensures LeafAt(t, Split(other[i].key)) == Some(other[i].value) {
      assert other[i] in multiset(other);
      assert other[i] in rows;
    }
    forall p | LeafAt(t, p).Some? ensures Mentions(other, p) {
      var i :| 0 <= i < |rows| && Split(rows[i].key) == p;
      assert rows[i] in multiset(rows);
      assert rows[i] in other;
      var j :| 0 <= j < |other| && other[j] == rows[i];
    }
  }

  // ---- the collection ------------------------------------------------------------------------------

  /** The rows of one language, as the documents `insertMany` appends. */
  function Tagged(rows: seq<Row>, lang: string): seq<Doc> {
    if rows == [] then [] else Tagged(rows[..|rows| - 1], lang) + [Doc(lang, rows[|rows| - 1])]
  }

  lemma {:induction false} RowsForAppend(docs: seq<Doc>, rows: seq<Row>, lang: string, other: string)
    ensures RowsFor(docs + Tagged(rows, lang), other) == RowsFor(docs, other) + if other == lang then rows else []
    decreases |rows|
  {
    hide RowsFor, Rebuild, SetNested;
    if rows == [] {
      assert docs + Tagged(rows, lang) == docs;
    } else {
      var init, last := rows[..|rows| - 1], rows[|rows| - 1];
      RowsForAppend(docs, init, lang, other);
      RebuildOneMore(docs + Tagged(init, lang), Doc(lang, last));
      assert docs + Tagged(rows, lang) == (docs + Tagged(init, lang)) + [Doc(lang, last)];
      assert rows == init + [last];
    }
  }

  /** The rows the database stores: an unordered insertion keeps those it accepts and drops the others. */
  function Kept(rows: seq<Row>, lang: string, accepts: Doc -> bool): seq<Row> {
    if rows == [] then []
    else
      var last := rows[|rows| - 1];
      Kept(rows[..|rows| - 1], lang, accepts) + if accepts(Doc(lang, last)) then [last] else []
  }

  lemma {:induction false} KeptRows(rows: seq<Row>, lang: string, accepts: Doc -> bool)
    ensures forall row :: row in Kept(rows, lang, accepts) <==> row in rows && accepts(Doc(lang, row))
    ensures (forall row :: row in rows ==> accepts(Doc(lang, row))) ==> Kept(rows, lang, accepts) == rows
    decreases |rows|
  {
    if rows != [] {
      var init, last := rows[..|rows| - 1], rows[|rows| - 1];
      KeptRows(init, lang, accepts);
      assert rows == init + [last];
      var kept := Kept(init, lang, accepts);
      assert Kept(rows, lang, accepts) == if accepts(Doc(lang, last)) then kept + [last] else kept;
      hide Kept;
    }
  }

  /** The language's rows are followed by the accepted ones of its file; there is no unique index to refuse them. */
  ghost predicate Extended(before: seq<Doc>, after: seq<Doc>, files: map<string, Tree>,
                           accepts: Doc -> bool, lang: string)
    requires lang in files ==> files[lang].Node?
  {
    if lang in files then
      exists full :: && Flat(files[lang], "", full)
                     && RowsFor(after, lang) == RowsFor(before, lang) + Kept(full, lang, accepts)
    else RowsFor(after, lang) == RowsFor(before, lang)
  }

  /** So for every language. */
  ghost predicate Inserted(before: seq<Doc>, after: seq<Doc>, files: map<string, Tree>, accepts: Doc -> bool)
    requires forall l :: l in files ==> files[l].Node?
  {
    forall lang :: Extended(before, after, files, accepts, lang)
  }

  /** The row of the file for a path. */
  function FileRow(file: Tree, p: Path): Row
    requires LeafAt(file, p).Some?
  {
    Row(KeyOf("", p), LeafAt(file, p).value)
  }

  /** What an insertion appends are the file's rows at the paths whose rows are accepted. */
  lemma InsertedRows(file: Tree, full: seq<Row>, lang: string, accepts: Doc -> bool)
    requires Whole(file) && PlainKeys(file) && Flat(file, "", full)
    ensures var more := Kept(full, lang, accepts);
            && RowsOf(file, more)
            && forall p :: Mentions(more, p) <==> LeafAt(file, p).Some? && accepts(Doc(lang, FileRow(file, p)))
  {
    var paths :| Lists(file, "", full, paths, file.kids.Keys);
    var more := Kept(full, lang, accepts);
    KeptRows(full, lang, accepts);
    RowsOfPaths(file, full, paths);
    hide Lists, Kept, Split, KeyOf, PlainKeys, Whole;
    forall j | 0 <= j < |more| ensures LeafAt(file, Split(more[j].key)) == Some(more[j].value) {
      assert more[j] in full;
    }
    forall p ensures Mentions(more, p) <==> LeafAt(file, p).Some? && accepts(Doc(lang, FileRow(file, p))) {
      MentionedIffAccepted(file, full, paths, more, lang, accepts, p);
    }
  }

  lemma RowsOfPaths(file: Tree, full: seq<Row>, paths: seq<Path>)
    requires Whole(file) && PlainKeys(file) && Lists(file, "", full, paths, file.kids.Keys)
    ensures forall i :: 0 <= i < |full| ==>
                          && LeafAt(file, paths[i]).Some? && Split(full[i].key) == paths[i]
                          && full[i] == FileRow(file, paths[i])
  {
    forall i | 0 <= i < |full|
      ensures LeafAt(file, paths[i]).Some? && Split(full[i].key) == paths[i] && full[i] == FileRow(file, paths[i])
    {
      PathsArePlain(file, paths[i]);
      SplitKeyOf("", paths[i]);
      assert [] + paths[i] == paths[i];
    }
  }

  lemma MentionedIffAccepted(file: Tree, full: seq<Row>, paths: seq<Path>, more: seq<Row>, lang: string,
                             accepts: Doc -> bool, p: Path)
    requires file.Node? && Lists(file, "", full, paths, file.kids.Keys)
    requires forall row :: row in more <==> row in full && accepts(Doc(lang, row))
    requires forall i :: 0 <= i < |full| ==>
                           && LeafAt(file, paths[i]).Some? && Split(full[i].key) == paths[i]
                           && full[i] == FileRow(file, paths[i])
    ensures Mentions(more, p) <==> LeafAt(file, p).Some? && accepts(Doc(lang, FileRow(file, p)))
  {
    if Mentions(more, p) {
      var j :| 0 <= j < |more| && Split(more[j].key) == p;
      assert more[j] in more;
      var i :| 0 <= i < |full| && full[i] == more[j];
      assert paths[i] == p;
    }
    if LeafAt(file, p).Some? && accepts(Doc(lang, FileRow(file, p))) {
      var i :| 0 <= i < |paths| && paths[i] == p;
      assert full[i] in more;
      var j :| 0 <= j < |more| && more[j] == full[i];
      assert Split(more[j].key) == p;
    }
  }

  /** The next load succeeds: the stored rows can be placed, and no text they leave blocks an inserted path. */
  ghost predicate StartsUp(docs: seq<Doc>, files: map<string, Tree>, accepts: Doc -> bool, lang: string) {
    && Placeable(RowsFor(docs, lang))
    && (lang in files ==>
          forall p :: LeafAt(files[lang], p).Some? && accepts(Doc(lang, FileRow(files[lang], p))) ==>
                        !BlockedByRows(RowsFor(docs, lang), p))
  }

  ghost predicate AllStartUp(docs: seq<Doc>, files: map<string, Tree>, accepts: Doc -> bool) {
    forall lang :: StartsUp(docs, files, accepts, lang)
  }

  ghost predicate AllPlaceable(docs: seq<Doc>) {
    forall lang :: Placeable(RowsFor(docs, lang))
  }

  lemma AllStartUpIff(docs: seq<Doc>, seeded: seq<Doc>, files: map<string, Tree>, accepts: Doc -> bool)
    requires forall l :: l in files ==> files[l].Node?
    requires forall l :: l in files ==> Whole(files[l]) && PlainKeys(files[l])
    requires Inserted(docs, seeded, files, accepts)
    ensures AllPlaceable(seeded) <==> AllStartUp(docs, files, accepts)
  {
    forall lang ensures Placeable(RowsFor(seeded, lang)) <==> StartsUp(docs, files, accepts, lang) {
      assert Extended(docs, seeded, files, accepts, lang);
      StartsUpIff(docs, seeded, files, accepts, lang);
    }
    if AllPlaceable(seeded) {
      forall lang ensures StartsUp(docs, files, accepts, lang) {
        assert Placeable(RowsFor(seeded, lang));
      }
    }
    if AllStartUp(docs, files, accepts) {
      forall lang ensures Placeable(RowsFor(seeded, lang)) {
        assert StartsUp(docs, files, accepts, lang);
      }
    }
  }

  /** Every language is served as loaded from the documents and the files. */
  ghost predicate Serves(translations: map<string, Tree>, docs: seq<Doc>, files: map<string, Tree>)
    requires forall l :: l in files ==> files[l].Node?
  {
    forall lang :: (if lang in translations then Some(translations[lang]) else None) == Loaded(docs, files, lang)
  }

  /** Each file fills the gaps of its language, or becomes it. */
  predicate Completed(built: map<string, Tree>, served: map<string, Tree>, files: map<string, Tree>)
    requires (forall l :: l in files ==> files[l].Node?) && forall l :: l in built ==> built[l].Node?
  {
    && served.Keys == built.Keys + files.Keys
    && forall lang :: lang in served ==>
                        served[lang] ==
                        if lang !in built then files[lang]
                        else if lang in files then Merge(built[lang], files[lang])
                        else built[lang]
  }

  lemma CompletedServes(built: map<string, Tree>, served: map<string, Tree>, docs: seq<Doc>, files: map<string, Tree>)
    requires (forall l :: l in files ==> files[l].Node?) && forall l :: l in built ==> built[l].Node?
    requires Holds(built, docs) && Completed(built, served, files)
    ensures Serves(served, docs, files)
  {
    forall lang ensures (if lang in served then Some(served[lang]) else None) == Loaded(docs, files, lang) {
      assert HoldsFor(built, docs, lang);
    }
  }

  lemma FilesServe(files: map<string, Tree>)
    requires forall l :: l in files ==> files[l].Node?
    ensures Serves(files, [], files) && AllPlaceable([])
  {
  }

  lemma StartsUpIff(docs: seq<Doc>, seeded: seq<Doc>, files: map<string, Tree>, accepts: Doc -> bool, lang: string)
    requires lang in files ==> Whole(files[lang]) && PlainKeys(files[lang])
    requires Extended(docs, seeded, files, accepts, lang)
    ensures Placeable(RowsFor(seeded, lang)) <==> StartsUp(docs, files, accepts, lang)
  {
    if lang in files {
      var file, first := files[lang], RowsFor(docs, lang);
      var full :| Flat(file, "", full) && RowsFor(seeded, lang) == first + Kept(full, lang, accepts);
      var more := Kept(full, lang, accepts);
      InsertedRows(file, full, lang, accepts);
      PlaceablePrefix(first, more);
      if Placeable(first) {
        PlaceableOverIff(first, file, more);
      }
    }
  }

  /** Loading stopped at a row that cannot be placed: the rows before it are served, without any file. */
  ghost predicate StoppedAt(translations: map<string, Tree>, docs: seq<Doc>, n: nat) {
    && n < |docs| && Holds(translations, docs[..n])
    && var tree := if docs[n].lang in translations then translations[docs[n].lang] else EMPTY;
    SetNested(tree, Split(docs[n].row.key), docs[n].row.value).Err?
  }

  class I18nService {
    var translations: map<string, Tree>
    var loadedJson: map<string, Tree>
    /** The collection, in insertion order. */
    var rows: seq<Doc>

    ghost predicate Valid() reads this {
      && (forall l :: l in translations ==> translations[l].Node?)
      && (forall l :: l in loadedJson ==> loadedJson[l].Node?)
    }

    constructor (rows: seq<Doc>)
      ensures Valid() && loadedJson == map[] && translations == map[] && this.rows == rows
    {
      translations, loadedJson, this.rows := map[], map[], rows;
    }

    /** The tree is walked key by key; stepping below a text finds nothing. */
    method ResolveDirect(key: string, lang: string) returns (text: Option<string>)
      ensures text == if lang in translations then LeafAt(translations[lang], Split(key)) else None
    {
      if lang !in translations {
        return None;
      }
      var node := translations[lang];
      var parts := Split(key);
      for i := 0 to |parts|
        invariant NodeAt(translations[lang], parts) == NodeAt(node, parts[i..])
      {
        assert parts[i..][0] == parts[i] && parts[i..][1..] == parts[i + 1..];
        if node.Leaf? || parts[i] !in node.kids {
          return None;
        }
        node := node.kids[parts[i]];
      }
      text := if node.Leaf? then Some(node.text) else None;
    }

    /** Appends the rows of every file that the database accepts. Refusals are ignored. */
    method InsertFiles(files: map<string, Tree>, accepts: Doc -> bool)
      requires forall l :: l in files ==> files[l].Node?
      modifies this`rows
      ensures Inserted(old(rows), rows, files, accepts)
    {
      hide RowsFor, Extended, Flat;
      var pending := files.Keys;
      forall lang | lang !in pending ensures Extended(rows, rows, files, accepts, lang) {
        NothingInserted(rows, files, accepts, lang);
      }
      while pending != {}
        invariant pending <= files.Keys
        invariant forall lang :: lang in pending ==> RowsFor(rows, lang) == RowsFor(old(rows), lang)
        invariant forall lang :: lang !in pending ==> Extended(old(rows), rows, files, accepts, lang)
      {
        var lang :| lang in pending;
        pending := pending - {lang};
        var bulk := FlattenTranslations(files[lang], "");
        ghost var was := rows;
        if |bulk| > 0 {
          rows := rows + Tagged(Kept(bulk, lang, accepts), lang);
        }
        assert rows == was + Tagged(Kept(bulk, lang, accepts), lang);
        InsertExtends(old(rows), was, files, bulk, accepts, lang);
        forall other | other !in pending ensures Extended(old(rows), rows, files, accepts, other) {
          ExtendedAlike(old(rows), was, rows, files, accepts, other);
        }
      }
    }

    /** Every file becomes its language's tree and is inserted, whatever the collection already holds. */
    method SeedFromJson(files: map<string, Tree>, accepts: Doc -> bool)
      requires Valid() && forall l :: l in files ==> files[l].Node?
      modifies this
      ensures Valid() && translations == old(translations) + files && loadedJson == old(loadedJson) + files
      ensures Inserted(old(rows), rows, files, accepts)
    {
      translations, loadedJson := translations + files, loadedJson + files;
      InsertFiles(files, accepts);
    }

    /**
     Every language ends with its rows' tree completed from its file, and the files' rows are
     inserted again. A row that would have to step into a text makes the load fail half way.
     Without rows, the files on disk are seeded instead.
     */
    method LoadFromMongo(files: map<string, Tree>, accepts: Doc -> bool) returns (r: Result<(), ()>)
      requires Valid() && forall l :: l in files ==> files[l].Node?
      modifies this
      ensures Valid()
      ensures old(rows) == [] ==>
                && r == Ok(()) && translations == old(translations) + files && loadedJson == old(loadedJson) + files
                && Inserted(old(rows), rows, files, accepts)
      ensures old(rows) != [] ==>
                && loadedJson == old(loadedJson)
                && (r.Ok? <==> AllPlaceable(old(rows)))
      ensures old(rows) != [] && r.Ok? ==>
                && Inserted(old(rows), rows, loadedJson, accepts)
                && Serves(translations, old(rows), loadedJson)
      ensures r.Err? ==> rows == old(rows) && exists n :: StoppedAt(translations, rows, n)
    {
      hide Holds, Inserted, Serves, AllPlaceable, StoppedAt, Completed;
      if |rows| == 0 {
        SeedFromJson(files, accepts);
        return Ok(());
      }
      var docs := rows;
      r := PlaceRows(docs);
      if r.Err? {
        return;
      }
      ghost var built := translations;
      MergeJsonKeys(accepts);
      CompletedServes(built, translations, docs, loadedJson);
    }

    /** Rebuilds the served trees from the documents alone, one row at a time. */
    method PlaceRows(docs: seq<Doc>) returns (r: Result<(), ()>)
      requires Valid()
      modifies this`translations
      ensures Valid()
      ensures r.Ok? <==> AllPlaceable(docs)
      ensures r.Ok? ==> Holds(translations, docs)
      ensures r.Err? ==> exists n :: StoppedAt(translations, docs, n)
    {
      NothingHolds();
      hide SetNested, Split, Rebuild, RowsFor, Placeable;
      translations := map[];
      for i := 0 to |docs|
        invariant Valid() && Holds(translations, docs[..i])
      {
        var doc := docs[i];
        var tree := if doc.lang in translations then translations[doc.lang] else EMPTY;
        var next := SetNested(tree, Split(doc.row.key), doc.row.value);
        HoldsOneMore(translations, docs[..i], doc);
        assert docs[..i] + [doc] == docs[..i + 1];
        if next.Err? {
          assert StoppedAt(translations, docs, i);
          StaysBroken(docs, i + 1, doc.lang);
          RebuildIsLatest(RowsFor(docs, doc.lang));
          return Err(());
        }
        translations := translations[doc.lang := next.value];
      }
      assert docs[..|docs|] == docs;
      forall lang ensures Placeable(RowsFor(docs, lang)) {
        assert HoldsFor(translations, docs, lang);
        RebuildIsLatest(RowsFor(docs, lang));
      }
      r := Ok(());
    }

    method MergeJsonKeys(accepts: Doc -> bool)
      requires Valid()
      modifies this`translations, this`rows
      ensures Valid() && Completed(old(translations), translations, loadedJson)
      ensures Inserted(old(rows), rows, loadedJson, accepts)
    {
      var pending := loadedJson.Keys;
      while pending != {}
        invariant Valid() && pending <= loadedJson.Keys && rows == old(rows)
        invariant translations.Keys == old(translations).Keys + (loadedJson.Keys - pending)
        invariant forall lang :: lang in translations ==>
                    translations[lang] ==
                    if lang in old(translations) && (lang in pending || lang !in loadedJson)
                    then old(translations)[lang]
                    else if lang in old(translations) then Merge(old(translations)[lang], loadedJson[lang])
                    else loadedJson[lang]
      {
        var lang :| lang in pending;
        if lang !in translations {
          translations := translations[lang := loadedJson[lang]];
        } else {
          var merged := DeepMerge(translations[lang], loadedJson[lang]);
          translations := translations[lang := merged];
        }
        pending := pending - {lang};
      }
      InsertFiles(loadedJson, accepts);
    }

    /** Startup: seed from the files, then load what the collection holds by now. */
    method OnModuleInit(files: map<string, Tree>, accepts: Doc -> bool, again: Doc -> bool)
      returns (r: Result<(), ()>, ghost seeded: seq<Doc>)
      requires Valid() && loadedJson == map[] && translations == map[]
      requires forall l :: l in files ==> files[l].Node?
      modifies this
      ensures Valid() && loadedJson == files
      ensures Inserted(old(rows), seeded, files, accepts)
      ensures r.Ok? <==> AllPlaceable(seeded)
      ensures (forall l :: l in files ==> Whole(files[l]) && PlainKeys(files[l])) ==>
                (r.Ok? <==> AllStartUp(old(rows), files, accepts))
      ensures r.Ok? ==> Serves(translations, seeded, files)
      ensures r.Err? ==> rows == seeded && exists n :: StoppedAt(translations, seeded, n)
    {
      hide Inserted, Serves, AllPlaceable, AllStartUp, StoppedAt;
      SeedFromJson(files, accepts);
      seeded := rows;
      if forall l :: l in files ==> Whole(files[l]) && PlainKeys(files[l]) {
        AllStartUpIff(old(rows), seeded, files, accepts);
      }
      assert loadedJson == files && translations == files;
      r := LoadFromMongo(files, again);
      if seeded == [] {
        FilesServe(files);
      }
    }
  }

  lemma InsertExtends(before: seq<Doc>, docs: seq<Doc>, files: map<string, Tree>,
                      bulk: seq<Row>, accepts: Doc -> bool, lang: string)
    requires lang in files && files[lang].Node? && Flat(files[lang], "", bulk)
    requires RowsFor(docs, lang) == RowsFor(before, lang)
    ensures var after := docs + Tagged(Kept(bulk, lang, accepts), lang);
            && Extended(before, after, files, accepts, lang)
            && forall other :: other != lang ==> RowsFor(after, other) == RowsFor(docs, other)
  {
    var more := Kept(bulk, lang, accepts);
    forall other { RowsForAppend(docs, more, lang, other); }
    assert RowsFor(docs + Tagged(more, lang), lang) == RowsFor(before, lang) + more;
  }

  lemma NothingInserted(docs: seq<Doc>, files: map<string, Tree>, accepts: Doc -> bool, lang: string)
    requires lang !in files
    ensures Extended(docs, docs, files, accepts, lang)
  {
  }

  lemma ExtendedAlike(before: seq<Doc>, a: seq<Doc>, b: seq<Doc>, files: map<string, Tree>,
                      accepts: Doc -> bool, lang: string)
    requires lang in files ==> files[lang].Node?
    ensures RowsFor(a, lang) == RowsFor(b, lang) ==>
              (Extended(before, a, files, accepts, lang) <==> Extended(before, b, files, accepts, lang))
  {
  }

  lemma RebuildOneMore(docs: seq<Doc>, doc: Doc)
    ensures RowsFor(docs + [doc], doc.lang) == RowsFor(docs, doc.lang) + [doc.row]
    ensures forall lang :: lang != doc.lang ==> RowsFor(docs + [doc], lang) == RowsFor(docs, lang)
    ensures Rebuild(RowsFor(docs + [doc], doc.lang)) ==
            match Rebuild(RowsFor(docs, doc.lang))
            case Err(e) => Err(e)
            case Ok(t) => SetNested(t, Split(doc.row.key), doc.row.value)
  {
    assert (docs + [doc])[..|docs|] == docs;
    var rows := RowsFor(docs, doc.lang);
    assert (rows + [doc.row])[..|rows|] == rows;
  }

  /** Once a row cannot be placed, the rows of its language never rebuild. */
  lemma {:induction false} StaysBroken(docs: seq<Doc>, n: nat, lang: string)
    requires n <= |docs| && Rebuild(RowsFor(docs[..n], lang)).Err?
    ensures Rebuild(RowsFor(docs, lang)).Err?
    decreases |docs| - n
  {
    if n == |docs| {
      assert docs[..n] == docs;
    } else {
      RebuildOneMore(docs[..n], docs[n]);
      assert docs[..n] + [docs[n]] == docs[..n + 1];
      StaysBroken(docs, n + 1, lang);
    }
  }
}
