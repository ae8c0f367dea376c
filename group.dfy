/**
 * A group: books keyed by the `h` header of the file they came from. Target
 * text is filed under that name; source text finds its book by the `toc3`
 * short name instead.
 */
module Groups {
  import opened JsBuiltins
  import opened UsfmMisc
  import opened UsfmJson
  import opened Dict
  import opened Listing
  import Books

  datatype Group = Group(books: Dict<Books.Book>)

  /** The constructor: an absent book object is empty. */
  function NewGroup(books: Option<Dict<Books.Book>>): (g: Group)
    ensures books.None? ==> g.books.order == [] && g.books.entries == map[]
    ensures books.Some? ==> g.books == books.value
  {
    Group(if books.Some? then books.value else Empty())
  }

  /** `hasBook`: whether a book is filed under `name`. */
  function HasBook(g: Group, name: string): (r: bool)
    ensures r <==> name in g.books.order
  {
    Members(g.books);
    name in g.books.entries
  }

  /** The name a parsed book is filed under: its `h` header, "undefined" when it has none. */
  function BookName(usfmBook: UsfmBook): string
  {
    PropertyKey(HeaderValue(usfmBook.headers, "h"))
  }

  /** The parsed book's `toc3` header, if any. */
  function Toc3Header(usfmBook: UsfmBook): Option<string>
  {
    HeaderValue(usfmBook.headers, "toc3")
  }

  /** `this.books[name] || new Book()`. */
  function BaseBook(g: Group, name: string): Books.Book
  {
    if name in g.books.entries then g.books.entries[name] else Books.NewBook(None, None, None)
  }

  // ---------------------------------------------------------------- target text

  /** The names the incoming books are filed under. */
  function BookNames(files: UsfmFiles): set<string>
  {
    if files == [] then {} else BookNames(files[..|files| - 1]) + {BookName(files[|files| - 1].1)}
  }

  /** The last incoming file filed under `name`; a later one overwrites an earlier one. */
  function LastNamed(files: UsfmFiles, name: string): (f: Option<(string, UsfmBook)>)
    ensures f.Some? <==> name in BookNames(files)
    ensures f.Some? ==> BookName(f.value.1) == name
    ensures f.Some? ==> exists j :: 0 <= j < |files| && files[j] == f.value
                                    && forall k :: j < k < |files| ==> BookName(files[k].1) != name
  {
    if files == [] then None
    else if BookName(files[|files| - 1].1) == name then Some(files[|files| - 1])
    else LastNamed(files[..|files| - 1], name)
  }

  /** `newBooks` after the target loop has seen `files`. */
  function TargetBooks(g: Group, files: UsfmFiles): (d: Dict<Books.Book>)
    ensures d.entries.Keys == BookNames(files)
  {
    if files == [] then Empty()
    else
      var (filename, usfmBook) := files[|files| - 1];
      var name := BookName(usfmBook);
      Put(TargetBooks(g, files[..|files| - 1]), name,
          Books.WithTarget(BaseBook(g, name), filename, usfmBook, Toc3Header(usfmBook)))
  }

  /**
   * `addTargetUsfm`: the book names afterwards are the old ones and the `h` headers
   * of the incoming books, the old names keep their places, and the books no
   * incoming `h` names are kept.
   */
  function WithTarget(g: Group, files: UsfmFiles): (r: Group)
    ensures r.books.entries.Keys == g.books.entries.Keys + BookNames(files)
    ensures g.books.order <= r.books.order
    ensures forall name :: name in g.books.entries && name !in BookNames(files) ==>
      r.books.entries[name] == g.books.entries[name]
  {
    NewGroup(Some(Spread(g.books, TargetBooks(g, files))))
  }

  method AddTargetUsfm(g: Group, files: UsfmFiles) returns (r: Group)
    ensures r == WithTarget(g, files)
  {
    var newBooks: Dict<Books.Book> := Empty();
    var i := 0;
    while i < |files|
      invariant 0 <= i <= |files|
      invariant newBooks == TargetBooks(g, files[..i])
    {
      var (filename, usfmBook) := files[i];
      var name := BookName(usfmBook);
      var imported := Books.AddTargetUsfm(BaseBook(g, name), filename, usfmBook, Toc3Header(usfmBook));
      TargetBooksSnoc(g, files, i);
      newBooks := Put(newBooks, name, imported);
      i := i + 1;
    }
    assert files[..i] == files;
    r := NewGroup(Some(Spread(g.books, newBooks)));
  }

  /** Loop helper: the target loop's specification unfolded by one file. */
  lemma TargetBooksSnoc(g: Group, files: UsfmFiles, i: nat)
    requires i < |files|
    ensures TargetBooks(g, files[..i + 1])
            == Put(TargetBooks(g, files[..i]), BookName(files[i].1),
                   Books.WithTarget(BaseBook(g, BookName(files[i].1)), files[i].0, files[i].1, Toc3Header(files[i].1)))
  {
    assert files[..i + 1][..i] == files[..i];
  }

  /**
   * A book an incoming `h` names is the old book (or a new one) with the last file
   * of that name imported into it: it takes that file's name and `toc3` header.
   */
  lemma {:induction false} TargetBooksLastWins(g: Group, files: UsfmFiles, name: string)
    requires name in BookNames(files)
    ensures TargetBooks(g, files).entries[name]
            == Books.WithTarget(BaseBook(g, name), LastNamed(files, name).value.0, LastNamed(files, name).value.1,
                                Toc3Header(LastNamed(files, name).value.1))
    ensures TargetBooks(g, files).entries[name].filename == LastNamed(files, name).value.0
    ensures TargetBooks(g, files).entries[name].toc3Name == OrEmpty(Toc3Header(LastNamed(files, name).value.1))
  {
    if BookName(files[|files| - 1].1) != name {
      TargetBooksLastWins(g, files[..|files| - 1], name);
    }
  }

  /** After a target import every incoming book is found under its `h` header. */
  lemma WithTargetHasBooks(g: Group, files: UsfmFiles, i: nat)
    requires i < |files|
    ensures HasBook(WithTarget(g, files), BookName(files[i].1))
  {
    BookNamesHas(files, i);
  }

  /** Running the target loop again over its own result files the same books. */
  lemma TargetBooksAgain(g: Group, files: UsfmFiles)
    ensures TargetBooks(WithTarget(g, files), files).entries == TargetBooks(g, files).entries
  {
    var g1 := WithTarget(g, files);
    var t := TargetBooks(g, files);
    var t1 := TargetBooks(g1, files);
    forall name | name in BookNames(files)
      ensures t1.entries[name] == t.entries[name]
    {
      var (filename, usfmBook) := LastNamed(files, name).value;
      TargetBooksLastWins(g, files, name);
      TargetBooksLastWins(g1, files, name);
      assert BaseBook(g1, name) == t.entries[name];
      Books.WithTargetIdempotent(BaseBook(g, name), filename, usfmBook, Toc3Header(usfmBook));
    }
  }

  /** Importing the same target files twice gives what importing them once gives. */
  lemma WithTargetIdempotent(g: Group, files: UsfmFiles)
    ensures WithTarget(WithTarget(g, files), files) == WithTarget(g, files)
  {
    var g1 := WithTarget(g, files);
    var t1 := TargetBooks(g1, files);
    TargetBooksAgain(g, files);
    SpreadKeepsOrder(g1.books, t1);
    assert Spread(g1.books, t1).entries == g1.books.entries;
  }

  lemma {:induction false} BookNamesHas(files: UsfmFiles, i: nat)
    requires i < |files|
    ensures BookName(files[i].1) in BookNames(files)
  {
    if i < |files| - 1 {
      BookNamesHas(files[..|files| - 1], i);
    }
  }

  // ---------------------------------------------------------------- source text

  /** `toc3_books` over the books named `names`: short name to (name, book), a later book overwriting an earlier one. */
  function Toc3Fold(books: Dict<Books.Book>, names: seq<string>): map<string, (string, Books.Book)>
    requires forall k :: k in names ==> k in books.entries
  {
    if names == [] then map[]
    else
      var name := names[|names| - 1];
      assert name in names;
      Toc3Fold(books, names[..|names| - 1])[books.entries[name].toc3Name := (name, books.entries[name])]
  }

  /** `toc3_books`: the group's books rehashed by their short names. */
  function Toc3Index(g: Group): map<string, (string, Books.Book)>
  {
    Members(g.books);
    Toc3Fold(g.books, g.books.order)
  }

  /** The rehash holds, under each short name, a book of that short name together with the name it is filed under. */
  lemma {:induction false} Toc3FoldSound(books: Dict<Books.Book>, names: seq<string>)
    requires forall k :: k in names ==> k in books.entries
    ensures forall t :: t in Toc3Fold(books, names) ==>
      Toc3Fold(books, names)[t].0 in names
      && Toc3Fold(books, names)[t].1 == books.entries[Toc3Fold(books, names)[t].0]
      && Toc3Fold(books, names)[t].1.toc3Name == t
  {
    if names != [] {
      Toc3FoldSound(books, names[..|names| - 1]);
    }
  }

  /** Every book's short name is a key of the rehash. */
  lemma {:induction false} Toc3FoldComplete(books: Dict<Books.Book>, names: seq<string>)
    requires forall k :: k in names ==> k in books.entries
    ensures forall i :: 0 <= i < |names| ==> books.entries[names[i]].toc3Name in Toc3Fold(books, names)
  {
    if names != [] {
      var init := names[..|names| - 1];
      Toc3FoldComplete(books, init);
      forall i | 0 <= i < |names| - 1
        ensures books.entries[names[i]].toc3Name in Toc3Fold(books, names)
      {
        assert names[i] == init[i];
      }
    }
  }

  /** A book that a later book with the same short name follows is not the one the rehash keeps. */
  lemma {:induction false} Toc3FoldShadowed(books: Dict<Books.Book>, names: seq<string>, i: nat, j: nat)
    requires forall k :: k in names ==> k in books.entries
    requires Distinct(names)
    requires i < j < |names| && books.entries[names[i]].toc3Name == books.entries[names[j]].toc3Name
    ensures books.entries[names[i]].toc3Name in Toc3Fold(books, names)
    ensures Toc3Fold(books, names)[books.entries[names[i]].toc3Name].0 != names[i]
  {
    Toc3FoldComplete(books, names);
    var init := names[..|names| - 1];
    var last := names[|names| - 1];
    var t := books.entries[names[i]].toc3Name;
    if t != books.entries[last].toc3Name {
      assert names[i] == init[i] && names[j] == init[j];
      Toc3FoldShadowed(books, init, i, j);
    }
  }

  /** The rehash keyed by a short name: the book it finds for an incoming file, if any. */
  function Match(g: Group, usfmBook: UsfmBook): Option<(string, Books.Book)>
  {
    var key := PropertyKey(Toc3Header(usfmBook));
    if key in Toc3Index(g) then Some(Toc3Index(g)[key]) else None
  }

  /** The names of the books the incoming files are matched to. */
  function MatchedNames(g: Group, files: UsfmFiles): set<string>
  {
    if files == [] then {}
    else
      var m := Match(g, files[|files| - 1].1);
      MatchedNames(g, files[..|files| - 1]) + if m.Some? then {m.value.0} else {}
  }

  /** The state of the source loop: `modifiedBooks` and the two totals. */
  datatype GroupPass = GroupPass(modified: Dict<Books.Book>, added: nat, dropped: nat)

  /** One file through the source loop: it updates its matched book, or else all its verses are dropped. */
  function SourceStep(g: Group, p: GroupPass, usfmBook: UsfmBook, isSelected: seq<string> -> bool, groupName: string)
    : (q: GroupPass)
    ensures Match(g, usfmBook).Some? ==> q.modified.entries.Keys == p.modified.entries.Keys + {Match(g, usfmBook).value.0}
    ensures Match(g, usfmBook).None? ==> q.modified == p.modified
    ensures q.added + q.dropped == p.added + p.dropped + VerseCount(usfmBook.chapters)
  {
    var m := Match(g, usfmBook);
    if m.Some? then
      var (name, book) := m.value;
      var r := Books.WithSource(book, usfmBook, isSelected, groupName, name);
      GroupPass(Put(p.modified, name, r.value), p.added + r.added, p.dropped + r.dropped)
    else GroupPass(p.modified, p.added, p.dropped + VerseCount(usfmBook.chapters))
  }

  /** The source loop after it has seen `files`. */
  function SourceBooks(g: Group, files: UsfmFiles, isSelected: seq<string> -> bool, groupName: string): (p: GroupPass)
    ensures p.modified.entries.Keys == MatchedNames(g, files)
    ensures p.added + p.dropped == FilesVerseCount(files)
  {
    if files == [] then GroupPass(Empty(), 0, 0)
    else
      var n := |files| - 1;
      SourceStep(g, SourceBooks(g, files[..n], isSelected, groupName), files[n].1, isSelected, groupName)
  }

  /** Loop helper: one more file takes one more step of the source loop. */
  lemma SourceBooksSnoc(g: Group, files: UsfmFiles, isSelected: seq<string> -> bool, groupName: string, i: nat)
    requires i < |files|
    ensures SourceBooks(g, files[..i + 1], isSelected, groupName)
            == SourceStep(g, SourceBooks(g, files[..i], isSelected, groupName), files[i].1, isSelected, groupName)
  {
    assert files[..i + 1][..i] == files[..i];
  }

  /** Matched names are names of books the group has. */
  lemma MatchedNamesAreBooks(g: Group, files: UsfmFiles)
    ensures MatchedNames(g, files) <= g.books.entries.Keys
  {
    Members(g.books);
    Toc3FoldSound(g.books, g.books.order);
    MatchedNamesWithin(g, files);
  }

  lemma {:induction false} MatchedNamesWithin(g: Group, files: UsfmFiles)
    requires forall t :: t in Toc3Index(g) ==> Toc3Index(g)[t].0 in g.books.order
    ensures MatchedNames(g, files) <= g.books.entries.Keys
  {
    Members(g.books);
    if files != [] {
      MatchedNamesWithin(g, files[..|files| - 1]);
    }
  }

  /**
   * `addSourceUsfm`: the book names and their order are kept, only matched books
   * change, and every numeric verse of a numeric chapter of every incoming file is
   * counted once, as added or as dropped.
   */
  function WithSource(g: Group, files: UsfmFiles, isSelected: seq<string> -> bool, groupName: string): (r: Imported<Group>)
    ensures r.value.books.order == g.books.order
    ensures r.value.books.entries.Keys == g.books.entries.Keys
    ensures forall name :: name in g.books.entries && name !in MatchedNames(g, files) ==>
      r.value.books.entries[name] == g.books.entries[name]
    ensures r.added + r.dropped == FilesVerseCount(files)
  {
    var p := SourceBooks(g, files, isSelected, groupName);
    MatchedNamesAreBooks(g, files);
    SpreadKeepsOrder(g.books, p.modified);
    Imported(p.added, p.dropped, NewGroup(Some(Spread(g.books, p.modified))))
  }

  /** The last incoming file matched to the book filed under `name`; a later match overwrites an earlier one. */
  function LastMatched(g: Group, files: UsfmFiles, name: string): (f: Option<UsfmBook>)
    ensures f.Some? <==> name in MatchedNames(g, files)
  {
    if files == [] then None
    else
      var usfmBook := files[|files| - 1].1;
      var m := Match(g, usfmBook);
      if m.Some? && m.value.0 == name then Some(usfmBook)
      else LastMatched(g, files[..|files| - 1], name)
  }

  /** The file found is the one matched to `name` that no later matched file follows. */
  lemma {:induction false} LastMatchedIsLast(g: Group, files: UsfmFiles, name: string, j: nat)
    requires j < |files| && Match(g, files[j].1).Some? && Match(g, files[j].1).value.0 == name
    requires forall k :: j < k < |files| ==> !(Match(g, files[k].1).Some? && Match(g, files[k].1).value.0 == name)
    ensures LastMatched(g, files, name) == Some(files[j].1)
  {
    var last := |files| - 1;
    if j < last {
      assert !(Match(g, files[last].1).Some? && Match(g, files[last].1).value.0 == name);
      LastMatchedIsLast(g, files[..last], name, j);
    }
  }

  /** The source loop leaves under a matched name the group's own book with the last file matched to it imported. */
  lemma {:induction false} SourceBooksMatched(g: Group, files: UsfmFiles, isSelected: seq<string> -> bool,
                                              groupName: string, name: string)
    requires name in MatchedNames(g, files)
    ensures name in g.books.entries
    ensures SourceBooks(g, files, isSelected, groupName).modified.entries[name]
            == Books.WithSource(g.books.entries[name], LastMatched(g, files, name).value, isSelected, groupName, name).value
  {
    MatchedNamesAreBooks(g, files);
    var last := |files| - 1;
    var m := Match(g, files[last].1);
    if m.Some? && m.value.0 == name {
      Members(g.books);
      Toc3FoldSound(g.books, g.books.order);
    } else {
      SourceBooksMatched(g, files[..last], isSelected, groupName, name);
    }
  }

  /**
   * A matched book comes out as its own source import, fed the last incoming file
   * whose `toc3` finds it.
   */
  lemma WithSourceMatched(g: Group, files: UsfmFiles, isSelected: seq<string> -> bool, groupName: string, name: string)
    requires name in MatchedNames(g, files)
    ensures name in g.books.entries
    ensures WithSource(g, files, isSelected, groupName).value.books.entries[name]
            == Books.WithSource(g.books.entries[name], LastMatched(g, files, name).value, isSelected, groupName, name).value
  {
    SourceBooksMatched(g, files, isSelected, groupName, name);
  }

  /**
   * Every book keeps its file name, its short name and its chapters, and every
   * chapter afterwards has the verse numbers it had (none, if it is new).
   */
  lemma WithSourceKeepsBook(g: Group, files: UsfmFiles, isSelected: seq<string> -> bool, groupName: string, name: string)
    requires name in g.books.entries
    ensures var b := g.books.entries[name];
            var r := WithSource(g, files, isSelected, groupName).value.books.entries[name];
            r.filename == b.filename && r.toc3Name == b.toc3Name && b.chapters.Keys <= r.chapters.Keys
            && forall n :: n in r.chapters ==> r.chapters[n].verses.Keys == Books.BaseChapter(b, n).verses.Keys
  {
    if name in MatchedNames(g, files) {
      WithSourceMatched(g, files, isSelected, groupName, name);
    }
  }

  /**
   * When several books share a short name, only the last of them in the group's
   * order can receive source text: the others come out unchanged.
   */
  lemma ShadowedBookUnchanged(g: Group, files: UsfmFiles, isSelected: seq<string> -> bool, groupName: string,
                              i: nat, j: nat)
    requires i < j < |g.books.order|
    requires BaseBook(g, g.books.order[i]).toc3Name == BaseBook(g, g.books.order[j]).toc3Name
    ensures BaseBook(WithSource(g, files, isSelected, groupName).value, g.books.order[i]) == BaseBook(g, g.books.order[i])
  {
    Members(g.books);
    Toc3FoldSound(g.books, g.books.order);
    Toc3FoldShadowed(g.books, g.books.order, i, j);
    ShadowedNotMatched(g, files, g.books.order[i]);
  }

  lemma {:induction false} ShadowedNotMatched(g: Group, files: UsfmFiles, name: string)
    requires forall t :: t in Toc3Index(g) ==> Toc3Index(g)[t].0 != name
    ensures name !in MatchedNames(g, files)
  {
    if files != [] {
      ShadowedNotMatched(g, files[..|files| - 1], name);
    }
  }

  /**
   * Files whose `toc3` matches no book's short name change nothing: nothing is
   * added, and every numeric verse of their numeric chapters is dropped.
   */
  lemma {:induction false} UnmatchedFilesChangeNothing(g: Group, files: UsfmFiles, isSelected: seq<string> -> bool,
                                                        groupName: string)
    requires forall k, name :: 0 <= k < |files| && name in g.books.entries ==>
      g.books.entries[name].toc3Name != PropertyKey(Toc3Header(files[k].1))
    ensures WithSource(g, files, isSelected, groupName).value == g
    ensures WithSource(g, files, isSelected, groupName).added == 0
    ensures WithSource(g, files, isSelected, groupName).dropped == FilesVerseCount(files)
  {
    Members(g.books);
    Toc3FoldSound(g.books, g.books.order);
    NothingMatched(g, files, isSelected, groupName);
    var r := WithSource(g, files, isSelected, groupName).value;
    assert r.books.entries == g.books.entries;
  }

  lemma {:induction false} NothingMatched(g: Group, files: UsfmFiles, isSelected: seq<string> -> bool, groupName: string)
    requires forall k :: 0 <= k < |files| ==> PropertyKey(Toc3Header(files[k].1)) !in Toc3Index(g)
    ensures SourceBooks(g, files, isSelected, groupName) == GroupPass(Empty(), 0, FilesVerseCount(files))
  {
    if files != [] {
      NothingMatched(g, files[..|files| - 1], isSelected, groupName);
    }
  }

  /** The nested count of an unmatched book: numeric verse keys in numeric chapter keys. */
  method CountUnmatchedVerses(usfmBook: UsfmBook) returns (count: nat)
    ensures count == VerseCount(usfmBook.chapters)
  {
    var chapters := usfmBook.chapters;
    count := 0;
    var i := 0;
    while i < |chapters|
      invariant 0 <= i <= |chapters|
      invariant count == VerseCount(chapters[..i])
    {
      var chapterKey := chapters[i].0;
      var chapter: UsfmChapter := chapters[i].1;
      if IsNumber(chapterKey) {
        var j := 0;
        var before := count;
        while j < |chapter|
          invariant 0 <= j <= |chapter|
          invariant count == before + NumericCount(chapter[..j])
        {
          if IsNumber(chapter[j].0) {
            count := count + 1;
          }
          assert chapter[..j + 1][..j] == chapter[..j];
          j := j + 1;
        }
        assert chapter[..j] == chapter;
      }
      assert chapters[..i + 1][..i] == chapters[..i];
      i := i + 1;
    }
    assert chapters[..i] == chapters;
  }

  method AddSourceUsfm(g: Group, files: UsfmFiles, isSelected: seq<string> -> bool, groupName: string)
    returns (r: Imported<Group>)
    ensures r == WithSource(g, files, isSelected, groupName)
  {
    var modifiedBooks: Dict<Books.Book> := Empty();
    var toc3Books := Toc3Index(g);
    var totalAdded: nat := 0;
    var totalDropped: nat := 0;
    for i := 0 to |files|
      invariant GroupPass(modifiedBooks, totalAdded, totalDropped) == SourceBooks(g, files[..i], isSelected, groupName)
    {
      var usfmBook := files[i].1;
      SourceBooksSnoc(g, files, isSelected, groupName, i);
      ghost var next := SourceStep(g, GroupPass(modifiedBooks, totalAdded, totalDropped), usfmBook, isSelected, groupName);
      var toc3 := PropertyKey(Toc3Header(usfmBook));
      if toc3 in toc3Books {
        var (bookName, book) := toc3Books[toc3];
        assert Match(g, usfmBook) == Some((bookName, book));
        var imported := Books.AddSourceUsfm(book, usfmBook, isSelected, groupName, bookName);
        totalAdded := totalAdded + imported.added;
        totalDropped := totalDropped + imported.dropped;
        modifiedBooks := Put(modifiedBooks, bookName, imported.value);
      } else {
        assert Match(g, usfmBook).None?;
        var nonMatched := CountUnmatchedVerses(usfmBook);
        totalDropped := totalDropped + nonMatched;
      }
      assert GroupPass(modifiedBooks, totalAdded, totalDropped) == next;
    }
    assert files[..|files|] == files;
    r := Imported(totalAdded, totalDropped, NewGroup(Some(Spread(g.books, modifiedBooks))));
  }

  // ---------------------------------------------------------------- listing

  /** `getListHeaders`: a count column at group scope, the book columns otherwise. */
  function ListHeaders(scope: string): (h: seq<string>)
    ensures scope == "Group" ==> h == ["Group", "Books"]
    ensures |h| == if scope == "Group" then 2 else if scope == "Book" then 3 else 4
    ensures scope != "Group" ==> h[0] == "Group" && h[1..] == Books.ListHeaders(scope)
  {
    if scope == "Group" then ["Group", "Books"] else ["Group"] + Books.ListHeaders(scope)
  }

  /** How many keys a group's rows carry. */
  function KeySpan(scope: string): nat
  {
    if scope == "Group" then 1 else 1 + Books.KeySpan(scope)
  }

  /** `keys` names the group itself (empty), or an existing book followed by a selector within it. */
  predicate Locates(g: Group, keys: seq<string>)
  {
    keys == [] || (keys[0] in g.books.entries && Books.Locates(g.books.entries[keys[0]], keys[1..]))
  }

  /** How many nodes the books named `names` hold at `depth`, a book being depth 1. */
  function BookNodes(g: Group, names: seq<string>, depth: nat): nat
    requires forall k :: k in names ==> k in g.books.entries
  {
    if names == [] then 0
    else
      var name := names[|names| - 1];
      assert name in names;
      BookNodes(g, names[..|names| - 1], depth) + Books.NodesAt(g.books.entries[name], depth)
  }

  /** How many nodes lie at `depth` counting the group as depth 1. */
  function NodesAt(g: Group, depth: nat): nat
  {
    Members(g.books);
    if depth <= 1 then 1 else BookNodes(g, g.books.order, depth - 1)
  }

  /** The rows of the books named `names`, in that order, each prefixed with the group name. */
  function BookRows(g: Group, groupName: string, names: seq<string>, scope: string): (rows: seq<Row>)
    requires forall k :: k in names ==> k in g.books.entries
  {
    if names == [] then []
    else
      var name := names[|names| - 1];
      assert name in names;
      BookRows(g, groupName, names[..|names| - 1], scope)
        + Prefixed(groupName, Books.ListInfo(g.books.entries[name], name, scope))
  }

  /** `getListInfo`: one summary row at group scope, else the books' rows in the group's order. */
  function ListInfo(g: Group, groupName: string, scope: string): (rows: seq<Row>)
    ensures scope == "Group" ==> rows == [Row([groupName, IntToString(|g.books.order|)], [groupName])]
  {
    Members(g.books);
    if scope == "Group" then [Row([groupName, IntToString(|g.books.order|)], [groupName])]
    else BookRows(g, groupName, g.books.order, scope)
  }

  /** The shape of a group row. */
  predicate RowFits(g: Group, groupName: string, scope: string, r: Row)
  {
    |r.data| == |ListHeaders(scope)| && KeysLead(r) && |r.keys| == KeySpan(scope)
    && r.keys[0] == groupName && Locates(g, r.keys[1..])
  }

  /** The rows one book contributes fit the group's headers and name that book. */
  lemma BookBlockFits(g: Group, groupName: string, name: string, scope: string)
    requires name in g.books.entries && scope != "Group"
    ensures |Prefixed(groupName, Books.ListInfo(g.books.entries[name], name, scope))|
            == Books.NodesAt(g.books.entries[name], KeySpan(scope) - 1)
    ensures forall i :: 0 <= i < |Prefixed(groupName, Books.ListInfo(g.books.entries[name], name, scope))| ==>
      RowFits(g, groupName, scope, Prefixed(groupName, Books.ListInfo(g.books.entries[name], name, scope))[i])
  {
    var b := g.books.entries[name];
    var sub := Books.ListInfo(b, name, scope);
    var rows := Prefixed(groupName, sub);
    Books.ListInfoShape(b, name, scope);
    forall i | 0 <= i < |rows|
      ensures RowFits(g, groupName, scope, rows[i])
    {
      assert Books.RowFits(b, name, scope, sub[i]);
      PrefixKeepsKeysLead(groupName, sub[i]);
      assert rows[i].keys[1..] == sub[i].keys;
      assert sub[i].keys == [name] + sub[i].keys[1..];
    }
  }

  /** Every row of the books named `names` fits the group's headers; the rows count the nodes below. */
  lemma {:induction false} BookRowsFit(g: Group, groupName: string, names: seq<string>, scope: string)
    requires forall k :: k in names ==> k in g.books.entries
    requires scope != "Group"
    ensures |BookRows(g, groupName, names, scope)| == BookNodes(g, names, KeySpan(scope) - 1)
    ensures forall i :: 0 <= i < |BookRows(g, groupName, names, scope)| ==>
      RowFits(g, groupName, scope, BookRows(g, groupName, names, scope)[i])
  {
    if names != [] {
      BookRowsFit(g, groupName, names[..|names| - 1], scope);
      BookBlockFits(g, groupName, names[|names| - 1], scope);
    }
  }

  /**
   * Every row is as wide as the headers, its keys lead its cells and start with the
   * group name, and they go on to name an existing book and a node within it; the
   * rows count the nodes at the listed depth.
   */
  lemma ListInfoShape(g: Group, groupName: string, scope: string)
    ensures |ListInfo(g, groupName, scope)| == NodesAt(g, KeySpan(scope))
    ensures forall i :: 0 <= i < |ListInfo(g, groupName, scope)| ==>
      RowFits(g, groupName, scope, ListInfo(g, groupName, scope)[i])
  {
    if scope != "Group" {
      Members(g.books);
      BookRowsFit(g, groupName, g.books.order, scope);
    }
  }

  /** Loop helper: the listing's specification unfolded by one book name. */
  lemma BookRowsSnoc(g: Group, groupName: string, names: seq<string>, scope: string, i: nat)
    requires i < |names| && forall k :: k in names ==> k in g.books.entries
    ensures BookRows(g, groupName, names[..i + 1], scope)
            == BookRows(g, groupName, names[..i], scope)
               + Prefixed(groupName, Books.ListInfo(g.books.entries[names[i]], names[i], scope))
  {
    assert names[..i + 1][..i] == names[..i];
  }

  method GetListInfo(g: Group, groupName: string, scope: string) returns (result: seq<Row>)
    ensures result == ListInfo(g, groupName, scope)
  {
    result := [];
    if scope == "Group" {
      result := result + [Row([groupName, IntToString(|g.books.order|)], [groupName])];
    } else {
      var names := g.books.order;
      Members(g.books);
      var i := 0;
      while i < |names|
        invariant 0 <= i <= |names|
        invariant forall k :: k in names[..i] ==> k in g.books.entries
        invariant result == BookRows(g, groupName, names[..i], scope)
      {
        var subResults := Books.GetListInfo(g.books.entries[names[i]], names[i], scope);
        result := PushPrefixed(result, groupName, subResults);
        BookRowsSnoc(g, groupName, names, scope, i);
        i := i + 1;
      }
      assert names[..i] == names;
    }
  }
}
