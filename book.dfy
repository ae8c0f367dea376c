/**
 * A book: its chapters keyed by chapter number, the name of the file it was
 * imported from and its `toc3` short name, by which source text finds it.
 */
module Books {
  import opened JsBuiltins
  import opened UsfmMisc
  import opened UsfmJson
  import opened Dict
  import opened Listing
  import Chapters

  datatype Book = Book(chapters: map<int, Chapters.Chapter>, filename: string, toc3Name: string)

  /** The constructor: an absent chapter object is empty, an absent or empty name is "". */
  function NewBook(chapters: Option<map<int, Chapters.Chapter>>, filename: Option<string>,
                   toc3Name: Option<string>): (b: Book)
    ensures chapters.None? ==> b.chapters == map[]
    ensures chapters.Some? ==> b.chapters == chapters.value
    ensures filename.None? ==> b.filename == ""
    ensures filename.Some? ==> b.filename == filename.value
    ensures toc3Name.None? ==> b.toc3Name == ""
    ensures toc3Name.Some? ==> b.toc3Name == toc3Name.value
  {
    Book(if chapters.Some? then chapters.value else map[], OrEmpty(filename), OrEmpty(toc3Name))
  }

  /** `this.chapters[n] || new Chapter()`. */
  function BaseChapter(b: Book, n: int): Chapters.Chapter
  {
    if n in b.chapters then b.chapters[n] else Chapters.NewChapter()
  }

  // ---------------------------------------------------------------- target text

  /** `newChapters` after the target loop has seen `chapters`: one chapter per numeric key. */
  function TargetChapters(b: Book, chapters: seq<(string, UsfmChapter)>): (m: map<int, Chapters.Chapter>)
    ensures m.Keys == NumericKeys(chapters)
  {
    if chapters == [] then map[]
    else
      var (key, usfmChapter) := chapters[|chapters| - 1];
      var m := TargetChapters(b, chapters[..|chapters| - 1]);
      if IsNumber(key) then m[KeyNumber(key) := Chapters.WithTarget(BaseChapter(b, KeyNumber(key)), usfmChapter)]
      else m
  }

  /**
   * `addTargetUsfm`: the chapter numbers afterwards are the old ones and those read
   * from the numeric keys, the chapters the input does not name are kept, and the
   * file name and short name are the ones passed in.
   */
  function WithTarget(b: Book, filename: string, usfmBook: UsfmBook, toc3Name: Option<string>): (r: Book)
    ensures r.chapters.Keys == b.chapters.Keys + NumericKeys(usfmBook.chapters)
    ensures forall n :: n in b.chapters && n !in NumericKeys(usfmBook.chapters) ==> r.chapters[n] == b.chapters[n]
    ensures r.filename == filename
    ensures r.toc3Name == if toc3Name.Some? then toc3Name.value else ""
  {
    NewBook(Some(b.chapters + TargetChapters(b, usfmBook.chapters)), Some(filename), toc3Name)
  }

  /** Loop helper: the target loop's specification unfolded by one incoming chapter. */
  lemma TargetChaptersSnoc(b: Book, chapters: seq<(string, UsfmChapter)>, i: nat)
    requires i < |chapters|
    ensures TargetChapters(b, chapters[..i + 1])
            == if IsNumber(chapters[i].0)
               then TargetChapters(b, chapters[..i])[KeyNumber(chapters[i].0) :=
                      Chapters.WithTarget(BaseChapter(b, KeyNumber(chapters[i].0)), chapters[i].1)]
               else TargetChapters(b, chapters[..i])
  {
    assert chapters[..i + 1][..i] == chapters[..i];
  }

  method AddTargetUsfm(b: Book, filename: string, usfmBook: UsfmBook, toc3Name: Option<string>) returns (r: Book)
    ensures r == WithTarget(b, filename, usfmBook, toc3Name)
  {
    var chapters := usfmBook.chapters;
    var newChapters: map<int, Chapters.Chapter> := map[];
    for i := 0 to |chapters|
      invariant newChapters == TargetChapters(b, chapters[..i])
    {
      var (chapterKey, usfmChapter) := chapters[i];
      TargetChaptersSnoc(b, chapters, i);
      if IsNumber(chapterKey) {
        var n := KeyNumber(chapterKey);
        var newChapter := BaseChapter(b, n);
        newChapters := newChapters[n := Chapters.WithTarget(newChapter, usfmChapter)];
      }
    }
    assert chapters[..|chapters|] == chapters;
    r := NewBook(Some(b.chapters + newChapters), Some(filename), toc3Name);
  }

  /**
   * A chapter named by the input is the old chapter (or a new one) with the last
   * incoming chapter of that number imported into it.
   */
  lemma {:induction false} TargetChaptersLastWins(b: Book, chapters: seq<(string, UsfmChapter)>, n: int)
    requires n in NumericKeys(chapters)
    ensures TargetChapters(b, chapters)[n] == Chapters.WithTarget(BaseChapter(b, n), LastNumbered(chapters, n).value)
  {
    var key := chapters[|chapters| - 1].0;
    if !(IsNumber(key) && KeyNumber(key) == n) {
      TargetChaptersLastWins(b, chapters[..|chapters| - 1], n);
    }
  }

  /** Importing the same target book twice gives what importing it once gives. */
  lemma WithTargetIdempotent(b: Book, filename: string, usfmBook: UsfmBook, toc3Name: Option<string>)
    ensures WithTarget(WithTarget(b, filename, usfmBook, toc3Name), filename, usfmBook, toc3Name)
            == WithTarget(b, filename, usfmBook, toc3Name)
  {
    var once := WithTarget(b, filename, usfmBook, toc3Name);
    var twice := WithTarget(once, filename, usfmBook, toc3Name);
    forall n | n in twice.chapters
      ensures n in once.chapters && twice.chapters[n] == once.chapters[n]
    {
      if n in NumericKeys(usfmBook.chapters) {
        var u := LastNumbered(usfmBook.chapters, n).value;
        TargetChaptersLastWins(b, usfmBook.chapters, n);
        TargetChaptersLastWins(once, usfmBook.chapters, n);
        Chapters.WithTargetIdempotent(BaseChapter(b, n), u);
      }
    }
    assert twice.chapters == once.chapters;
  }

  // ---------------------------------------------------------------- source text

  /** The state of the source loop: `modifiedChapters` and the two totals. */
  datatype BookPass = BookPass(modified: map<int, Chapters.Chapter>, added: nat, dropped: nat)

  /** The source loop after it has seen `chapters`. */
  function SourceChapters(b: Book, chapters: seq<(string, UsfmChapter)>, isSelected: seq<string> -> bool,
                          groupName: string, bookName: string): (p: BookPass)
    ensures p.modified.Keys == NumericKeys(chapters)
    ensures p.added + p.dropped == VerseCount(chapters)
  {
    if chapters == [] then BookPass(map[], 0, 0)
    else
      var (key, usfmChapter) := chapters[|chapters| - 1];
      var p := SourceChapters(b, chapters[..|chapters| - 1], isSelected, groupName, bookName);
      if IsNumber(key) then
        var n := KeyNumber(key);
        var r := Chapters.WithSource(BaseChapter(b, n), usfmChapter, isSelected, groupName, bookName, key);
        BookPass(p.modified[n := r.value], p.added + r.added, p.dropped + r.dropped)
      else p
  }

  /** A chapter the source loop replaces has the verses it had (none, if it is new). */
  lemma {:induction false} SourceChaptersKeepVerses(b: Book, chapters: seq<(string, UsfmChapter)>,
                                                    isSelected: seq<string> -> bool, groupName: string, bookName: string)
    ensures forall n :: n in SourceChapters(b, chapters, isSelected, groupName, bookName).modified ==>
      SourceChapters(b, chapters, isSelected, groupName, bookName).modified[n].verses.Keys == BaseChapter(b, n).verses.Keys
  {
    if chapters != [] {
      SourceChaptersKeepVerses(b, chapters[..|chapters| - 1], isSelected, groupName, bookName);
    }
  }

  /**
   * `addSourceUsfm`: the file name and short name are kept, every numeric chapter
   * key names a chapter afterwards (a new one when the book lacked it), no chapter
   * gains or loses verses, and every numeric verse of a numeric chapter is counted
   * once, as added or as dropped.
   */
  function WithSource(b: Book, usfmBook: UsfmBook, isSelected: seq<string> -> bool,
                      groupName: string, bookName: string): (r: Imported<Book>)
    ensures r.value.filename == b.filename && r.value.toc3Name == b.toc3Name
    ensures r.value.chapters.Keys == b.chapters.Keys + NumericKeys(usfmBook.chapters)
    ensures forall n :: n in r.value.chapters ==> r.value.chapters[n].verses.Keys == BaseChapter(b, n).verses.Keys
    ensures forall n :: n in b.chapters && n !in NumericKeys(usfmBook.chapters) ==> r.value.chapters[n] == b.chapters[n]
    ensures r.added + r.dropped == VerseCount(usfmBook.chapters)
  {
    var p := SourceChapters(b, usfmBook.chapters, isSelected, groupName, bookName);
    SourceChaptersKeepVerses(b, usfmBook.chapters, isSelected, groupName, bookName);
    Imported(p.added, p.dropped, NewBook(Some(b.chapters + p.modified), Some(b.filename), Some(b.toc3Name)))
  }

  /** A numeric chapter the book lacked is added, and it is empty. */
  lemma SourceAddsEmptyChapters(b: Book, usfmBook: UsfmBook, isSelected: seq<string> -> bool,
                                groupName: string, bookName: string, n: int)
    requires n in NumericKeys(usfmBook.chapters) && n !in b.chapters
    ensures n in WithSource(b, usfmBook, isSelected, groupName, bookName).value.chapters
    ensures WithSource(b, usfmBook, isSelected, groupName, bookName).value.chapters[n] == Chapters.NewChapter()
  {
    var c := WithSource(b, usfmBook, isSelected, groupName, bookName).value.chapters[n];
    assert c.verses.Keys == {};
    assert c.verses == map[];
  }

  /** Loop helper: the source loop's specification unfolded by one incoming chapter. */
  lemma SourceChaptersSnoc(b: Book, chapters: seq<(string, UsfmChapter)>, isSelected: seq<string> -> bool,
                           groupName: string, bookName: string, i: nat)
    requires i < |chapters|
    ensures SourceChapters(b, chapters[..i + 1], isSelected, groupName, bookName)
            == var p := SourceChapters(b, chapters[..i], isSelected, groupName, bookName);
               var key := chapters[i].0;
               if IsNumber(key) then
                 var r := Chapters.WithSource(BaseChapter(b, KeyNumber(key)), chapters[i].1, isSelected, groupName, bookName, key);
                 BookPass(p.modified[KeyNumber(key) := r.value], p.added + r.added, p.dropped + r.dropped)
               else p
  {
    assert chapters[..i + 1][..i] == chapters[..i];
  }

  method AddSourceUsfm(b: Book, usfmBook: UsfmBook, isSelected: seq<string> -> bool,
                       groupName: string, bookName: string) returns (r: Imported<Book>)
    ensures r == WithSource(b, usfmBook, isSelected, groupName, bookName)
  {
    var chapters := usfmBook.chapters;
    var modifiedChapters: map<int, Chapters.Chapter> := map[];
    var totalAdded: nat := 0;
    var totalDropped: nat := 0;
    for i := 0 to |chapters|
      invariant BookPass(modifiedChapters, totalAdded, totalDropped)
                == SourceChapters(b, chapters[..i], isSelected, groupName, bookName)
    {
      var (chapterKey, usfmChapter) := chapters[i];
      SourceChaptersSnoc(b, chapters, isSelected, groupName, bookName, i);
      if IsNumber(chapterKey) {
        var n := KeyNumber(chapterKey);
        var toModify := BaseChapter(b, n);
        var imported := Chapters.AddSourceUsfm(toModify, usfmChapter, isSelected, groupName, bookName, chapterKey);
        totalAdded := totalAdded + imported.added;
        totalDropped := totalDropped + imported.dropped;
        modifiedChapters := modifiedChapters[n := imported.value];
      }
    }
    assert chapters[..|chapters|] == chapters;
    r := Imported(totalAdded, totalDropped, NewBook(Some(b.chapters + modifiedChapters), Some(b.filename), Some(b.toc3Name)));
  }

  // ---------------------------------------------------------------- listing

  /** `getListHeaders`: a count column at book scope, the chapter columns otherwise. */
  function ListHeaders(scope: string): (h: seq<string>)
    ensures scope == "Book" ==> h == ["Book", "Chapters"]
    ensures scope != "Book" ==> |h| == 3 && h[0] == "Book" && h[1..] == Chapters.ListHeaders(scope)
  {
    if scope == "Book" then ["Book", "Chapters"] else ["Book"] + Chapters.ListHeaders(scope)
  }

  /** How many keys a book's rows carry. */
  function KeySpan(scope: string): nat
  {
    if scope == "Book" then 1 else 1 + Chapters.KeySpan(scope)
  }

  /** `keys` names the book itself (empty), or an existing chapter followed by a selector within it. */
  predicate Locates(b: Book, keys: seq<string>)
  {
    keys == []
    || (IsNumber(keys[0]) && KeyNumber(keys[0]) in b.chapters
        && Chapters.Locates(b.chapters[KeyNumber(keys[0])], keys[1..]))
  }

  /** How many nodes the chapters numbered `keys` hold at `depth`, a chapter being depth 1. */
  function ChapterNodes(b: Book, keys: seq<int>, depth: nat): nat
  {
    if keys == [] then 0
    else
      var k := keys[|keys| - 1];
      ChapterNodes(b, keys[..|keys| - 1], depth) + Chapters.NodesAt(BaseChapter(b, k), depth)
  }

  /** How many nodes lie at `depth` counting the book as depth 1. */
  function NodesAt(b: Book, depth: nat): nat
  {
    if depth <= 1 then 1 else ChapterNodes(b, SortedInts(b.chapters.Keys), depth - 1)
  }

  /** The rows of the chapters numbered `keys`, in that order, each prefixed with the book name. */
  function ChapterRows(b: Book, bookName: string, keys: seq<int>, scope: string): (rows: seq<Row>)
  {
    if keys == [] then []
    else
      var k := keys[|keys| - 1];
      ChapterRows(b, bookName, keys[..|keys| - 1], scope)
        + Prefixed(bookName, Chapters.ListInfo(BaseChapter(b, k), k, scope))
  }

  /** `getListInfo`: one summary row at book scope, else the chapters' rows in ascending chapter order. */
  function ListInfo(b: Book, bookName: string, scope: string): (rows: seq<Row>)
    ensures scope == "Book" ==> rows == [Row([bookName, IntToString(|b.chapters|)], [bookName])]
  {
    if scope == "Book" then [Row([bookName, IntToString(|b.chapters|)], [bookName])]
    else ChapterRows(b, bookName, SortedInts(b.chapters.Keys), scope)
  }

  /** The shape of a book row below book scope. */
  predicate RowFits(b: Book, bookName: string, scope: string, r: Row)
  {
    |r.data| == |ListHeaders(scope)| && KeysLead(r) && |r.keys| == KeySpan(scope)
    && r.keys[0] == bookName && Locates(b, r.keys[1..])
  }

  /** A chapter row, prefixed with the book name, fits the book's headers. */
  lemma PrefixedRowFits(b: Book, bookName: string, k: int, scope: string, r: Row)
    requires k in b.chapters && scope != "Book"
    requires |r.data| == |Chapters.ListHeaders(scope)| && KeysLead(r) && |r.keys| == Chapters.KeySpan(scope)
    requires r.keys[0] == IntToString(k) && Chapters.Locates(b.chapters[k], r.keys[1..])
    ensures RowFits(b, bookName, scope, Row([bookName] + r.data, [bookName] + r.keys))
  {
    PrefixKeepsKeysLead(bookName, r);
    KeyNumberOfIntToString(k);
    assert ([bookName] + r.keys)[1..] == r.keys;
    assert r.keys == [IntToString(k)] + r.keys[1..];
  }

  /** The rows one chapter contributes fit the book's headers and name that chapter. */
  lemma ChapterBlockFits(b: Book, bookName: string, k: int, scope: string)
    requires k in b.chapters && scope != "Book"
    ensures |Prefixed(bookName, Chapters.ListInfo(b.chapters[k], k, scope))|
            == Chapters.NodesAt(b.chapters[k], KeySpan(scope) - 1)
    ensures forall i :: 0 <= i < |Prefixed(bookName, Chapters.ListInfo(b.chapters[k], k, scope))| ==>
      RowFits(b, bookName, scope, Prefixed(bookName, Chapters.ListInfo(b.chapters[k], k, scope))[i])
  {
    var c := b.chapters[k];
    var sub := Chapters.ListInfo(c, k, scope);
    var rows := Prefixed(bookName, sub);
    Chapters.ListInfoShape(c, k, scope);
    forall i | 0 <= i < |rows|
      ensures RowFits(b, bookName, scope, rows[i])
    {
      PrefixedRowFits(b, bookName, k, scope, sub[i]);
    }
  }

  /** Every row of the chapters numbered `keys` fits the book's headers; the rows count the nodes below. */
  lemma {:induction false} ChapterRowsFit(b: Book, bookName: string, keys: seq<int>, scope: string)
    requires forall k :: k in keys ==> k in b.chapters
    requires scope != "Book"
    ensures |ChapterRows(b, bookName, keys, scope)| == ChapterNodes(b, keys, KeySpan(scope) - 1)
    ensures forall i :: 0 <= i < |ChapterRows(b, bookName, keys, scope)| ==>
      RowFits(b, bookName, scope, ChapterRows(b, bookName, keys, scope)[i])
  {
    if keys != [] {
      var init := keys[..|keys| - 1];
      ChapterRowsFit(b, bookName, init, scope);
      ChapterBlockFits(b, bookName, keys[|keys| - 1], scope);
    }
  }

  /**
   * Every row is as wide as the headers, its keys lead its cells and start with the
   * book name, and they go on to name an existing chapter and a node within it;
   * the rows count the nodes at the listed depth.
   */
  lemma ListInfoShape(b: Book, bookName: string, scope: string)
    ensures |ListInfo(b, bookName, scope)| == NodesAt(b, KeySpan(scope))
    ensures forall i :: 0 <= i < |ListInfo(b, bookName, scope)| ==>
      RowFits(b, bookName, scope, ListInfo(b, bookName, scope)[i])
  {
    if scope != "Book" {
      ChapterRowsFit(b, bookName, SortedInts(b.chapters.Keys), scope);
    }
  }

  /** Loop helper: the listing's specification unfolded by one chapter number. */
  lemma ChapterRowsSnoc(b: Book, bookName: string, keys: seq<int>, scope: string, i: nat)
    requires i < |keys|
    ensures ChapterRows(b, bookName, keys[..i + 1], scope)
            == ChapterRows(b, bookName, keys[..i], scope)
               + Prefixed(bookName, Chapters.ListInfo(BaseChapter(b, keys[i]), keys[i], scope))
  {
    assert keys[..i + 1][..i] == keys[..i];
  }

  method GetListInfo(b: Book, bookName: string, scope: string) returns (result: seq<Row>)
    ensures result == ListInfo(b, bookName, scope)
  {
    result := [];
    if scope == "Book" {
      result := result + [Row([bookName, IntToString(|b.chapters|)], [bookName])];
    } else {
      var keys := SortedInts(b.chapters.Keys);
      for i := 0 to |keys|
        invariant result == ChapterRows(b, bookName, keys[..i], scope)
      {
        assert keys[i] in b.chapters;
        var subResults := Chapters.GetListInfo(b.chapters[keys[i]], keys[i], scope);
        result := PushPrefixed(result, bookName, subResults);
        ChapterRowsSnoc(b, bookName, keys, scope, i);
      }
      assert keys[..|keys|] == keys;
    }
  }
}
