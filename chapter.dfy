/**
 * A chapter: its verses keyed by verse number. Importing never changes a chapter
 * in place; it builds the verses to replace and returns a new chapter.
 */
module Chapters {
  import opened JsBuiltins
  import opened UsfmMisc
  import opened UsfmJson
  import opened Dict
  import opened Listing
  import Verses

  datatype Chapter = Chapter(verses: map<int, Verses.Verse>)

  /** `new Chapter()`: no verses. */
  function NewChapter(): (c: Chapter)
    ensures c.verses == map[]
  {
    Chapter(map[])
  }

  /** `this.verses[n] || new Verse()`. */
  function BaseVerse(c: Chapter, n: int): Verses.Verse
  {
    if n in c.verses then c.verses[n] else Verses.Verse
  }

  // ---------------------------------------------------------------- target text

  /** `newVerses` after the target loop has seen `usfmChapter`: one verse per numeric key. */
  function TargetVerses(c: Chapter, usfmChapter: UsfmChapter): (m: map<int, Verses.Verse>)
    ensures m.Keys == NumericKeys(usfmChapter)
  {
    if usfmChapter == [] then map[]
    else
      var (key, usfmVerse) := usfmChapter[|usfmChapter| - 1];
      var m := TargetVerses(c, usfmChapter[..|usfmChapter| - 1]);
      if IsNumber(key) then m[KeyNumber(key) := Verses.WithTarget(BaseVerse(c, KeyNumber(key)), usfmVerse)]
      else m
  }

  /**
   * `addTargetUsfm`: the verse numbers afterwards are the old ones and those
   * read from the numeric keys; verses the input does not name are kept.
   */
  function WithTarget(c: Chapter, usfmChapter: UsfmChapter): (r: Chapter)
    ensures r.verses.Keys == c.verses.Keys + NumericKeys(usfmChapter)
    ensures forall n :: n in c.verses && n !in NumericKeys(usfmChapter) ==> r.verses[n] == c.verses[n]
  {
    Chapter(c.verses + TargetVerses(c, usfmChapter))
  }

  method AddTargetUsfm(c: Chapter, usfmChapter: UsfmChapter) returns (r: Chapter)
    ensures r == WithTarget(c, usfmChapter)
  {
    var newVerses: map<int, Verses.Verse> := map[];
    var i := 0;
    while i < |usfmChapter|
      invariant 0 <= i <= |usfmChapter|
      invariant newVerses == TargetVerses(c, usfmChapter[..i])
    {
      var (verseKey, usfmVerse) := usfmChapter[i];
      if IsNumber(verseKey) {
        var n := KeyNumber(verseKey);
        var newVerse := if n in c.verses then c.verses[n] else Verses.Verse;
        newVerses := newVerses[n := Verses.WithTarget(newVerse, usfmVerse)];
      }
      assert usfmChapter[..i + 1][..i] == usfmChapter[..i];
      i := i + 1;
    }
    assert usfmChapter[..i] == usfmChapter;
    r := Chapter(c.verses + newVerses);
  }

  /** Importing the same target chapter twice gives what importing it once gives. */
  lemma WithTargetIdempotent(c: Chapter, usfmChapter: UsfmChapter)
    ensures WithTarget(WithTarget(c, usfmChapter), usfmChapter) == WithTarget(c, usfmChapter)
  {
    var once := WithTarget(c, usfmChapter);
    var twice := WithTarget(once, usfmChapter);
    forall n | n in twice.verses
      ensures n in once.verses && twice.verses[n] == once.verses[n]
    {
    }
    assert twice.verses == once.verses;
  }

  // ---------------------------------------------------------------- source text

  /**
   * The rule for attaching source text: the key is numeric, a verse with that
   * number already exists, and the selector accepts the location spelled with the
   * original string keys.
   */
  predicate Accepts(c: Chapter, isSelected: seq<string> -> bool, groupName: string, bookName: string,
                    chapterKey: string, verseKey: string)
  {
    IsNumber(verseKey) && KeyNumber(verseKey) in c.verses && isSelected([groupName, bookName, chapterKey, verseKey])
  }

  /** The state of the source loop: `modifiedVerses` and the two counters. */
  datatype SourcePass = SourcePass(modified: map<int, Verses.Verse>, added: nat, dropped: nat)

  /** The source loop after it has seen `usfmChapter`. */
  function SourceVerses(c: Chapter, usfmChapter: UsfmChapter, isSelected: seq<string> -> bool,
                        groupName: string, bookName: string, chapterKey: string): (p: SourcePass)
    ensures p.modified.Keys <= c.verses.Keys
    ensures p.added + p.dropped == NumericCount(usfmChapter)
  {
    if usfmChapter == [] then SourcePass(map[], 0, 0)
    else
      var (key, usfmVerse) := usfmChapter[|usfmChapter| - 1];
      var p := SourceVerses(c, usfmChapter[..|usfmChapter| - 1], isSelected, groupName, bookName, chapterKey);
      if !IsNumber(key) then p
      else if Accepts(c, isSelected, groupName, bookName, chapterKey, key) then
        var n := KeyNumber(key);
        SourcePass(p.modified[n := Verses.WithSource(c.verses[n], usfmVerse)], p.added + 1, p.dropped)
      else SourcePass(p.modified, p.added, p.dropped + 1)
  }

  /** The incoming entries the attaching rule accepts, in their order. */
  function AcceptedEntries(c: Chapter, usfmChapter: UsfmChapter, isSelected: seq<string> -> bool,
                           groupName: string, bookName: string, chapterKey: string): (a: UsfmChapter)
    ensures forall i :: 0 <= i < |a| ==> Accepts(c, isSelected, groupName, bookName, chapterKey, a[i].0)
    ensures forall j :: 0 <= j < |usfmChapter| && Accepts(c, isSelected, groupName, bookName, chapterKey, usfmChapter[j].0)
              ==> usfmChapter[j] in a
  {
    if usfmChapter == [] then []
    else
      var kept := AcceptedEntries(c, usfmChapter[..|usfmChapter| - 1], isSelected, groupName, bookName, chapterKey);
      var entry := usfmChapter[|usfmChapter| - 1];
      if Accepts(c, isSelected, groupName, bookName, chapterKey, entry.0) then kept + [entry] else kept
  }

  /**
   * Exactly the verses named by accepted entries are replaced, and
   * `addedVerseCount` is the number of accepted entries.
   */
  lemma {:induction false} SourceVersesAccepted(c: Chapter, usfmChapter: UsfmChapter, isSelected: seq<string> -> bool,
                                                groupName: string, bookName: string, chapterKey: string)
    ensures SourceVerses(c, usfmChapter, isSelected, groupName, bookName, chapterKey).modified.Keys
            == NumericKeys(AcceptedEntries(c, usfmChapter, isSelected, groupName, bookName, chapterKey))
    ensures SourceVerses(c, usfmChapter, isSelected, groupName, bookName, chapterKey).added
            == |AcceptedEntries(c, usfmChapter, isSelected, groupName, bookName, chapterKey)|
  {
    if usfmChapter != [] {
      var init := usfmChapter[..|usfmChapter| - 1];
      SourceVersesAccepted(c, init, isSelected, groupName, bookName, chapterKey);
      var kept := AcceptedEntries(c, init, isSelected, groupName, bookName, chapterKey);
      var entry := usfmChapter[|usfmChapter| - 1];
      assert (kept + [entry])[..|kept|] == kept;
    }
  }

  /**
   * `addSourceUsfm`: no verse is created or removed, and every numeric key is
   * counted once, as added or as dropped.
   */
  function WithSource(c: Chapter, usfmChapter: UsfmChapter, isSelected: seq<string> -> bool,
                      groupName: string, bookName: string, chapterKey: string): (r: Imported<Chapter>)
    ensures r.value.verses.Keys == c.verses.Keys
    ensures r.added + r.dropped == NumericCount(usfmChapter)
  {
    var p := SourceVerses(c, usfmChapter, isSelected, groupName, bookName, chapterKey);
    Imported(p.added, p.dropped, Chapter(c.verses + p.modified))
  }

  method AddSourceUsfm(c: Chapter, usfmChapter: UsfmChapter, isSelected: seq<string> -> bool,
                       groupName: string, bookName: string, chapterKey: string) returns (r: Imported<Chapter>)
    ensures r == WithSource(c, usfmChapter, isSelected, groupName, bookName, chapterKey)
  {
    var modifiedVerses: map<int, Verses.Verse> := map[];
    var totalAdded: nat := 0;
    var totalDropped: nat := 0;
    var i := 0;
    while i < |usfmChapter|
      invariant 0 <= i <= |usfmChapter|
      invariant SourcePass(modifiedVerses, totalAdded, totalDropped)
                == SourceVerses(c, usfmChapter[..i], isSelected, groupName, bookName, chapterKey)
    {
      var (verseKey, usfmVerse) := usfmChapter[i];
      if IsNumber(verseKey) {
        var n := KeyNumber(verseKey);
        if n in c.verses && isSelected([groupName, bookName, chapterKey, verseKey]) {
          modifiedVerses := modifiedVerses[n := Verses.WithSource(c.verses[n], usfmVerse)];
          totalAdded := totalAdded + 1;
        } else {
          totalDropped := totalDropped + 1;
        }
      }
      assert usfmChapter[..i + 1][..i] == usfmChapter[..i];
      i := i + 1;
    }
    assert usfmChapter[..i] == usfmChapter;
    r := Imported(totalAdded, totalDropped, Chapter(c.verses + modifiedVerses));
  }

  // ---------------------------------------------------------------- listing

  /** `getListHeaders`: a count column at chapter scope, the verse column otherwise. */
  function ListHeaders(scope: string): (h: seq<string>)
    ensures |h| == 2 && h[0] == "Chapter"
    ensures h[1] == if scope == "Chapter" then "Verses" else "Verse"
  {
    if scope == "Chapter" then ["Chapter", "Verses"] else ["Chapter"] + Verses.ListHeaders()
  }

  /** How many keys a chapter's rows carry: the chapter's own, then the verse's below chapter scope. */
  function KeySpan(scope: string): nat
  {
    if scope == "Chapter" then 1 else 2
  }

  /** `keys` names the chapter itself (empty) or one of its verses. */
  predicate Locates(c: Chapter, keys: seq<string>)
  {
    keys == [] || (|keys| == 1 && IsNumber(keys[0]) && KeyNumber(keys[0]) in c.verses)
  }

  /** How many nodes lie at `depth` counting the chapter as depth 1. */
  function NodesAt(c: Chapter, depth: nat): nat
  {
    if depth <= 1 then 1 else if depth == 2 then |c.verses| else 0
  }

  /** The verse rows for the first `n` verse numbers of `keys`, in that order. */
  function VerseRows(c: Chapter, chapterNum: int, keys: seq<int>, n: nat): (rows: seq<Row>)
    requires n <= |keys| && forall k :: k in keys ==> k in c.verses
    ensures |rows| == n
  {
    if n == 0 then []
    else
      VerseRows(c, chapterNum, keys, n - 1)
        + Prefixed(IntToString(chapterNum), Verses.ListInfo(c.verses[keys[n - 1]], keys[n - 1]))
  }

  /** The row of the `i`-th verse number carries the chapter's and that verse's numbers, as cells and as keys. */
  lemma {:induction false} VerseRowsKeys(c: Chapter, chapterNum: int, keys: seq<int>, n: nat, i: nat)
    requires n <= |keys| && forall k :: k in keys ==> k in c.verses
    requires i < n
    ensures VerseRows(c, chapterNum, keys, n)[i].keys == VerseRows(c, chapterNum, keys, n)[i].data
            == [IntToString(chapterNum), IntToString(keys[i])]
  {
    if i < n - 1 {
      VerseRowsKeys(c, chapterNum, keys, n - 1, i);
    }
  }

  /** `getListInfo`: one summary row at chapter scope, else one row per verse in ascending order. */
  function ListInfo(c: Chapter, chapterNum: int, scope: string): (rows: seq<Row>)
    ensures scope == "Chapter" ==>
      rows == [Row([IntToString(chapterNum), IntToString(|c.verses|)], [IntToString(chapterNum)])]
    ensures scope != "Chapter" ==> |rows| == |c.verses|
  {
    if scope == "Chapter" then
      [Row([IntToString(chapterNum), IntToString(|c.verses|)], [IntToString(chapterNum)])]
    else
      var keys := SortedInts(c.verses.Keys);
      VerseRows(c, chapterNum, keys, |keys|)
  }

  /**
   * Every row is as wide as the headers, its keys lead its cells and start with the
   * chapter number, and below the chapter they name an existing verse; the rows
   * count the nodes at the listed depth.
   */
  lemma ListInfoShape(c: Chapter, chapterNum: int, scope: string)
    ensures |ListInfo(c, chapterNum, scope)| == NodesAt(c, KeySpan(scope))
    ensures forall i :: 0 <= i < |ListInfo(c, chapterNum, scope)| ==>
      var r := ListInfo(c, chapterNum, scope)[i];
      |r.data| == |ListHeaders(scope)| && KeysLead(r) && |r.keys| == KeySpan(scope)
      && r.keys[0] == IntToString(chapterNum) && Locates(c, r.keys[1..])
  {
    var rows := ListInfo(c, chapterNum, scope);
    if scope != "Chapter" {
      var keys := SortedInts(c.verses.Keys);
      forall i | 0 <= i < |rows|
        ensures rows[i].keys == rows[i].data == [IntToString(chapterNum), IntToString(keys[i])]
        ensures Locates(c, [IntToString(keys[i])])
      {
        VerseRowsKeys(c, chapterNum, keys, |keys|, i);
        KeyNumberOfIntToString(keys[i]);
      }
    }
  }

  method GetListInfo(c: Chapter, chapterNum: int, scope: string) returns (result: seq<Row>)
    ensures result == ListInfo(c, chapterNum, scope)
  {
    result := [];
    if scope == "Chapter" {
      result := result + [Row([IntToString(chapterNum), IntToString(|c.verses|)], [IntToString(chapterNum)])];
    } else {
      var keys := SortedInts(c.verses.Keys);
      for i := 0 to |keys|
        invariant result == VerseRows(c, chapterNum, keys, i)
      {
        var subResults := Verses.ListInfo(c.verses[keys[i]], keys[i]);
        result := PushPrefixed(result, IntToString(chapterNum), subResults);
      }
    }
  }
}
