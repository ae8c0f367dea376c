/**
 * The parsed USFM the tree consumes, as the external codec produces it. Every
 * JavaScript object of it is a sequence of (key, value) pairs in enumeration
 * order; chapter and verse keys are strings, some of them not numeric.
 */
module UsfmJson {
  import opened JsBuiltins
  import opened UsfmMisc

  /** A verse payload; the tree never looks inside it. */
  datatype UsfmVerse = UsfmVerse(verseObjects: seq<string>)

  type UsfmChapter = seq<(string, UsfmVerse)>

  datatype UsfmBook = UsfmBook(headers: seq<HeaderEntry>, chapters: seq<(string, UsfmChapter)>)

  /** The import payload: file name to parsed book. */
  type UsfmFiles = seq<(string, UsfmBook)>

  /** What a source import returns at every level: the counters and the new node. */
  datatype Imported<N> = Imported(added: nat, dropped: nat, value: N)

  /** The integers `parseInt` reads from the numeric keys of `entries`. */
  function NumericKeys<X>(entries: seq<(string, X)>): set<int>
  {
    if entries == [] then {}
    else
      var init := NumericKeys(entries[..|entries| - 1]);
      var key := entries[|entries| - 1].0;
      if IsNumber(key) then init + {KeyNumber(key)} else init
  }

  /** Each numeric key contributes its number. */
  lemma {:induction false} NumericKeysHas<X>(entries: seq<(string, X)>, i: nat)
    requires i < |entries| && IsNumber(entries[i].0)
    ensures KeyNumber(entries[i].0) in NumericKeys(entries)
  {
    if i < |entries| - 1 {
      NumericKeysHas(entries[..|entries| - 1], i);
    }
  }

  /** How many keys of `entries` are numeric. */
  function NumericCount<X>(entries: seq<(string, X)>): nat
  {
    if entries == [] then 0
    else NumericCount(entries[..|entries| - 1]) + if IsNumber(entries[|entries| - 1].0) then 1 else 0
  }

  /** The value of the last entry whose key reads as `n`; a later such key overwrites an earlier one. */
  function LastNumbered<X>(entries: seq<(string, X)>, n: int): (v: Option<X>)
    ensures v.Some? <==> n in NumericKeys(entries)
  {
    if entries == [] then None
    else
      var (key, value) := entries[|entries| - 1];
      if IsNumber(key) && KeyNumber(key) == n then Some(value)
      else LastNumbered(entries[..|entries| - 1], n)
  }

  /** The value found for `n` is that of the entry no later key reading as `n` follows. */
  lemma {:induction false} LastNumberedIsLast<X>(entries: seq<(string, X)>, n: int, j: nat)
    requires j < |entries| && IsNumber(entries[j].0) && KeyNumber(entries[j].0) == n
    requires forall k :: j < k < |entries| ==> !(IsNumber(entries[k].0) && KeyNumber(entries[k].0) == n)
    ensures LastNumbered(entries, n) == Some(entries[j].1)
  {
    var last := |entries| - 1;
    if j < last {
      assert !(IsNumber(entries[last].0) && KeyNumber(entries[last].0) == n);
      LastNumberedIsLast(entries[..last], n, j);
    }
  }

  /** Numeric verse keys summed over the numeric chapter keys. */
  function VerseCount(chapters: seq<(string, UsfmChapter)>): nat
  {
    if chapters == [] then 0
    else
      var (key, chapter) := chapters[|chapters| - 1];
      VerseCount(chapters[..|chapters| - 1]) + if IsNumber(key) then NumericCount(chapter) else 0
  }

  /** Numeric verses in numeric chapters, summed over every incoming book. */
  function FilesVerseCount(files: UsfmFiles): nat
  {
    if files == [] then 0
    else FilesVerseCount(files[..|files| - 1]) + VerseCount(files[|files| - 1].1.chapters)
  }
}
