/**
 * The leaf of the tree. The verse class has no fields yet: importing target or
 * source text into it produces a fresh verse that keeps nothing of the payload,
 * so every verse is the same value.
 */
module Verses {
  import opened JsBuiltins
  import opened UsfmMisc
  import opened UsfmJson
  import opened Listing

  datatype Verse = Verse

  /** `clone`: a fresh verse, indistinguishable from the receiver. */
  function Clone(v: Verse): (r: Verse)
    ensures r == v
  {
    Verse
  }

  /** `addTargetUsfm`: a fresh verse; the payload is not kept. */
  function WithTarget(v: Verse, usfmVerse: UsfmVerse): (r: Verse)
    ensures r == Clone(v)
  {
    Clone(v)
  }

  /** `addSourceUsfm`: a fresh verse; the payload is not kept. */
  function WithSource(v: Verse, usfmVerse: UsfmVerse): (r: Verse)
    ensures r == Clone(v)
  {
    Clone(v)
  }

  /** `getListHeaders`: the one column of a verse row. */
  function ListHeaders(): (h: seq<string>)
    ensures h == ["Verse"]
  {
    ["Verse"]
  }

  /** `getListInfo`: one row whose cells and keys are the verse number's text. */
  function ListInfo(v: Verse, verseNum: int): (rows: seq<Row>)
    ensures |rows| == 1 && rows[0].keys == rows[0].data && |rows[0].keys| == 1
    ensures rows[0].keys[0] == IntToString(verseNum)
  {
    [Row([IntToString(verseNum)], [IntToString(verseNum)])]
  }

  /** The key of a verse row reads back, through `parseInt`, as the verse number. */
  lemma ListInfoReadsBack(v: Verse, verseNum: int)
    ensures IsNumber(ListInfo(v, verseNum)[0].keys[0]) && KeyNumber(ListInfo(v, verseNum)[0].keys[0]) == verseNum
  {
    KeyNumberOfIntToString(verseNum);
  }
}
