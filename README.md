# alignment-transferer: the resource tree

This project models the in-memory resource tree of alignment-transferer. The
tree runs group collection → group → book → chapter → verse. Three things
happen to it:

- **Target import.** Parsed USFM books are filed into one named group. Each
  book goes under its `h` header, its chapters and verses under their numeric
  keys.
- **Source import.** Parsed books are offered to every group. A book is
  matched to the group's book with the same `toc3` short name, and a verse is
  attached only when that verse already exists and the selector accepts its
  location. Every import returns how many verses were added and how many were
  dropped.
- **Listing.** The tree lists itself as rows of cells and keys at a chosen
  scope ("Group", "Book", "Chapter" or anything else for verse rows).

Every node is immutable: each operation returns a new node. So the nodes are
Dafny datatypes.

- Each `forEach` loop of the source is a `method` with a loop. Its
  postcondition ties the result to a specification function defined over the
  prefix of the input seen so far. The properties are proved about those
  functions.
- JavaScript objects keyed by names (groups, books) enumerate in insertion
  order. They are modelled by `Dict.Dict`, an order plus a map.
- Objects keyed by chapter or verse numbers enumerate in ascending order. They
  are modelled by a Dafny `map<int, _>` listed through `Dict.SortedInts`.
- The parsed USFM input is a sequence of (key, value) pairs in enumeration
  order (module `UsfmJson`).
- `parseInt` without a radix is modelled exactly (module `JsBuiltins`): the
  ECMAScript white-space set, one sign, the `0x` prefix and the longest digit
  run. NaN is `None`.
- The resource selector `isResourceSelected` is a pure function parameter.
- The collection's source import offers the files to each listed group through `GroupCollections.BaseGroup` (`this.groups[name] || new Group()`). For a listed name that is the collection's own entry, as `GroupCollections.WithSourceGroup` states.
- Lemmas named `…Snoc` unfold a loop's specification function by one step. They are loop-invariant helpers, not statements about the source.

Modules, leaves first:

- `JsBuiltins`: parseInt, `"" + n`, property keys.
- `UsfmMisc`: the `src/utils/usfm_misc.ts` helpers.
- `UsfmJson`: the input payload and its verse counts.
- `Dict`: ordered objects, spread, `Object.fromEntries`, ascending integer keys.
- `Listing`: rows and the prefixing push of `getListInfo`.
- `Verses`, `Chapters`, `Books`, `Groups`, `GroupCollections`: one module per class.

## Model

| member | source | states |
|---|---|---|
| JsBuiltins.PropertyKey | src/shared/Group.ts:46 | an undefined header is looked up under the property key "undefined", a defined one under itself |
| JsBuiltins.ParseTrimmedDefined | src/utils/usfm_misc.ts:11-13 | once white space is skipped, parseInt yields a number exactly when a decimal digit follows the optional sign, or a hexadecimal digit follows "0x"/"0X" |
| JsBuiltins.ParseIntOfIntToString | src/shared/Book.ts:76 | parseInt reads the decimal text of every integer back as that integer |
| UsfmMisc.HeaderTags | src/utils/usfm_misc.ts:1-9 | the parsed headers' tags are exactly the tags of the entries whose tag and content are both non-empty |
| UsfmMisc.HeaderLastWins | src/utils/usfm_misc.ts:2-7 | for a repeated tag, the content of the last qualifying entry is the one kept |
| UsfmMisc.IsNumberIsNotNaN | src/utils/usfm_misc.ts:11-13 | `is_number(s)` holds if and only if `parseInt(s)` is not NaN |
| UsfmMisc.KeyNumberIsParseInt | src/shared/Chapter.ts:15-16 | the number a numeric key stands for is the value parseInt reads from it |
| UsfmMisc.KeyNumberOfIntToString | src/shared/Chapter.ts:59-64 | the decimal text of an integer is a numeric key, and it names that integer |
| UsfmMisc.OnlyNumbers | src/utils/usfm_misc.ts:15-20 | the reduce returns the numeric elements of its input, in order |
| UsfmMisc.NumbersInKeepsExactlyNumbers | src/utils/usfm_misc.ts:15-20 | the filtered list is a subsequence of the input, holds only numeric strings, and keeps every numeric string as often as the input has it |
| UsfmMisc.NumbersInIdempotent | src/utils/usfm_misc.ts:15-20 | filtering twice gives what filtering once gives |
| UsfmJson.NumericKeysHas | src/shared/Chapter.ts:14-19 | every numeric key of an incoming object contributes its number |
| UsfmJson.LastNumbered | src/shared/Chapter.ts:14-19 | a value is found for a number exactly when some key of the object reads as that number |
| UsfmJson.LastNumberedIsLast | src/shared/Chapter.ts:14-19 | the value found is that of the entry whose key reads as the number and that no later such key follows |
| Dict.Put | src/shared/Group.ts:25 | assigning a property sets its value; a new key goes last and an existing key keeps its place |
| Dict.Spread | src/shared/Group.ts:28 | object spread: the right-hand entries win, the left-hand keys keep their places, and new keys follow in right-hand order |
| Dict.SpreadKeepsOrder | src/shared/Group.ts:69 | spreading entries whose keys all exist already leaves the order unchanged |
| Dict.FromEntriesOrder | src/shared/GroupCollection.ts:38-43 | `Object.fromEntries` over distinct keys enumerates them in the order they were listed |
| Dict.FromEntriesEntry | src/shared/GroupCollection.ts:38-43 | `Object.fromEntries` over distinct keys files every value under its own key |
| Dict.SortedInts | src/shared/Book.ts:75 | integer keys enumerate in strictly ascending order, each key exactly once |
| Listing.PushPrefixed | src/shared/Group.ts:86-91 | the inner loop appends every sub-row, with the name put in front of both its cells and its keys |
| Listing.PrefixKeepsKeysLead | src/shared/Group.ts:87-90 | prefixing a row whose keys lead its cells keeps the keys leading |
| Verses.Clone | src/shared/Verse.ts:11-13 | a clone is indistinguishable from the verse cloned |
| Verses.WithTarget | src/shared/Verse.ts:16-23 | target import yields a clone; the payload is not kept |
| Verses.WithSource | src/shared/Verse.ts:25-31 | source import yields a clone; the payload is not kept |
| Verses.ListHeaders | src/shared/Verse.ts:33-35 | a verse row has the single column "Verse" |
| Verses.ListInfoReadsBack | src/shared/Verse.ts:36-38 | the one verse row's key is numeric and reads back as the verse number |
| Chapters.NewChapter | src/shared/Chapter.ts:7-9 | a new chapter has no verses |
| Chapters.TargetVerses | src/shared/Chapter.ts:14-20 | the target loop produces one verse per number read from a numeric key |
| Chapters.WithTarget | src/shared/Chapter.ts:11-23 | afterwards the verse numbers are the old ones plus those read from numeric keys, and verses the input does not name are kept |
| Chapters.AddTargetUsfm | src/shared/Chapter.ts:11-23 | the loop computes the target import |
| Chapters.WithTargetIdempotent | src/shared/Chapter.ts:11-23 | importing the same target chapter twice gives what importing it once gives |
| Chapters.SourceVerses | src/shared/Chapter.ts:29-41 | the source loop changes only existing verses, and each numeric key counts once, as added or as dropped |
| Chapters.AcceptedEntries | src/shared/Chapter.ts:33 | every entry kept has a numeric key whose verse exists and whose location the selector accepts, and every incoming entry that does is kept |
| Chapters.SourceVersesAccepted | src/shared/Chapter.ts:29-41 | the modified verses are exactly the accepted ones, and the added count is the number of accepted entries |
| Chapters.WithSource | src/shared/Chapter.ts:24-48 | source import keeps the verse numbers, and added plus dropped is the number of numeric keys |
| Chapters.AddSourceUsfm | src/shared/Chapter.ts:24-48 | the loop computes the source import and its two counters |
| Chapters.ListHeaders | src/shared/Chapter.ts:50-53 | "Chapter" and then a count column at chapter scope, or the verse column otherwise |
| Chapters.VerseRowsKeys | src/shared/Chapter.ts:63-70 | each verse row carries the chapter number and that verse's number, as cells and as keys |
| Chapters.ListInfo | src/shared/Chapter.ts:55-73 | at chapter scope, one row of the chapter number and verse count; otherwise one row per verse |
| Chapters.ListInfoShape | src/shared/Chapter.ts:55-73 | every row is as wide as the headers, and its keys lead its cells, start with the chapter number and name an existing verse; the rows count the nodes at that depth |
| Chapters.GetListInfo | src/shared/Chapter.ts:55-73 | the loop lists the rows in ascending verse order |
| Books.NewBook | src/shared/Book.ts:10-14 | an absent chapter object becomes empty, and an absent file name or short name becomes "" |
| Books.TargetChapters | src/shared/Book.ts:25-31 | the target loop produces one chapter per number read from a numeric key |
| Books.TargetChaptersLastWins | src/shared/Book.ts:25-31 | when several keys read as the same number, the last of them decides that chapter |
| Books.WithTarget | src/shared/Book.ts:22-34 | the chapter numbers grow by the numeric keys, chapters not named are kept, and the file name and short name are replaced |
| Books.AddTargetUsfm | src/shared/Book.ts:22-34 | the loop computes the target import |
| Books.WithTargetIdempotent | src/shared/Book.ts:22-34 | importing the same target book twice gives what importing it once gives |
| Books.SourceChapters | src/shared/Book.ts:44-53 | the source loop modifies the chapters named by numeric keys, and counts every numeric verse of a numeric chapter once |
| Books.SourceChaptersKeepVerses | src/shared/Book.ts:44-53 | a chapter the loop replaces keeps the verse numbers it had |
| Books.WithSource | src/shared/Book.ts:36-60 | file name and short name are kept, chapters grow by the numeric keys, each chapter keeps its verse numbers, chapters not named are unchanged, and added plus dropped is the incoming verse count |
| Books.SourceAddsEmptyChapters | src/shared/Book.ts:47-51 | a numeric chapter the book lacked is added, and it is empty |
| Books.AddSourceUsfm | src/shared/Book.ts:36-60 | the loop computes the source import and its two counters |
| Books.ListHeaders | src/shared/Book.ts:62-65 | "Book" and then a count column at book scope, or "Book" followed by the chapter headers otherwise |
| Books.ListInfo | src/shared/Book.ts:67-85 | at book scope, one row of the book name and chapter count |
| Books.PrefixedRowFits | src/shared/Book.ts:75-82 | a chapter row prefixed with the book name fits the book's headers |
| Books.ChapterBlockFits | src/shared/Book.ts:75-82 | one chapter's prefixed rows fit the book's headers, and there is one per node below that chapter |
| Books.ChapterRowsFit | src/shared/Book.ts:75-82 | all chapters' rows fit the book's headers, and they count the nodes below |
| Books.ListInfoShape | src/shared/Book.ts:67-85 | the rows count the nodes at the listed depth, and each fits the headers and locates an existing chapter |
| Books.GetListInfo | src/shared/Book.ts:67-85 | the loops list the rows in ascending chapter order |
| Groups.NewGroup | src/shared/Group.ts:7-9 | an absent book object becomes empty |
| Groups.HasBook | src/shared/Group.ts:11-13 | true exactly when a book is filed under the name |
| Groups.LastNamed | src/shared/Group.ts:22-26 | a file is found for a name exactly when some incoming book's `h` header is that name; it is one of the incoming files, carries that header, and no later file carries it |
| Groups.TargetBooks | src/shared/Group.ts:22-26 | the target loop produces one book per incoming `h` header |
| Groups.TargetBooksLastWins | src/shared/Group.ts:22-26 | a book named by several files takes the last file's name, short name and chapters |
| Groups.WithTarget | src/shared/Group.ts:19-29 | the book names grow by the incoming headers, old names keep their places, and books not named are kept |
| Groups.AddTargetUsfm | src/shared/Group.ts:19-29 | the loop computes the target import |
| Groups.TargetBooksAgain | src/shared/Group.ts:22-26 | the target loop run over its own result with the same files files the same books |
| Groups.WithTargetIdempotent | src/shared/Group.ts:19-29 | importing the same target files twice gives what importing them once gives |
| Groups.WithTargetHasBooks | src/shared/Group.ts:11-29 | after a target import, every incoming book is found under its `h` header |
| Groups.BookNamesHas | src/shared/Group.ts:23-25 | every incoming file's `h` header is among the names filed |
| Groups.Toc3FoldSound | src/shared/Group.ts:35-37 | the rehash holds, under each short name, a book of that short name with the name it is filed under |
| Groups.Toc3FoldComplete | src/shared/Group.ts:35-37 | every book's short name is a key of the rehash |
| Groups.Toc3FoldShadowed | src/shared/Group.ts:35-37 | among books sharing a short name, an earlier one is not the one the rehash keeps |
| Groups.SourceStep | src/shared/Group.ts:44-65 | one file adds its matched book's name to the modified books, or else changes none of them, and the counters grow by that file's numeric verse count |
| Groups.SourceBooks | src/shared/Group.ts:43-66 | the source loop modifies exactly the matched books, and counts every incoming numeric verse once |
| Groups.MatchedNamesAreBooks | src/shared/Group.ts:46-51 | only books the group has are matched |
| Groups.WithSource | src/shared/Group.ts:31-70 | book names and their order are kept, unmatched books are unchanged, and added plus dropped is the incoming verse count |
| Groups.LastMatched | src/shared/Group.ts:43-51 | a file is found for a book exactly when some incoming file is matched to that book |
| Groups.LastMatchedIsLast | src/shared/Group.ts:43-51 | the file found is the one matched to the book that no later matched file follows |
| Groups.SourceBooksMatched | src/shared/Group.ts:46-51 | the loop leaves under a matched name the group's own book with the last file matched to it imported |
| Groups.WithSourceMatched | src/shared/Group.ts:46-69 | a matched book comes out as its own source import, fed the last incoming file whose `toc3` finds it |
| Groups.WithSourceKeepsBook | src/shared/Group.ts:31-70 | every book keeps its file name, its short name and its chapters, and every chapter has the verse numbers it had |
| Groups.ShadowedBookUnchanged | src/shared/Group.ts:35-51 | a book followed by another with the same short name never receives source text |
| Groups.ShadowedNotMatched | src/shared/Group.ts:46-47 | a name the rehash does not keep is never matched |
| Groups.UnmatchedFilesChangeNothing | src/shared/Group.ts:43-69 | when no file's `toc3` matches, the group is unchanged, nothing is added, and every incoming numeric verse is dropped |
| Groups.NothingMatched | src/shared/Group.ts:43-66 | when no file's `toc3` is in the rehash, the loop modifies nothing and only drops |
| Groups.CountUnmatchedVerses | src/shared/Group.ts:53-64 | the nested loop counts the numeric verses of the numeric chapters |
| Groups.AddSourceUsfm | src/shared/Group.ts:31-70 | the loop computes the source import and its two counters |
| Groups.ListHeaders | src/shared/Group.ts:72-75 | "Group" and then a count column at group scope, or "Group" followed by the book headers otherwise; 2, 3 or 4 columns |
| Groups.ListInfo | src/shared/Group.ts:77-95 | at group scope, one row of the group name and book count |
| Groups.BookBlockFits | src/shared/Group.ts:85-92 | one book's prefixed rows fit the group's headers, and there is one per node below that book |
| Groups.BookRowsFit | src/shared/Group.ts:85-92 | all books' rows fit the group's headers, and they count the nodes below |
| Groups.ListInfoShape | src/shared/Group.ts:77-95 | the rows count the nodes at the listed depth, and each fits the headers and locates an existing book |
| Groups.GetListInfo | src/shared/Group.ts:77-95 | the loops list the rows in the group's book order |
| GroupCollections.NewGroupCollection | src/shared/GroupCollection.ts:7-9 | an absent group object becomes empty |
| GroupCollections.HasBookInGroup | src/shared/GroupCollection.ts:12-16 | false for an unknown group; otherwise whether that group files a book under the incoming `h` header |
| GroupCollections.WithTarget | src/shared/GroupCollection.ts:22-27 | the named group is created if missing and gets the import, its place is kept or appended, and every other group is unchanged |
| GroupCollections.WithTargetHasBookInGroup | src/shared/GroupCollection.ts:12-27 | after a target import, every incoming book is found in the group it was imported into |
| GroupCollections.WithTargetIdempotent | src/shared/GroupCollection.ts:22-27 | importing the same target files into the same group twice gives what importing them once gives |
| GroupCollections.SourceEntriesKeys | src/shared/GroupCollection.ts:38-43 | the mapped entries keep the group names in order |
| GroupCollections.TotalsCount | src/shared/GroupCollection.ts:36-43 | when every group counts the same verses, the totals are that count per group |
| GroupCollections.WithSourceShape | src/shared/GroupCollection.ts:35-47 | group names and their order are kept, and added plus dropped is the number of groups times the incoming verse count |
| GroupCollections.WithSourceOrder | src/shared/GroupCollection.ts:38-46 | the group names and their order are kept |
| GroupCollections.WithSourceCount | src/shared/GroupCollection.ts:36-45 | added plus dropped is the number of groups times the incoming verse count |
| GroupCollections.WithSourceGroup | src/shared/GroupCollection.ts:38-43 | every group comes out as that group's own source import under its name |
| GroupCollections.WithSourceKeepsBooks | src/shared/GroupCollection.ts:35-47 | in every group, each book keeps its file name, its short name and its chapters, and every chapter has the verse numbers it had |
| GroupCollections.AddSourceUsfm | src/shared/GroupCollection.ts:35-47 | the loop computes the source import and the summed counters |
| GroupCollections.ListHeaders | src/shared/GroupCollection.ts:49-51 | the group headers: 2, 3 or 4 columns by scope |
| GroupCollections.GroupBlockFits | src/shared/GroupCollection.ts:55 | one group's rows fit the headers, their keys start with that group's name, and there is one per node of the group |
| GroupCollections.GroupRowsFit | src/shared/GroupCollection.ts:55 | all groups' rows fit the headers, and they count the nodes below |
| GroupCollections.ListInfoShape | src/shared/GroupCollection.ts:53-57 | the rows count the nodes at the listed depth, and each fits the headers and locates an existing node |
| GroupCollections.GetListInfo | src/shared/GroupCollection.ts:53-57 | the loop lists every group's rows in the collection's order |

## Left out

- The verse class has no fields. The `VerseState` enum (src/shared/Verse.ts:1-6) is never used, so the model has no verse state, and every verse contract is about an indistinguishable value.
- Object identity is not modelled. A clone, or a node rebuilt with the same contents, equals the original.
- Names inherited from `Object.prototype`, such as "constructor" or "toString", are not modelled. The model's `Dict` treats them like any other absent name and builds a fresh node. The source does not. `in` sees them, and a lookup returns the inherited function. So:
  - `hasBook` answers true for such a name.
  - `this.books[h] || new Book()` (src/shared/Group.ts:24), the `toc3_books` lookup (src/shared/Group.ts:46-47) and `hasBookInGroup` (src/shared/GroupCollection.ts:13-15) call a method that does not exist, or destructure a function, and throw a TypeError.
- Group and book names that look like array indices are not modelled. JavaScript enumerates such names before other keys and in numeric order, but the model keeps every name in insertion order.
- Chapter and verse numbers are unbounded integers listed in ascending order. JavaScript lists only array-index keys that way, so negative or very large numbers would enumerate differently.
- JsBuiltins.ParseInt: results are exact integers. The model ignores the loss of precision beyond 2^53 and reads "-0" as 0.
- JsBuiltins.IntToString: the decimal text ignores the exponent form JavaScript prints for very large numbers.
- A header entry with a missing tag or content is modelled as an empty string. Both are falsy, so the parser skips them the same way.
- The counters double count dropped verses across groups. The source notes this with a TODO at src/shared/Book.ts:41-42: every group counts every incoming verse by itself. The model keeps that behaviour, and GroupCollections.WithSourceShape states it as the number of groups times the incoming verse count.
- `isResourceSelected` is a pure function parameter. Any side effect of the caller's selector is not modelled.
- The USFM codec, the React components and pages, the web workers and the training code are not part of this model.
