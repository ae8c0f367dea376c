/**
 * The root of the tree: groups keyed by name. Target text is imported into one
 * named group; source text is offered to every group.
 */
module GroupCollections {
  import opened JsBuiltins
  import opened UsfmJson
  import opened Dict
  import opened Listing
  import Groups
  import Books

  datatype GroupCollection = GroupCollection(groups: Dict<Groups.Group>)

  /** The constructor: an absent group object is empty. */
  function NewGroupCollection(groups: Option<Dict<Groups.Group>>): (gc: GroupCollection)
    ensures groups.None? ==> gc.groups.order == [] && gc.groups.entries == map[]
    ensures groups.Some? ==> gc.groups == groups.value
  {
    GroupCollection(if groups.Some? then groups.value else Empty())
  }

  /**
   * `hasBookInGroup`: false for a group name the collection lacks; otherwise
   * whether that group files a book under the incoming book's `h` header.
   */
  function HasBookInGroup(gc: GroupCollection, groupName: string, usfmBook: UsfmBook): (r: bool)
    ensures groupName !in gc.groups.entries ==> !r
    ensures groupName in gc.groups.entries ==>
      (r <==> Groups.HasBook(gc.groups.entries[groupName], Groups.BookName(usfmBook)))
  {
    if groupName !in gc.groups.entries then false
    else Groups.HasBook(gc.groups.entries[groupName], Groups.BookName(usfmBook))
  }

  /** `this.groups[name] || new Group()`. */
  function BaseGroup(gc: GroupCollection, name: string): Groups.Group
  {
    if name in gc.groups.entries then gc.groups.entries[name] else Groups.NewGroup(None)
  }

  // ---------------------------------------------------------------- target text

  /**
   * `addTargetUsfm`: the group names afterwards are the old ones and `groupName`
   * (added at the end when new), the named group is the old one (or a new one)
   * with the files imported, and every other group is kept.
   */
  function WithTarget(gc: GroupCollection, groupName: string, files: UsfmFiles): (r: GroupCollection)
    ensures r.groups.entries.Keys == gc.groups.entries.Keys + {groupName}
    ensures r.groups.order == if groupName in gc.groups.entries then gc.groups.order else gc.groups.order + [groupName]
    ensures r.groups.entries[groupName] == Groups.WithTarget(BaseGroup(gc, groupName), files)
    ensures forall name :: name in gc.groups.entries && name != groupName ==>
      r.groups.entries[name] == gc.groups.entries[name]
  {
    var newGroup := Groups.WithTarget(BaseGroup(gc, groupName), files);
    NewGroupCollection(Some(Put(gc.groups, groupName, newGroup)))
  }

  /** After a target import, every incoming book is found in the group it was imported into. */
  lemma WithTargetHasBookInGroup(gc: GroupCollection, groupName: string, files: UsfmFiles, i: nat)
    requires i < |files|
    ensures HasBookInGroup(WithTarget(gc, groupName, files), groupName, files[i].1)
  {
    Groups.WithTargetHasBooks(BaseGroup(gc, groupName), files, i);
  }

  /** Importing the same target files into the same group twice gives what importing them once gives. */
  lemma WithTargetIdempotent(gc: GroupCollection, groupName: string, files: UsfmFiles)
    ensures WithTarget(WithTarget(gc, groupName, files), groupName, files) == WithTarget(gc, groupName, files)
  {
    var gc1 := WithTarget(gc, groupName, files);
    Groups.WithTargetIdempotent(BaseGroup(gc, groupName), files);
    PutSame(gc1.groups, groupName);
  }

  // ---------------------------------------------------------------- source text

  /** Each named group with the files offered to it. */
  function GroupImports(gc: GroupCollection, names: seq<string>, files: UsfmFiles,
                        isSelected: seq<string> -> bool): (imports: seq<Imported<Groups.Group>>)
    ensures |imports| == |names|
  {
    seq(|names|, i requires 0 <= i < |names| =>
      Groups.WithSource(BaseGroup(gc, names[i]), files, isSelected, names[i]))
  }

  /** The entries the source `map` returns: each name with its group's import. */
  function SourceEntries(names: seq<string>, imports: seq<Imported<Groups.Group>>): (pairs: seq<(string, Groups.Group)>)
    requires |imports| == |names|
  {
    seq(|names|, i requires 0 <= i < |names| => (names[i], imports[i].value))
  }

  /** Loop helper: the mapped entries unfolded by one group. */
  lemma SourceEntriesSnoc(names: seq<string>, imports: seq<Imported<Groups.Group>>, i: nat)
    requires |imports| == |names| && i < |names|
    ensures SourceEntries(names[..i + 1], imports[..i + 1]) == SourceEntries(names[..i], imports[..i]) + [(names[i], imports[i].value)]
  {
    assert SourceEntries(names[..i + 1], imports[..i + 1]) == SourceEntries(names[..i], imports[..i]) + [(names[i], imports[i].value)];
  }

  lemma SourceEntriesKeys(names: seq<string>, imports: seq<Imported<Groups.Group>>)
    requires |imports| == |names|
    ensures KeysOf(SourceEntries(names, imports)) == names
  {
    assert KeysOf(SourceEntries(names, imports)) == names;
  }

  /** The sum of the verses the imports added. */
  function AddedTotal(imports: seq<Imported<Groups.Group>>): nat
  {
    if imports == [] then 0 else AddedTotal(imports[..|imports| - 1]) + imports[|imports| - 1].added
  }

  /** The sum of the verses the imports dropped. */
  function DroppedTotal(imports: seq<Imported<Groups.Group>>): nat
  {
    if imports == [] then 0 else DroppedTotal(imports[..|imports| - 1]) + imports[|imports| - 1].dropped
  }

  /** Loop helper: the totals unfolded by one group. */
  lemma TotalsSnoc(imports: seq<Imported<Groups.Group>>, i: nat)
    requires i < |imports|
    ensures AddedTotal(imports[..i + 1]) == AddedTotal(imports[..i]) + imports[i].added
    ensures DroppedTotal(imports[..i + 1]) == DroppedTotal(imports[..i]) + imports[i].dropped
  {
    assert imports[..i + 1][..i] == imports[..i];
  }

  /** When every import counts `c` verses, the totals count `c` per import. */
  lemma {:induction false} TotalsCount(imports: seq<Imported<Groups.Group>>, c: nat)
    requires forall i :: 0 <= i < |imports| ==> imports[i].added + imports[i].dropped == c
    ensures AddedTotal(imports) + DroppedTotal(imports) == |imports| * c
  {
    if imports != [] {
      var n := |imports| - 1;
      TotalsCount(imports[..n], c);
      assert imports[n].added + imports[n].dropped == c;
      assert n * c + c == |imports| * c;
    }
  }

  /** `addSourceUsfm`: every group is offered the files, and the counts are summed. */
  function WithSource(gc: GroupCollection, files: UsfmFiles, isSelected: seq<string> -> bool): Imported<GroupCollection>
  {
    var imports := GroupImports(gc, gc.groups.order, files, isSelected);
    Imported(AddedTotal(imports), DroppedTotal(imports),
             NewGroupCollection(Some(FromEntries(SourceEntries(gc.groups.order, imports)))))
  }

  /**
   * The group names and their order are kept, and since each group counts every
   * incoming verse by itself, added and dropped together are the number of
   * groups times the numeric verses of the numeric chapters.
   */
  lemma WithSourceShape(gc: GroupCollection, files: UsfmFiles, isSelected: seq<string> -> bool)
    ensures WithSource(gc, files, isSelected).value.groups.order == gc.groups.order
    ensures WithSource(gc, files, isSelected).value.groups.entries.Keys == gc.groups.entries.Keys
    ensures WithSource(gc, files, isSelected).added + WithSource(gc, files, isSelected).dropped
            == |gc.groups.order| * FilesVerseCount(files)
  {
    WithSourceOrder(gc, files, isSelected);
    WithSourceCount(gc, files, isSelected);
  }

  lemma WithSourceOrder(gc: GroupCollection, files: UsfmFiles, isSelected: seq<string> -> bool)
    ensures WithSource(gc, files, isSelected).value.groups.order == gc.groups.order
    ensures WithSource(gc, files, isSelected).value.groups.entries.Keys == gc.groups.entries.Keys
  {
    Members(gc.groups);
    var imports := GroupImports(gc, gc.groups.order, files, isSelected);
    SourceEntriesKeys(gc.groups.order, imports);
    FromEntriesOrder(SourceEntries(gc.groups.order, imports));
    Members(WithSource(gc, files, isSelected).value.groups);
  }

  lemma WithSourceCount(gc: GroupCollection, files: UsfmFiles, isSelected: seq<string> -> bool)
    ensures WithSource(gc, files, isSelected).added + WithSource(gc, files, isSelected).dropped
            == |gc.groups.order| * FilesVerseCount(files)
  {
    var imports := GroupImports(gc, gc.groups.order, files, isSelected);
    TotalsCount(imports, FilesVerseCount(files));
  }

  /** Every group comes out as that group's own source import. */
  lemma WithSourceGroup(gc: GroupCollection, files: UsfmFiles, isSelected: seq<string> -> bool, name: string)
    requires name in gc.groups.entries
    ensures name in WithSource(gc, files, isSelected).value.groups.entries
    ensures WithSource(gc, files, isSelected).value.groups.entries[name]
            == Groups.WithSource(gc.groups.entries[name], files, isSelected, name).value
  {
    Members(gc.groups);
    var j := IndexOf(gc.groups.order, name);
    SourceEntriesKeys(gc.groups.order, GroupImports(gc, gc.groups.order, files, isSelected));
    FromEntriesEntry(SourceEntries(gc.groups.order, GroupImports(gc, gc.groups.order, files, isSelected)), j);
  }

  /**
   * Across every group, each book keeps its file name, its short name and its
   * chapters, and every chapter has the verse numbers it had.
   */
  lemma WithSourceKeepsBooks(gc: GroupCollection, files: UsfmFiles, isSelected: seq<string> -> bool,
                             groupName: string, name: string)
    requires groupName in gc.groups.entries && name in gc.groups.entries[groupName].books.entries
    ensures groupName in WithSource(gc, files, isSelected).value.groups.entries
    ensures name in WithSource(gc, files, isSelected).value.groups.entries[groupName].books.entries
    ensures var b := gc.groups.entries[groupName].books.entries[name];
            var r := WithSource(gc, files, isSelected).value.groups.entries[groupName].books.entries[name];
            r.filename == b.filename && r.toc3Name == b.toc3Name && b.chapters.Keys <= r.chapters.Keys
            && forall n :: n in r.chapters ==> r.chapters[n].verses.Keys == Books.BaseChapter(b, n).verses.Keys
  {
    WithSourceGroup(gc, files, isSelected, groupName);
    Groups.WithSourceKeepsBook(gc.groups.entries[groupName], files, isSelected, groupName, name);
  }

  method AddSourceUsfm(gc: GroupCollection, files: UsfmFiles, isSelected: seq<string> -> bool)
    returns (r: Imported<GroupCollection>)
    ensures r == WithSource(gc, files, isSelected)
  {
    var names := gc.groups.order;
    ghost var imports := GroupImports(gc, names, files, isSelected);
    var pairs: seq<(string, Groups.Group)> := [];
    var totalAdded := 0;
    var totalDropped := 0;
    for i := 0 to |names|
      invariant pairs == SourceEntries(names[..i], imports[..i])
      invariant totalAdded == AddedTotal(imports[..i]) && totalDropped == DroppedTotal(imports[..i])
    {
      var groupName := names[i];
      // every listed name is a key, so the base group is the group filed under it
      var imported := Groups.AddSourceUsfm(BaseGroup(gc, groupName), files, isSelected, groupName);
      TotalsSnoc(imports, i);
      SourceEntriesSnoc(names, imports, i);
      totalAdded := totalAdded + imported.added;
      totalDropped := totalDropped + imported.dropped;
      pairs := pairs + [(groupName, imported.value)];
    }
    assert names[..|names|] == names && imports[..|names|] == imports;
    r := Imported(totalAdded, totalDropped, NewGroupCollection(Some(FromEntries(pairs))));
  }

  // ---------------------------------------------------------------- listing

  /** `getListHeaders`: the group's headers. */
  function ListHeaders(scope: string): (h: seq<string>)
    ensures h == Groups.ListHeaders(scope)
    ensures |h| == if scope == "Group" then 2 else if scope == "Book" then 3 else 4
  {
    Groups.ListHeaders(scope)
  }

  /** `keys` names an existing group followed by a selector within it. */
  predicate Locates(gc: GroupCollection, keys: seq<string>)
  {
    keys != [] && keys[0] in gc.groups.entries && Groups.Locates(gc.groups.entries[keys[0]], keys[1..])
  }

  /** How many nodes the groups named `names` hold at `depth`, a group being depth 1. */
  function GroupNodes(gc: GroupCollection, names: seq<string>, depth: nat): nat
    requires forall k :: k in names ==> k in gc.groups.entries
  {
    if names == [] then 0
    else
      var name := names[|names| - 1];
      assert name in names;
      GroupNodes(gc, names[..|names| - 1], depth) + Groups.NodesAt(gc.groups.entries[name], depth)
  }

  /** How many nodes of the collection lie at `depth`, the groups being depth 1. */
  function NodesAt(gc: GroupCollection, depth: nat): nat
  {
    Members(gc.groups);
    GroupNodes(gc, gc.groups.order, depth)
  }

  /** The rows of the groups named `names`, in that order. */
  function GroupRows(gc: GroupCollection, names: seq<string>, scope: string): (rows: seq<Row>)
    requires forall k :: k in names ==> k in gc.groups.entries
  {
    if names == [] then []
    else
      var name := names[|names| - 1];
      assert name in names;
      GroupRows(gc, names[..|names| - 1], scope) + Groups.ListInfo(gc.groups.entries[name], name, scope)
  }

  /** `getListInfo`: every group's rows, in the collection's order. */
  function ListInfo(gc: GroupCollection, scope: string): (rows: seq<Row>)
  {
    Members(gc.groups);
    GroupRows(gc, gc.groups.order, scope)
  }

  /** The shape of a collection row. */
  predicate RowFits(gc: GroupCollection, scope: string, r: Row)
  {
    |r.data| == |ListHeaders(scope)| && KeysLead(r) && |r.keys| == Groups.KeySpan(scope) && Locates(gc, r.keys)
  }

  /** The rows of one group fit the headers and start with that group's name. */
  lemma GroupBlockFits(gc: GroupCollection, name: string, scope: string)
    requires name in gc.groups.entries
    ensures |Groups.ListInfo(gc.groups.entries[name], name, scope)| == Groups.NodesAt(gc.groups.entries[name], Groups.KeySpan(scope))
    ensures forall i :: 0 <= i < |Groups.ListInfo(gc.groups.entries[name], name, scope)| ==>
      RowFits(gc, scope, Groups.ListInfo(gc.groups.entries[name], name, scope)[i])
      && Groups.ListInfo(gc.groups.entries[name], name, scope)[i].keys[0] == name
  {
    var g := gc.groups.entries[name];
    var rows := Groups.ListInfo(g, name, scope);
    Groups.ListInfoShape(g, name, scope);
    forall i | 0 <= i < |rows|
      ensures RowFits(gc, scope, rows[i]) && rows[i].keys[0] == name
    {
      assert Groups.RowFits(g, name, scope, rows[i]);
    }
  }

  lemma {:induction false} GroupRowsFit(gc: GroupCollection, names: seq<string>, scope: string)
    requires forall k :: k in names ==> k in gc.groups.entries
    ensures |GroupRows(gc, names, scope)| == GroupNodes(gc, names, Groups.KeySpan(scope))
    ensures forall i :: 0 <= i < |GroupRows(gc, names, scope)| ==> RowFits(gc, scope, GroupRows(gc, names, scope)[i])
  {
    if names != [] {
      GroupRowsFit(gc, names[..|names| - 1], scope);
      GroupBlockFits(gc, names[|names| - 1], scope);
    }
  }

  /**
   * Every row is as wide as the headers, its keys lead its cells, there are as
   * many keys as levels down to the listed scope, and they name an existing
   * group and a node within it; there is one row per node at the listed depth.
   */
  lemma ListInfoShape(gc: GroupCollection, scope: string)
    ensures |ListInfo(gc, scope)| == NodesAt(gc, Groups.KeySpan(scope))
    ensures forall i :: 0 <= i < |ListInfo(gc, scope)| ==> RowFits(gc, scope, ListInfo(gc, scope)[i])
  {
    Members(gc.groups);
    GroupRowsFit(gc, gc.groups.order, scope);
  }

  /** Loop helper: the listing's specification unfolded by one group name. */
  lemma GroupRowsSnoc(gc: GroupCollection, names: seq<string>, scope: string, i: nat)
    requires i < |names| && forall k :: k in names ==> k in gc.groups.entries
    ensures GroupRows(gc, names[..i + 1], scope)
            == GroupRows(gc, names[..i], scope) + Groups.ListInfo(gc.groups.entries[names[i]], names[i], scope)
  {
    assert names[..i + 1][..i] == names[..i];
  }

  method GetListInfo(gc: GroupCollection, scope: string) returns (result: seq<Row>)
    ensures result == ListInfo(gc, scope)
  {
    result := [];
    var names := gc.groups.order;
    Members(gc.groups);
    var i := 0;
    while i < |names|
      invariant 0 <= i <= |names|
      invariant result == GroupRows(gc, names[..i], scope)
    {
      var groupRows := Groups.GetListInfo(gc.groups.entries[names[i]], names[i], scope);
      GroupRowsSnoc(gc, names, scope, i);
      result := result + groupRows;
      i := i + 1;
    }
    assert names[..i] == names;
  }
}
