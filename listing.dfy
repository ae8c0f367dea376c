/**
 * The rows the tree lists itself as: each row carries the cells shown under the
 * column headers (`data`) and the selector of the node it stands for (`keys`).
 */
module Listing {

  datatype Row = Row(data: seq<string>, keys: seq<string>)

  /** Each row with `lead` put in front of both its cells and its keys. */
  function Prefixed(lead: string, rows: seq<Row>): (r: seq<Row>)
    ensures |r| == |rows|
    ensures forall i :: 0 <= i < |r| ==> r[i] == Row([lead] + rows[i].data, [lead] + rows[i].keys)
  {
    seq(|rows|, i requires 0 <= i < |rows| => Row([lead] + rows[i].data, [lead] + rows[i].keys))
  }

  /** Prefixing one more row extends the prefixed rows by that row, prefixed. */
  lemma PrefixedSnoc(lead: string, rows: seq<Row>, j: nat)
    requires j < |rows|
    ensures Prefixed(lead, rows[..j + 1]) == Prefixed(lead, rows[..j]) + [Row([lead] + rows[j].data, [lead] + rows[j].keys)]
  {
  }

  /** The inner `forEach` of every `getListInfo`: push each sub-row with `lead` put in front. */
  method PushPrefixed(result: seq<Row>, lead: string, subResults: seq<Row>) returns (r: seq<Row>)
    ensures r == result + Prefixed(lead, subResults)
  {
    r := result;
    var j := 0;
    while j < |subResults|
      invariant 0 <= j <= |subResults|
      invariant r == result + Prefixed(lead, subResults[..j])
    {
      PrefixedSnoc(lead, subResults, j);
      r := r + [Row([lead] + subResults[j].data, [lead] + subResults[j].keys)];
      j := j + 1;
    }
    assert subResults[..j] == subResults;
  }

  /** A row whose keys are a prefix of its cells, with at most one count cell after them. */
  predicate KeysLead(r: Row)
  {
    r.keys <= r.data && |r.data| <= |r.keys| + 1
  }

  /** Putting the same cell in front of cells and keys keeps the keys leading. */
  lemma PrefixKeepsKeysLead(lead: string, r: Row)
    requires KeysLead(r)
    ensures KeysLead(Row([lead] + r.data, [lead] + r.keys))
  {
    assert ([lead] + r.data)[..|r.keys| + 1] == [lead] + r.data[..|r.keys|];
  }
}
