/**
 * The second pass: reading the reordered file two lines at a time, looking
 * each record's identifier up in the table and appending its read number to
 * the order file, failing on the first identifier the table does not hold.
 */
module OrderResolver {
  import opened Wrappers
  import opened Header
  import opened Records

  /** Lines the pass advances per record: header and sequence. */
  const ReorderedRecordLines: nat := 2

  /** The identifiers of the reordered file's records, in file order. */
  function ReorderedIds(reordered: seq<string>): seq<string> {
    Identifiers(Headers(reordered, ReorderedRecordLines))
  }

  /** The position of the first identifier that `index` does not hold, or
      |ids| when it holds them all. */
  function FirstUnknown(index: map<string, nat>, ids: seq<string>): (k: nat)
    ensures k <= |ids|
    ensures forall j :: 0 <= j < k ==> ids[j] in index
    ensures k < |ids| ==> ids[k] !in index
    decreases |ids|
  {
    if ids == [] || ids[0] !in index then 0
    else 1 + FirstUnknown(index, ids[1..])
  }

  /**
   * Reads the reordered lines record by record. `out` is what the order
   * file holds when the pass stops: the read number of every record before
   * the first unknown identifier, in file order; `error` names that
   * identifier, if there is one. The table is only read.
   */
  method ResolveOrder(index: map<string, nat>, reordered: seq<string>)
    returns (out: seq<nat>, error: Option<Error>)
    ensures var ids := ReorderedIds(reordered);
      var k := FirstUnknown(index, ids);
      && |out| == k
      && (forall j :: 0 <= j < k ==> out[j] == index[ids[j]])
      && error == if k < |ids| then Some(UnknownIdentifier(ids[k])) else None
  {
    ghost var headers := Headers(reordered, ReorderedRecordLines);
    ghost var ids := ReorderedIds(reordered);
    HeadersAt(reordered, ReorderedRecordLines);
    if headers != [] {
      assert headers[0] == reordered[0];
    }
    out := [];
    var i := 0;
    while i < |reordered|
      invariant i == |out| * ReorderedRecordLines && |out| <= |ids|
      invariant |out| < |headers| ==> i < |reordered|
      invariant forall j :: 0 <= j < |out| ==> ids[j] in index && out[j] == index[ids[j]]
      decreases |reordered| - i
    {
      var header := reordered[i];
      assert header == headers[|out|];
      var id := Identifier(header);
      IdentifiersAt(headers, |out|);
      if id !in index {
        error := Some(UnknownIdentifier(id));
        FirstUnknownAt(index, ids, |out|);
        return;
      }
      out := out + [index[id]];
      i := i + ReorderedRecordLines;
      if |out| < |headers| {
        assert |out| * ReorderedRecordLines < |reordered|;
        assert headers[|out|] == reordered[i];
      }
    }
    FirstUnknownAt(index, ids, |out|);
    error := None;
  }

  /** FirstUnknown is the first position whose identifier is missing. */
  lemma FirstUnknownAt(index: map<string, nat>, ids: seq<string>, k: nat)
    requires k <= |ids|
    requires forall j :: 0 <= j < k ==> ids[j] in index
    requires k < |ids| ==> ids[k] !in index
    ensures FirstUnknown(index, ids) == k
  {
  }
}
