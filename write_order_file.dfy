/**
 * The whole run: build the table from the reference FASTQ lines, then
 * resolve the reordered file against it. Every failure stops the run, as
 * the program exits with a failure status at the first one.
 */
module WriteOrderFile {
  import opened Wrappers
  import opened Records
  import opened IndexBuilder
  import opened OrderResolver

  /** Looking an identifier up in a successfully built table: it is a key
      exactly when some reference record has it, and its number is the
      1-based position of that record. */
  lemma TableLookup(refIds: seq<string>, index: map<string, nat>, id: string)
    requires Build(refIds) == Success(index)
    ensures id in index <==> id in refIds
    ensures id in index ==> 1 <= index[id] <= |refIds| && refIds[index[id] - 1] == id
  {
    assert id in index ==> 1 <= index[id] <= |refIds| && refIds[index[id] - 1] == id by {
      BuildKeys(refIds);
    }
    assert id in refIds ==> id in index by {
      if id in refIds {
        BuildPositions(refIds);
        var k :| 0 <= k < |refIds| && refIds[k] == id;
      }
    }
  }

  /**
   * Runs both passes. `out` is the content of the order file when the run
   * stops (nothing when the reference pass fails, as the file is not yet
   * opened), `warnings` the number of multiple-word warnings printed, and
   * `error` the failure that stopped the run, if any.
   */
  method Run(reference: seq<string>, reordered: seq<string>)
    returns (out: seq<nat>, warnings: nat, error: Option<Error>)
    ensures warnings <= 1
    ensures var refIds, ids := ReferenceIds(reference), ReorderedIds(reordered);
      error.None? <==> Distinct(refIds) && forall k :: 0 <= k < |ids| ==> ids[k] in refIds
    ensures error.None? ==>
      && |out| == |ReorderedIds(reordered)|
      && (warnings == 1 <==> AnyMultiWord(ReferenceHeaders(reference)))
    ensures var headers := ReferenceHeaders(reference);
      var read := if error.Some? && error.value.DuplicateIdentifier? then error.value.numReads else |headers|;
      read <= |headers| && (warnings == 1 <==> AnyMultiWord(headers[..read]))
    ensures var refIds, ids := ReferenceIds(reference), ReorderedIds(reordered);
      forall k :: 0 <= k < |out| ==>
        k < |ids| && 1 <= out[k] <= |refIds| && refIds[out[k] - 1] == ids[k]
    ensures var refIds := ReferenceIds(reference);
      error.Some? && error.value.DuplicateIdentifier? ==>
        var n := error.value.numReads;
        && out == []
        && 1 <= n <= |refIds| && refIds[n - 1] == error.value.id
        && Distinct(refIds[..n - 1]) && error.value.id in refIds[..n - 1]
    ensures var refIds, ids := ReferenceIds(reference), ReorderedIds(reordered);
      error.Some? && error.value.UnknownIdentifier? ==>
        && Distinct(refIds)
        && |out| < |ids| && ids[|out|] == error.value.id && error.value.id !in refIds
  {
    ghost var refIds := ReferenceIds(reference);
    ghost var ids := ReorderedIds(reordered);
    var result, numReads, warned;
    result, numReads, warned, warnings := BuildIndex(reference);
    if result.Failure? {
      out, error := [], Some(result.error);
      BuildSucceeds(refIds);
      BuildFails(refIds);
      return;
    }
    BuildSucceeds(refIds);
    assert ReferenceHeaders(reference)[..numReads] == ReferenceHeaders(reference);
    var index := result.value;
    out, error := ResolveOrder(index, reordered);
    forall j | 0 <= j < |ids|
      ensures ids[j] in index <==> ids[j] in refIds
      ensures ids[j] in index ==> 1 <= index[ids[j]] <= |refIds| && refIds[index[ids[j]] - 1] == ids[j]
    {
      TableLookup(refIds, index, ids[j]);
    }
  }
}
