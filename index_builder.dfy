/**
 * The first pass: reading the reference FASTQ file four lines at a time and
 * building the table from read identifier to 1-based read number, failing
 * on the first identifier seen twice and warning once about headers with
 * more than one word.
 */
module IndexBuilder {
  import opened Wrappers
  import opened Header
  import opened Records

  /** Lines per reference record: header, sequence, separator, quality. */
  const ReferenceRecordLines: nat := 4

  /** The header lines of the reference records, in file order. */
  function ReferenceHeaders(reference: seq<string>): seq<string> {
    Headers(reference, ReferenceRecordLines)
  }

  /** The identifiers of the reference records, in file order. */
  function ReferenceIds(reference: seq<string>): seq<string> {
    Identifiers(ReferenceHeaders(reference))
  }

  ghost predicate Distinct(ids: seq<string>) {
    forall i, j :: 0 <= i < j < |ids| ==> ids[i] != ids[j]
  }

  /** Some header among `headers` has more than one word. */
  ghost predicate AnyMultiWord(headers: seq<string>) {
    exists k :: 0 <= k < |headers| && MultiWord(headers[k])
  }

  /** The table after reading the records with identifiers `ids`, one
      record at a time: a record whose identifier is already a key fails the
      pass with the count of records read so far; any other is added with
      that count as its read number. */
  function Build(ids: seq<string>): (r: Result<map<string, nat>, Error>)
    decreases |ids|
  {
    if ids == [] then Success(map[])
    else
      match Build(ids[..|ids| - 1])
      case Failure(e) => Failure(e)
      case Success(index) =>
        var id := ids[|ids| - 1];
        if id in index then Failure(DuplicateIdentifier(id, |ids|))
        else Success(index[id := |ids|])
  }

  /** One record more: its identifier fails the pass if the table already
      holds it, and is added with the new record count otherwise. */
  lemma BuildStep(ids: seq<string>, n: nat, index: map<string, nat>)
    requires n < |ids| && Build(ids[..n]) == Success(index)
    ensures Build(ids[..n + 1]) ==
      if ids[n] in index then Failure(DuplicateIdentifier(ids[n], n + 1))
      else Success(index[ids[n] := n + 1])
  {
    assert ids[..n + 1][..n] == ids[..n];
  }

  /** Once the pass has failed, later records change nothing. */
  lemma {:induction false} BuildFailureStays(ids: seq<string>, n: nat)
    requires n <= |ids| && Build(ids[..n]).Failure?
    ensures Build(ids) == Build(ids[..n])
    decreases |ids|
  {
    if n < |ids| {
      var init := ids[..|ids| - 1];
      assert init[..n] == ids[..n];
      BuildFailureStays(init, n);
    } else {
      assert ids[..n] == ids;
    }
  }

  /** The pass succeeds exactly when the identifiers are pairwise
      distinct. */
  lemma {:induction false} BuildSucceeds(ids: seq<string>)
    ensures Build(ids).Success? <==> Distinct(ids)
    decreases |ids|
  {
    if ids != [] {
      var n := |ids| - 1;
      var init := ids[..n];
      BuildSucceeds(init);
      assert forall k :: 0 <= k < n ==> init[k] == ids[k];
      if Build(init).Failure? {
        assert !Distinct(ids) by {
          var i, j :| 0 <= i < j < n && init[i] == init[j];
          assert ids[i] == ids[j];
        }
      } else if ids[n] in Build(init).value {
        BuildKeys(init);
        assert init[Build(init).value[ids[n]] - 1] == ids[n];
      } else {
        BuildPositions(init);
      }
    }
  }

  /** A successful table maps the k-th record's identifier to k + 1. */
  lemma {:induction false} BuildPositions(ids: seq<string>)
    requires Build(ids).Success?
    ensures forall k :: 0 <= k < |ids| ==> ids[k] in Build(ids).value && Build(ids).value[ids[k]] == k + 1
    decreases |ids|
  {
    if ids != [] {
      var n := |ids| - 1;
      var init := ids[..n];
      BuildPositions(init);
      var index := Build(init).value;
      assert Build(ids).value == index[ids[n] := n + 1];
      assert forall k :: 0 <= k < n ==> init[k] == ids[k];
    }
  }

  /** Every key of a successful table is the identifier of the record its
      number points at, and the numbers lie in 1..|ids|. */
  lemma {:induction false} BuildKeys(ids: seq<string>)
    requires Build(ids).Success?
    ensures forall id :: id in Build(ids).value ==>
      1 <= Build(ids).value[id] <= |ids| && ids[Build(ids).value[id] - 1] == id
    decreases |ids|
  {
    if ids != [] {
      var n := |ids| - 1;
      var init := ids[..n];
      BuildKeys(init);
      var index := Build(init).value;
      var table := index[ids[n] := n + 1];
      assert Build(ids).value == table;
      forall key | key in table
        ensures 1 <= table[key] <= |ids| && ids[table[key] - 1] == key
      {
        if key != ids[n] {
          assert init[index[key] - 1] == key;
        }
      }
    }
  }

  /** A successful table gives distinct identifiers distinct numbers. */
  lemma BuildNumbersDistinct(ids: seq<string>, index: map<string, nat>)
    requires Build(ids) == Success(index)
    ensures forall a, b :: a in index && b in index && a != b ==> index[a] != index[b]
  {
    BuildKeys(ids);
  }

  /** A failed pass stops at the first record whose identifier repeats an
      earlier one, naming that identifier and that record's 1-based count;
      the records before it are pairwise distinct. */
  lemma {:induction false} BuildFails(ids: seq<string>)
    requires Build(ids).Failure?
    ensures var e := Build(ids).error;
      && e.DuplicateIdentifier?
      && 1 <= e.numReads <= |ids|
      && ids[e.numReads - 1] == e.id
      && Distinct(ids[..e.numReads - 1])
      && e.id in ids[..e.numReads - 1]
    decreases |ids|
  {
    var n := |ids| - 1;
    var init := ids[..n];
    if Build(init).Failure? {
      BuildFails(init);
      var e := Build(init).error;
      assert ids[..e.numReads - 1] == init[..e.numReads - 1];
    } else {
      var index := Build(init).value;
      BuildKeys(init);
      assert init[index[ids[n]] - 1] == ids[n];
      assert ids[..n] == init;
      BuildSucceeds(init);
    }
  }

  /** Conversely, when record k is the first to repeat an identifier, the
      pass fails there with count k + 1. */
  lemma BuildFailsAt(ids: seq<string>, k: nat)
    requires k < |ids| && Distinct(ids[..k]) && ids[k] in ids[..k]
    ensures Build(ids) == Failure(DuplicateIdentifier(ids[k], k + 1))
  {
    var init := ids[..k];
    BuildSucceeds(init);
    BuildPositions(init);
    var prefix := ids[..k + 1];
    assert prefix[..k] == init && prefix[k] == ids[k];
    assert Build(prefix) == Failure(DuplicateIdentifier(ids[k], k + 1));
    BuildFailureStays(ids, k + 1);
  }

  /** The table only grows: every entry of the table after the first j
      records is still there, unchanged, in any later successful table. */
  lemma BuildGrows(ids: seq<string>, j: nat)
    requires j <= |ids| && Build(ids).Success?
    ensures Build(ids[..j]).Success?
    ensures forall id :: id in Build(ids[..j]).value ==>
      id in Build(ids).value && Build(ids).value[id] == Build(ids[..j]).value[id]
  {
    var init := ids[..j];
    assert Build(init).Success? by {
      BuildSucceeds(ids);
      assert forall a, b :: 0 <= a < b < j ==> init[a] == ids[a] && init[b] == ids[b];
      BuildSucceeds(init);
    }
    BuildPositions(ids);
    BuildKeys(init);
    forall id | id in Build(init).value
      ensures id in Build(ids).value && Build(ids).value[id] == Build(init).value[id]
    {
      assert ids[Build(init).value[id] - 1] == id;
    }
  }

  lemma AnyMultiWordExtend(headers: seq<string>, n: nat)
    requires n < |headers|
    ensures AnyMultiWord(headers[..n + 1]) <==> AnyMultiWord(headers[..n]) || MultiWord(headers[n])
  {
    assert headers[..n + 1] == headers[..n] + [headers[n]];
  }

  /**
   * Reads the reference lines record by record. `numReads` is the number of
   * records read, the failing one included; `result` is the table, or the
   * duplicate that stopped the pass; `warned` says whether a header with
   * several words was seen among the records read, and `warnings` counts the
   * warnings printed.
   */
  method BuildIndex(reference: seq<string>)
    returns (result: Result<map<string, nat>, Error>, numReads: nat, warned: bool, warnings: nat)
    ensures var headers := ReferenceHeaders(reference);
      && result == Build(Identifiers(headers))
      && numReads <= |headers|
      && (result.Success? ==> numReads == |headers|)
      && (result.Failure? ==> result.error.DuplicateIdentifier? && result.error.numReads == numReads)
      && warned == AnyMultiWord(headers[..numReads])
    ensures warnings == if warned then 1 else 0
  {
    ghost var headers := ReferenceHeaders(reference);
    ghost var ids := Identifiers(headers);
    HeadersAt(reference, ReferenceRecordLines);
    if headers != [] {
      assert headers[0] == reference[0];
    }
    var index: map<string, nat> := map[];
    numReads, warned, warnings := 0, false, 0;
    var i := 0;
    while i < |reference|
      invariant i == numReads * ReferenceRecordLines && numReads <= |headers|
      invariant numReads < |headers| ==> i < |reference|
      invariant Build(ids[..numReads]) == Success(index)
      invariant warned == AnyMultiWord(headers[..numReads])
      invariant warnings == if warned then 1 else 0
      decreases |reference| - i
    {
      var header := reference[i];
      assert header == headers[numReads];
      AnyMultiWordExtend(headers, numReads);
      if !warned {
        var numWords := |Words(header)|;
        if numWords > 1 {
          warnings := warnings + 1;
          warned := true;
        }
      }
      numReads := numReads + 1;
      assert i + ReferenceRecordLines == numReads * ReferenceRecordLines;
      var id := Identifier(header);
      IdentifiersAt(headers, numReads - 1);
      BuildStep(ids, numReads - 1, index);
      if id in index {
        result := Failure(DuplicateIdentifier(id, numReads));
        BuildFailureStays(ids, numReads);
        return;
      }
      index := index[id := numReads];
      i := i + ReferenceRecordLines;
      if numReads < |headers| {
        assert headers[numReads] == reference[i];
      }
    }
    assert ids[..numReads] == ids;
    result := Success(index);
  }
}
