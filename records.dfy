/**
 * The record structure shared by both passes: header lines sit every
 * `stride` lines from the first, and a pass stops with an error value
 * where the program exits with a failure status.
 */
module Records {
  import opened Header

  /** The two fatal input errors. `numReads` is the reference record count
      at the point of failure, the duplicate included. */
  datatype Error =
    | DuplicateIdentifier(id: string, numReads: nat)
    | UnknownIdentifier(id: string)

  /** The header lines a pass reads: lines 0, stride, 2 * stride, ... that
      exist. A header that starts a truncated last record still counts. */
  function Headers(lines: seq<string>, stride: nat): (hs: seq<string>)
    requires stride > 0
    ensures |hs| <= |lines|
    ensures lines != [] ==> hs != [] && hs[0] == lines[0]
    decreases |lines|
  {
    if |lines| <= stride then lines[..if lines == [] then 0 else 1]
    else [lines[0]] + Headers(lines[stride..], stride)
  }

  /** Header k is line k * stride, and every line position that is a
      multiple of stride below |lines| holds a header. */
  lemma {:induction false} HeadersAt(lines: seq<string>, stride: nat)
    requires stride > 0
    ensures |Headers(lines, stride)| * stride >= |lines|
    ensures forall k :: 0 <= k < |Headers(lines, stride)| ==>
      k * stride < |lines| && Headers(lines, stride)[k] == lines[k * stride]
    decreases |lines|
  {
    if |lines| > stride {
      HeadersAt(lines[stride..], stride);
      HeadersStep(lines, stride, Headers(lines[stride..], stride));
    }
  }

  /** The headers after the first record, shifted by one record, are the
      headers of the whole stream. */
  lemma HeadersStep(lines: seq<string>, stride: nat, rest: seq<string>)
    requires 0 < stride < |lines|
    requires |rest| * stride >= |lines| - stride
    requires forall k :: 0 <= k < |rest| ==> k * stride < |lines| - stride && rest[k] == lines[stride..][k * stride]
    ensures (|rest| + 1) * stride >= |lines|
    ensures forall k :: 0 <= k <= |rest| ==> k * stride < |lines| && ([lines[0]] + rest)[k] == lines[k * stride]
  {
    var hs := [lines[0]] + rest;
    assert (|rest| + 1) * stride == |rest| * stride + stride;
    forall k | 0 <= k <= |rest|
      ensures k * stride < |lines| && hs[k] == lines[k * stride]
    {
      if k > 0 {
        var j := k - 1;
        assert k * stride == j * stride + stride;
        assert hs[k] == rest[j];
      }
    }
  }

  /** The identifiers of the given header lines, in order. */
  function Identifiers(headers: seq<string>): (ids: seq<string>)
    ensures |ids| == |headers|
  {
    if headers == [] then []
    else [Identifier(headers[0])] + Identifiers(headers[1..])
  }

  lemma {:induction false} IdentifiersAt(headers: seq<string>, k: nat)
    requires k < |headers|
    ensures Identifiers(headers)[k] == Identifier(headers[k])
    decreases k
  {
    if k > 0 {
      IdentifiersAt(headers[1..], k - 1);
    }
  }
}
