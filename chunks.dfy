/**
 * The reader's byte source: a `ReadOnlySequence<byte>` is a list of chunks
 * read through a `SequenceReader<byte>` cursor. `SequenceReader` skips empty
 * segments, so the reader keeps only the non-empty chunks.
 */
module Chunks {
  import opened Machine

  /** All chunks laid end to end. */
  function Flatten(cs: seq<seq<byte>>): (r: seq<byte>)
  {
    if cs == [] then [] else cs[0] + Flatten(cs[1..])
  }

  /** The chunks before index k, then the rest. */
  lemma {:induction false} FlattenSplit(cs: seq<seq<byte>>, k: nat)
    requires k <= |cs|
    ensures Flatten(cs) == Flatten(cs[..k]) + Flatten(cs[k..])
  {
    if k == 0 {
      assert cs[..0] == [] && cs[0..] == cs;
    } else {
      FlattenSplit(cs[1..], k - 1);
      assert cs[1..][..k - 1] == cs[..k][1..];
      assert cs[1..][k - 1..] == cs[k..];
    }
  }

  /** Flatten(cs[k..]) begins with chunk k. */
  lemma FlattenFrom(cs: seq<seq<byte>>, k: nat)
    requires k < |cs|
    ensures Flatten(cs[k..]) == cs[k] + Flatten(cs[k + 1..])
  {
    assert cs[k..][1..] == cs[k + 1..];
  }

  /** Taking one more chunk appends it. */
  lemma FlattenStep(cs: seq<seq<byte>>, k: nat)
    requires k < |cs|
    ensures Flatten(cs[..k + 1]) == Flatten(cs[..k]) + cs[k]
  {
    var p := cs[..k + 1];
    FlattenSplit(p, k);
    assert p[..k] == cs[..k];
    assert p[k..] == [cs[k]];
    var single: seq<seq<byte>> := [cs[k]];
    assert Flatten(single) == cs[k] by {
      assert |single[1..]| == 0;
    }
  }

  lemma FlattenSingle(bytes: seq<byte>)
    ensures Flatten([bytes]) == bytes
  {
    var single: seq<seq<byte>> := [bytes];
    assert |single[1..]| == 0;
  }

  /** The chunks with the empty ones left out; the bytes are the same. */
  function NonEmpty(cs: seq<seq<byte>>): (r: seq<seq<byte>>)
    ensures forall i :: 0 <= i < |r| ==> r[i] != []
    ensures Flatten(r) == Flatten(cs)
  {
    if cs == [] then []
    else
      var rest := NonEmpty(cs[1..]);
      if cs[0] == [] then rest
      else
        assert ([cs[0]] + rest)[1..] == rest;
        [cs[0]] + rest
  }
}
