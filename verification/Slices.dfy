/** Writing a run of bytes into part of a buffer. */
module Slices {
  import opened Words

  /** `now` is `was` with `b` written at `lo`. */
  ghost predicate Spliced(now: seq<byte>, was: seq<byte>, lo: nat, b: seq<byte>) {
    && |now| == |was|
    && lo + |b| <= |was|
    && forall k | 0 <= k < |now| :: now[k] == if lo <= k < lo + |b| then b[k - lo] else was[k]
  }

  lemma SplicedOnward(was: seq<byte>, then0: seq<byte>, now: seq<byte>, lo: nat, b: seq<byte>, c: seq<byte>)
    requires Spliced(then0, was, lo, b) && Spliced(now, then0, lo + |b|, c)
    ensures Spliced(now, was, lo, b + c)
  {
  }

  lemma SplicedPrefix(was: seq<byte>, then0: seq<byte>, now: seq<byte>, lo: nat, b: seq<byte>, i: nat, j: nat)
    requires i <= j <= |b|
    requires Spliced(then0, was, lo, b[..i]) && Spliced(now, then0, lo + i, b[i..j])
    ensures Spliced(now, was, lo, b[..j])
  {
  }

  lemma SplicedExtends(now: seq<byte>, was: seq<byte>, lo: nat, b: seq<byte>)
    requires Spliced(now, was, lo, b)
    ensures now[..lo + |b|] == was[..lo] + b
  {
  }

  lemma SplicedWhole(now: seq<byte>, was: seq<byte>, b: seq<byte>)
    requires Spliced(now, was, 0, b) && |b| == |was|
    ensures now == b
  {
  }

  method CopySlice(output: array<byte>, at: nat, source: seq<byte>)
    requires at + |source| <= output.Length
    modifies output
    ensures Spliced(output[..], old(output[..]), at, source)
  {
    forall k | 0 <= k < |source| {
      output[at + k] := source[k];
    }
  }
}
