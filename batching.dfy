/**
 * Calendar requests sent in batches: `create_schedule_events_blocking` and
 * `delete_schedule_events_blocking` add requests one by one to a batch, execute it as
 * soon as it holds 50, and execute the last, partly filled batch at the end.
 */
module Batching {
  /** The most requests one batch carries. */
  const BatchLimit: nat := 50

  /** The batches laid end to end. */
  function Flatten<R>(batches: seq<seq<R>>): seq<R>
    decreases |batches|
  {
    if batches == [] then [] else batches[0] + Flatten(batches[1..])
  }

  lemma {:induction false} FlattenAppend<R>(batches: seq<seq<R>>, b: seq<R>)
    ensures Flatten(batches + [b]) == Flatten(batches) + b
    decreases |batches|
  {
    if batches == [] {
      assert [] + [b] == [b];
      assert Flatten([b]) == b + Flatten([b][1..]);
    } else {
      assert (batches + [b])[0] == batches[0] && (batches + [b])[1..] == batches[1..] + [b];
      FlattenAppend(batches[1..], b);
    }
  }

  /** `xs` cut into runs of `BatchLimit`, the last run holding what is left. */
  function Chunks<R>(xs: seq<R>): seq<seq<R>>
    decreases |xs|
  {
    if xs == [] then []
    else if |xs| <= BatchLimit then [xs]
    else [xs[..BatchLimit]] + Chunks(xs[BatchLimit..])
  }

  /** The runs hold the requests in order. */
  lemma {:induction false} ChunksFlatten<R>(xs: seq<R>)
    ensures Flatten(Chunks(xs)) == xs
    decreases |xs|
  {
    if xs != [] && |xs| <= BatchLimit {
      assert Flatten([xs]) == xs + Flatten([xs][1..]);
      assert xs + [] == xs;
    } else if xs != [] {
      var all := Chunks(xs);
      ChunksFlatten(xs[BatchLimit..]);
      assert all[0] == xs[..BatchLimit] && all[1..] == Chunks(xs[BatchLimit..]);
      assert xs[..BatchLimit] + xs[BatchLimit..] == xs;
    }
  }

  /**
   * No run is empty, every run but the last holds exactly `BatchLimit`, and there are
   * `|xs| / BatchLimit` runs rounded up.
   */
  lemma {:induction false} ChunksSizes<R>(xs: seq<R>)
    ensures forall i :: 0 <= i < |Chunks(xs)| ==> 0 < |Chunks(xs)[i]| <= BatchLimit
    ensures forall i :: 0 <= i < |Chunks(xs)| - 1 ==> |Chunks(xs)[i]| == BatchLimit
    ensures |Chunks(xs)| == (|xs| + BatchLimit - 1) / BatchLimit
    decreases |xs|
  {
    if xs != [] && |xs| > BatchLimit {
      var all, rest := Chunks(xs), Chunks(xs[BatchLimit..]);
      ChunksSizes(xs[BatchLimit..]);
      assert all[0] == xs[..BatchLimit] && all[1..] == rest;
      forall i | 1 <= i < |all| ensures all[i] == rest[i - 1] {
      }
    }
  }

  /** `BatchLimit` requests for each of `full` runs. */
  lemma {:induction false} FlattenFullLength<R>(full: seq<seq<R>>)
    requires forall i :: 0 <= i < |full| ==> |full[i]| == BatchLimit
    ensures |Flatten(full)| == BatchLimit * |full|
    decreases |full|
  {
    if full != [] {
      FlattenFullLength(full[1..]);
    }
  }

  /**
   * Full runs followed by a shorter run make up the chunks of what they hold, the
   * shorter run dropped when empty.
   */
  lemma {:induction false} ChunksOfFull<R>(full: seq<seq<R>>, rest: seq<R>)
    requires |rest| < BatchLimit
    requires forall i :: 0 <= i < |full| ==> |full[i]| == BatchLimit
    ensures Chunks(Flatten(full) + rest) == full + (if rest == [] then [] else [rest])
    decreases |full|
  {
    if full == [] {
      assert Flatten(full) + rest == rest;
    } else {
      var xs := Flatten(full) + rest;
      var others := Flatten(full[1..]) + rest;
      ChunksOfFull(full[1..], rest);
      FlattenFullLength(full[1..]);
      assert xs == full[0] + others;
      assert xs[..BatchLimit] == full[0] && xs[BatchLimit..] == others;
      assert full == [full[0]] + full[1..];
    }
  }

  /** A batch being filled and the batches executed so far. */
  class Batch<R> {
    var pending: seq<R>
    var sent: seq<seq<R>>

    constructor ()
      ensures pending == [] && sent == []
    {
      pending := [];
      sent := [];
    }

    /** The open batch is never full, and every executed batch was full. */
    predicate Valid()
      reads this
    {
      |pending| < BatchLimit && forall i :: 0 <= i < |sent| ==> |sent[i]| == BatchLimit
    }

    /** `batch.add(request); requests_in_batch += 1`, executing the batch once it holds 50. */
    method Add(r: R)
      requires Valid()
      modifies this
      ensures Valid()
      ensures |old(pending)| + 1 == BatchLimit ==> sent == old(sent) + [old(pending) + [r]] && pending == []
      ensures |old(pending)| + 1 < BatchLimit ==> sent == old(sent) && pending == old(pending) + [r]
      ensures Flatten(sent) + pending == Flatten(old(sent)) + old(pending) + [r]
    {
      pending := pending + [r];
      if |pending| >= BatchLimit {
        FlattenAppend(sent, pending);
        sent := sent + [pending];
        pending := [];
      }
    }

    /** `if requests_in_batch > 0: batch.execute()`. */
    method Finish()
      modifies this
      ensures pending == [] && sent == old(sent) + (if old(pending) == [] then [] else [old(pending)])
      ensures Flatten(sent) == Flatten(old(sent)) + old(pending)
    {
      if |pending| > 0 {
        FlattenAppend(sent, pending);
        sent := sent + [pending];
        pending := [];
      } else {
        assert Flatten(sent) + [] == Flatten(sent);
      }
    }
  }

  /**
   * The batching loop over `requests`: the executed batches are the runs of 50 of the
   * requests, in order, the last run holding what is left.
   */
  method SendAll<R>(requests: seq<R>) returns (batches: seq<seq<R>>)
    ensures batches == Chunks(requests)
  {
    var b := new Batch<R>();
    for i := 0 to |requests|
      invariant b.Valid()
      invariant Flatten(b.sent) + b.pending == requests[..i]
    {
      b.Add(requests[i]);
      assert requests[..i + 1] == requests[..i] + [requests[i]];
    }
    assert requests[..|requests|] == requests;
    ChunksOfFull(b.sent, b.pending);
    b.Finish();
    batches := b.sent;
  }
}
