/**
 * `handle_input`'s view of a whole run: the outcome of every item, in
 * input order, and the container that results from applying them one
 * after the other.
 */
module Batch {
  import opened Wrappers
  import opened Ingest

  type Store = map<string, Bytes>

  /** `[f(x) for x in xs]`. */
  function MapSeq<A, B>(f: A -> B, xs: seq<A>): (ys: seq<B>)
    ensures |ys| == |xs|
    decreases |xs|
  {
    if xs == [] then [] else [f(xs[0])] + MapSeq(f, xs[1..])
  }

  /** Each element of a mapped sequence is the image of the element at the same position. */
  lemma {:induction false} MapSeqAt<A, B>(f: A -> B, xs: seq<A>, i: nat)
    requires i < |xs|
    ensures MapSeq(f, xs)[i] == f(xs[i])
    decreases i
  {
    if i > 0 {
      MapSeqAt(f, xs[1..], i - 1);
    }
  }

  /** Mapping a concatenation maps each part. */
  lemma {:induction false} MapSeqConcat<A, B>(f: A -> B, xs: seq<A>, ys: seq<A>)
    ensures MapSeq(f, xs + ys) == MapSeq(f, xs) + MapSeq(f, ys)
    decreases |xs|
  {
    if xs == [] {
      assert xs + ys == ys;
    } else {
      assert (xs + ys)[0] == xs[0];
      assert (xs + ys)[1..] == xs[1..] + ys;
      MapSeqConcat(f, xs[1..], ys);
    }
  }

  /** Leaving one element out before mapping leaves its image out after. */
  lemma MapSeqWithout<A, B>(f: A -> B, xs: seq<A>, i: nat)
    requires i < |xs|
    ensures MapSeq(f, xs[..i] + xs[i + 1..]) == MapSeq(f, xs)[..i] + MapSeq(f, xs)[i + 1..]
  {
    var before, after := xs[..i], xs[i + 1..];
    assert xs == before + ([xs[i]] + after);
    MapSeqConcat(f, [xs[i]], after);
    MapSeqConcat(f, before, [xs[i]] + after);
    MapSeqConcat(f, before, after);
    var ys := MapSeq(f, xs);
    assert ys[..i] == MapSeq(f, before);
    assert ys[i + 1..] == MapSeq(f, after);
  }

  /** The outcome of one item of `handle_input`, which passes no blob name. */
  function ItemOutcome(w: World): string -> Outcome
  {
    item => UploadOutcome(w, item, None)
  }

  /**
   * The outcomes of the items `handle_input` is given, one per item and in
   * the same order; on this path no blob name is passed, so each name is
   * the basename of the item.
   */
  function Outcomes(w: World, items: seq<string>): (os: seq<Outcome>)
    ensures |os| == |items|
  {
    MapSeq(ItemOutcome(w), items)
  }

  /** The outcome at each position is the outcome of the item at that position. */
  lemma OutcomesAt(w: World, items: seq<string>, i: nat)
    requires i < |items|
    ensures Outcomes(w, items)[i] == UploadOutcome(w, items[i], None)
  {
    MapSeqAt(ItemOutcome(w), items, i);
  }

  /** The container after applying the outcomes in order. */
  function Run(store: Store, os: seq<Outcome>): (after: Store)
    ensures store.Keys <= after.Keys
    decreases |os|
  {
    if os == [] then store else Run(Apply(store, os[0]), os[1..])
  }

  /** Applying one more outcome at the end is one more `Apply`. */
  lemma {:induction false} RunAppend(store: Store, os: seq<Outcome>, o: Outcome)
    ensures Run(store, os + [o]) == Apply(Run(store, os), o)
    decreases |os|
  {
    if os == [] {
      assert os + [o] == [o];
    } else {
      assert (os + [o])[1..] == os[1..] + [o];
      RunAppend(Apply(store, os[0]), os[1..], o);
    }
  }

  /** The outcomes of a prefix of the items, extended by the next item. */
  lemma OutcomesAppend(w: World, items: seq<string>, i: nat)
    requires i < |items|
    ensures Outcomes(w, items[..i + 1]) == Outcomes(w, items[..i]) + [UploadOutcome(w, items[i], None)]
  {
    assert items[..i + 1] == items[..i] + [items[i]];
    MapSeqConcat(ItemOutcome(w), items[..i], [items[i]]);
    MapSeqAt(ItemOutcome(w), [items[i]], 0);
  }

  /**
   * A run overrides the container with the blobs the run itself writes:
   * what it does not write keeps its old content, whatever the container held.
   */
  lemma {:induction false} RunIsOverride(store: Store, os: seq<Outcome>)
    ensures Run(store, os) == store + Run(map[], os)
    decreases |os|
  {
    if os != [] {
      var first := Apply(map[], os[0]);
      var rest := Run(map[], os[1..]);
      var next := Apply(store, os[0]);
      assert Run(store, os) == Run(next, os[1..]);
      assert Run(map[], os) == Run(first, os[1..]);
      RunIsOverride(next, os[1..]);
      RunIsOverride(first, os[1..]);
      assert next == store + first;
      assert (store + first) + rest == store + (first + rest);
    }
  }

  /** Running the same items a second time changes nothing more (uploads overwrite). */
  lemma RerunIsIdempotent(store: Store, os: seq<Outcome>)
    ensures Run(Run(store, os), os) == Run(store, os)
  {
    RunIsOverride(store, os);
    RunIsOverride(Run(store, os), os);
    var written := Run(map[], os);
    assert (store + written) + written == store + written;
  }

  /** A blob that no outcome uploads keeps its presence and content. */
  lemma {:induction false} RunKeepsUntouched(store: Store, os: seq<Outcome>, k: string)
    requires forall i :: 0 <= i < |os| && os[i].Uploaded? ==> os[i].blob != k
    ensures k in Run(store, os) <==> k in store
    ensures k in store ==> Run(store, os)[k] == store[k]
    decreases |os|
  {
    if os != [] {
      RunKeepsUntouched(Apply(store, os[0]), os[1..], k);
    }
  }

  /** The last upload to a name decides that blob's content. */
  lemma {:induction false} RunLastWriteWins(store: Store, os: seq<Outcome>, i: nat)
    requires i < |os| && os[i].Uploaded?
    requires forall j :: i < j < |os| && os[j].Uploaded? ==> os[j].blob != os[i].blob
    ensures os[i].blob in Run(store, os) && Run(store, os)[os[i].blob] == os[i].content
    decreases |os|
  {
    if i == 0 {
      RunKeepsUntouched(Apply(store, os[0]), os[1..], os[0].blob);
    } else {
      RunLastWriteWins(Apply(store, os[0]), os[1..], i - 1);
    }
  }

  /** An outcome that uploads nothing can be dropped without changing the run. */
  lemma {:induction false} RunIgnoresNonUploads(store: Store, os: seq<Outcome>, i: nat)
    requires i < |os| && !os[i].Uploaded?
    ensures Run(store, os) == Run(store, os[..i] + os[i + 1..])
    decreases |os|
  {
    if i == 0 {
      assert os[..0] + os[1..] == os[1..];
    } else {
      RunIgnoresNonUploads(Apply(store, os[0]), os[1..], i - 1);
      assert (os[..i] + os[i + 1..])[1..] == os[1..][..i - 1] + os[1..][i..];
    }
  }

  /**
   * An item that fails or is skipped does not stop the batch: the container
   * ends as if that item had not been in the input at all.
   */
  lemma FailedItemIsInert(w: World, store: Store, items: seq<string>, i: nat)
    requires i < |items|
    requires !UploadOutcome(w, items[i], None).Uploaded?
    ensures Run(store, Outcomes(w, items)) == Run(store, Outcomes(w, items[..i] + items[i + 1..]))
  {
    OutcomesAt(w, items, i);
    RunIgnoresNonUploads(store, Outcomes(w, items), i);
    MapSeqWithout(ItemOutcome(w), items, i);
  }
}
