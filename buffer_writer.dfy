/** `BufferWriter`: documents are collected in memory and handed to the
    model's `insertMany` in one batch once the buffer reaches `maxDocs`, or when
    a flush is forced. Each `insertMany` call is recorded in `written`. */
module BufferWriter {
  import opened Wrappers
  import Arithmetic

  /** The documents of all batches, in order. */
  function Flatten<T>(batches: seq<seq<T>>): seq<T>
    decreases |batches|
  {
    if |batches| == 0 then [] else Flatten(batches[..|batches| - 1]) + batches[|batches| - 1]
  }

  lemma FlattenSnoc<T>(batches: seq<seq<T>>, b: seq<T>)
    ensures Flatten(batches + [b]) == Flatten(batches) + b
  {
  }

  /** `opts.maxDocs || 500`: an absent or zero option gives 500. */
  function MaxDocsOption(maxDocs: Option<int>): (r: int)
    ensures r != 0
    ensures maxDocs.Some? && maxDocs.value != 0 ==> r == maxDocs.value
    ensures maxDocs.None? || maxDocs.value == 0 ==> r == 500
  {
    if maxDocs.Some? && maxDocs.value != 0 then maxDocs.value else 500
  }

  /** The buffer and the batches written so far. */
  datatype State<T> = State(docs: seq<T>, written: seq<seq<T>>)

  /** A flush is due when it is forced or the buffer has reached the threshold. */
  predicate FlushDue(override: bool, size: nat, maxDocs: int) {
    override || size >= maxDocs
  }

  /** `flush(override)`: when due, a non-empty buffer becomes one more batch and
      the buffer is emptied; otherwise nothing changes. No document is lost,
      and afterwards the buffer is empty or below the threshold. */
  function FlushStep<T>(st: State<T>, override: bool, maxDocs: int): (r: State<T>)
    ensures FlushDue(override, |st.docs|, maxDocs) ==>
      r.docs == [] && r.written == st.written + (if st.docs == [] then [] else [st.docs])
    ensures !FlushDue(override, |st.docs|, maxDocs) ==> r == st
    ensures Flatten(r.written) + r.docs == Flatten(st.written) + st.docs
    ensures r.docs == [] || |r.docs| < maxDocs
  {
    if override || |st.docs| >= maxDocs then
      FlattenSnoc(st.written, st.docs);
      State([], if |st.docs| > 0 then st.written + [st.docs] else st.written)
    else st
  }

  /** `insert(doc)`: append, then `flush(false)`. */
  function InsertStep<T>(st: State<T>, doc: T, maxDocs: int): (r: State<T>)
    ensures |st.docs| + 1 >= maxDocs ==> r.docs == [] && r.written == st.written + [st.docs + [doc]]
    ensures |st.docs| + 1 < maxDocs ==> r.docs == st.docs + [doc] && r.written == st.written
  {
    FlushStep(State(st.docs + [doc], st.written), false, maxDocs)
  }

  /** The state after inserting `ds` one by one, starting from `st`. */
  function InsertAll<T>(st: State<T>, ds: seq<T>, maxDocs: int): State<T>
    decreases |ds|
  {
    if |ds| == 0 then st else InsertStep(InsertAll(st, ds[..|ds| - 1], maxDocs), ds[|ds| - 1], maxDocs)
  }

  /** `st` is what inserting `ds` into an empty writer with threshold `m`
      leaves: `|ds| / m` full batches in order, the last `|ds| % m` buffered. */
  ghost predicate Batched<T>(st: State<T>, ds: seq<T>, m: int)
    requires m >= 1
  {
    && |st.written| == |ds| / m
    && |st.docs| == |ds| % m
    && (forall i :: 0 <= i < |st.written| ==> |st.written[i]| == m)
    && Flatten(st.written) + st.docs == ds
  }

  lemma BatchedStep<T>(st: State<T>, ds: seq<T>, d: T, m: int)
    requires m >= 1 && Batched(st, ds, m)
    ensures Batched(InsertStep(st, d, m), ds + [d], m)
  {
    var n := |ds|;
    var q, r := n / m, n % m;
    assert n == m * q + r;
    if r + 1 >= m {
      Arithmetic.DivModUnique(n + 1, m, q + 1, 0);
      FlattenSnoc(st.written, st.docs + [d]);
    } else {
      Arithmetic.DivModUnique(n + 1, m, q, r + 1);
    }
  }

  /** From an empty writer with a positive threshold `m`, inserting `n`
      documents writes `n / m` batches of exactly `m` documents each, in order,
      and leaves the last `n % m` in the buffer. */
  lemma {:induction false} InsertAllBatches<T>(ds: seq<T>, m: int)
    requires m >= 1
    ensures Batched(InsertAll(State([], []), ds, m), ds, m)
    decreases |ds|
  {
    if |ds| == 0 {
      Arithmetic.DivModUnique(0, m, 0, 0);
    } else {
      var init := ds[..|ds| - 1];
      InsertAllBatches(init, m);
      BatchedStep(InsertAll(State([], []), init, m), init, ds[|ds| - 1], m);
      assert init + [ds[|ds| - 1]] == ds;
    }
  }

  class BufferWriter<T> {
    const maxDocs: int
    var docs: seq<T>
    /** The batches passed to `insertMany`, oldest first. */
    var written: seq<seq<T>>
    /** Every document ever inserted, in order. */
    ghost var inserted: seq<T>

    /** Nothing is lost or reordered: the batches written followed by the
        buffer are exactly the documents inserted; no batch is empty; and the
        buffer is either empty or shorter than `maxDocs`. */
    ghost predicate Valid()
      reads this
    {
      && Flatten(written) + docs == inserted
      && (forall i :: 0 <= i < |written| ==> |written[i]| >= 1)
      && (docs == [] || |docs| < maxDocs)
    }

    /** A new writer: empty buffer, no batches, `maxDocs` from the option. */
    constructor (maxDocsOpt: Option<int>)
      ensures maxDocs == MaxDocsOption(maxDocsOpt)
      ensures docs == [] && written == [] && inserted == []
      ensures Valid()
    {
      maxDocs := MaxDocsOption(maxDocsOpt);
      docs := [];
      written := [];
      inserted := [];
    }

    method Flush(override: bool)
      requires Flatten(written) + docs == inserted
      requires forall i :: 0 <= i < |written| ==> |written[i]| >= 1
      modifies this
      ensures State(docs, written) == FlushStep(State(old(docs), old(written)), override, maxDocs)
      ensures inserted == old(inserted)
      ensures Valid()
    {
      if override || |docs| >= maxDocs {
        if |docs| > 0 {
          written := written + [docs];
        }
        docs := [];
      }
    }

    method Insert(doc: T)
      requires Valid()
      modifies this
      ensures State(docs, written) == InsertStep(State(old(docs), old(written)), doc, maxDocs)
      ensures inserted == old(inserted) + [doc]
      ensures Valid()
      ensures maxDocs >= 1 ==> |docs| < maxDocs
    {
      docs := docs + [doc];
      inserted := inserted + [doc];
      Flush(false);
    }
  }
}
