/** The base of the events that carry the documents found by a load: an
    append-only collection of document descriptors. */
module Pdf {

  /** `BasePdfLoadEvent`; `T` stands for the document descriptor, which the
      event only stores and hands back. */
  class BasePdfLoadEvent<T> {
    /** The descriptors added so far, in the order they were added. */
    var documents: seq<T>

    constructor ()
      ensures documents == []
    {
      documents := [];
    }

    /** `add(e)`: appends `e`, duplicates included, and reports a change. */
    method Add(e: T) returns (changed: bool)
      modifies this
      ensures changed
      ensures documents == old(documents) + [e]
      ensures old(documents) <= documents
    {
      documents := documents + [e];
      changed := true;
    }

    /** `addAll(c)`: appends the elements of `c` in their order; reports a
        change exactly when `c` has elements. */
    method AddAll(c: seq<T>) returns (changed: bool)
      modifies this
      ensures documents == old(documents) + c
      ensures old(documents) <= documents
      ensures changed <==> c != []
    {
      documents := documents + c;
      changed := c != [];
    }

    /** `getDocuments()`: a read-only view of this event's documents. */
    method GetDocuments() returns (view: DocumentsView<T>)
      ensures view.source == this
      ensures view.Items() == documents
    {
      view := new DocumentsView(this);
    }
  }

  /** The unmodifiable collection `getDocuments` returns. It reads through to
      the event, so it sees every later `add`, and it has no operation of its
      own that changes the documents. It does expose the event it reads, which
      its holder could use to add documents. */
  class DocumentsView<T> {
    const source: BasePdfLoadEvent<T>

    constructor (source: BasePdfLoadEvent<T>)
      ensures this.source == source
      ensures Items() == source.documents
    {
      this.source := source;
    }

    /** The documents of the event as they are now. */
    function Items(): (items: seq<T>)
      reads source
    {
      source.documents
    }
  }

  /** What a sequence of `addAll` calls appends: the batches one after another. */
  function Flatten<T>(batches: seq<seq<T>>): (all: seq<T>)
  {
    if batches == [] then [] else Flatten(batches[..|batches| - 1]) + batches[|batches| - 1]
  }

  /** The number of descriptors the batches carry in all. */
  function TotalLength<T>(batches: seq<seq<T>>): (total: nat)
  {
    if batches == [] then 0 else TotalLength(batches[..|batches| - 1]) + |batches[|batches| - 1]|
  }

  /** Appending `batches` one after another adds exactly as many documents as
      they carry: none is lost and none is duplicated. */
  lemma {:induction false} FlattenLength<T>(batches: seq<seq<T>>)
    ensures |Flatten(batches)| == TotalLength(batches)
  {
    if batches != [] {
      FlattenLength(batches[..|batches| - 1]);
    }
  }

  /** The `k`th batch sits whole, in its own order, right after the batches
      before it. */
  lemma {:induction false} FlattenLayout<T>(batches: seq<seq<T>>, k: nat)
    requires k < |batches|
    ensures Flatten(batches[..k + 1]) == Flatten(batches[..k]) + batches[k]
    ensures Flatten(batches[..k]) + batches[k] <= Flatten(batches)
  {
    assert batches[..k + 1][..k] == batches[..k];
    if k + 1 < |batches| {
      FlattenLayout(batches[..|batches| - 1], k);
      assert batches[..|batches| - 1][..k + 1] == batches[..k + 1];
      assert batches[..|batches| - 1][..k] == batches[..k];
    } else {
      assert batches[..k + 1] == batches;
    }
  }

  /** A client: a load session in which producers hand in their batches one
      after another, while a view of the event was taken beforehand. */
  method LoadSession<T>(event: BasePdfLoadEvent<T>, view: DocumentsView<T>, batches: seq<seq<T>>)
    requires view.source == event
    modifies event
    ensures event.documents == old(event.documents) + Flatten(batches)
    ensures |event.documents| == |old(event.documents)| + TotalLength(batches)
    ensures view.Items() == event.documents
  {
    var i := 0;
    while i < |batches|
      invariant 0 <= i <= |batches|
      invariant event.documents == old(event.documents) + Flatten(batches[..i])
    {
      var _ := event.AddAll(batches[i]);
      FlattenLayout(batches, i);
      i := i + 1;
    }
    assert batches[..i] == batches;
    FlattenLength(batches);
  }
}
