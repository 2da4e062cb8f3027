/** The entry buffers of the two splice loops (`explodeSectionsToFields` and
    `parseIncludesAndAppendToConfig`): a slice of one slot per original entry,
    filled from the left while a write index moves along it. A slot is `None`
    until it is written; what Go leaves in an unwritten slot through slice
    aliasing is never read and is not modelled. */
module Buffers {
  import opened Results
  import opened Ast
  import opened Seqs

  /** `n` unwritten slots. */
  function Slots(n: nat): (buf: seq<Option<Entry>>)
    ensures |buf| == n && forall i :: 0 <= i < n ==> buf[i] == None
  {
    if n == 0 then [] else [None] + Slots(n - 1)
  }

  /** Entries as written slots. */
  function Filled(es: seq<Entry>): (buf: seq<Option<Entry>>)
    ensures |buf| == |es| && forall i :: 0 <= i < |es| ==> buf[i] == Some(es[i])
  {
    if es == [] then [] else [Some(es[0])] + Filled(es[1..])
  }

  /** The entries of a buffer whose every slot is written. */
  function Unfill(buf: seq<Option<Entry>>): (es: seq<Entry>)
    requires forall i :: 0 <= i < |buf| ==> buf[i].Some?
    ensures Filled(es) == buf
  {
    if buf == [] then [] else [buf[0].value] + Unfill(buf[1..])
  }

  /** No written slot holds an include. */
  predicate WrittenNoIncludes(buf: seq<Option<Entry>>)
  {
    forall i :: 0 <= i < |buf| && buf[i].Some? ==> !buf[i].value.IncludeEntry?
  }

  /** Reading back a written buffer gives its entries. */
  lemma {:induction false} UnfillFilled(es: seq<Entry>)
    ensures forall i :: 0 <= i < |Filled(es)| ==> Filled(es)[i].Some?
    ensures Unfill(Filled(es)) == es
  {
    if es != [] {
      UnfillFilled(es[1..]);
      assert Filled(es)[1..] == Filled(es[1..]);
    }
  }

  /** Writing `e` at the first free slot extends the written prefix by `e`. */
  lemma WriteSlot(done: seq<Entry>, e: Entry, n: nat)
    requires n >= 1
    ensures (Filled(done) + Slots(n))[|done| := Some(e)] == Filled(done + [e]) + Slots(n - 1)
  {
  }

  /** Cutting out the first free slot and putting `x` in its place extends the
      written prefix by `x` and leaves one free slot fewer. */
  lemma ReplaceSlot(done: seq<Entry>, x: seq<Entry>, n: nat)
    requires n >= 1
    ensures var buf := Filled(done) + Slots(n);
      buf[..|done|] + Filled(x) + buf[|done| + 1..] == Filled(done + x) + Slots(n - 1)
  {
    var buf := Filled(done) + Slots(n);
    assert buf[..|done|] == Filled(done);
    assert Slots(n) == [None] + Slots(n - 1);
    assert buf[|done| + 1..] == Slots(n - 1);
    FilledAppend(done, x);
  }

  /** Writing two lists of entries is writing their concatenation. */
  lemma {:induction false} FilledAppend(a: seq<Entry>, b: seq<Entry>)
    ensures Filled(a) + Filled(b) == Filled(a + b)
  {
    if a != [] {
      var t := a[1..];
      FilledAppend(t, b);
      ConsAppend(a, b);
      ConsAssoc(Some(a[0]), Filled(t), Filled(b));
    }
  }
}
