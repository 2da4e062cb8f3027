/** Dotted-key flattening (`childFieldsToMap`): a top-level field written
    `k1.k2.….kn: v` reaches the post-processor as a chain of `Child` links; it
    becomes `k1: {k2: {… {kn: v}}}`, one single-field map per link. Only the
    fields of top-level entries are rewritten: a dotted key inside a map
    literal or a section body keeps its chain. */
module ChildFields {
  import opened Results
  import opened Ast

  /** The rewrite of one field: each child link becomes a one-field map value. */
  function Flatten(f: Field): (r: Field)
    ensures r.key == f.key && r.child.None?
    ensures f.child.None? ==> r == f
    decreases f
  {
    match f.child
    case None => f
    case Some(c) => Field(f.key, None, Some(VMap([Flatten(c)])))
  }

  /** The entries with every top-level field flattened; other entries, and the
      entry count, are unchanged. */
  function ChildFieldsToMap(es: seq<Entry>): (r: seq<Entry>)
    ensures |r| == |es|
    ensures forall i :: 0 <= i < |es| && !es[i].FieldEntry? ==> r[i] == es[i]
    ensures forall i :: 0 <= i < |es| && es[i].FieldEntry? ==> r[i] == FieldEntry(Flatten(es[i].field))
    ensures AllFields(es) ==> AllFields(r)
  {
    if es == [] then []
    else
      var head := match es[0] case FieldEntry(f) => FieldEntry(Flatten(f)) case e => e;
      [head] + ChildFieldsToMap(es[1..])
  }

  // ---------------------------------------------------------------------------
  // Reference definitions: a dotted field is its key path and its leaf value.
  // ---------------------------------------------------------------------------

  /** The keys along a field's child chain, `k1 … kn`. */
  function DottedKeys(f: Field): (ks: seq<string>)
    ensures |ks| >= 1 && ks[0] == f.key
    decreases f
  {
    match f.child
    case None => [f.key]
    case Some(c) => [f.key] + DottedKeys(c)
  }

  /** The value at the end of a field's child chain. */
  function DottedLeaf(f: Field): Option<Value>
    decreases f
  {
    match f.child
    case None => f.value
    case Some(c) => DottedLeaf(c)
  }

  /** The field the parser builds for `k1.….kn: v` (or for a bare `k1.….kn`). */
  function Dotted(keys: seq<string>, v: Option<Value>): Field
    requires |keys| >= 1
    decreases |keys|
  {
    if |keys| == 1 then Field(keys[0], None, v)
    else Field(keys[0], Some(Dotted(keys[1..], v)), None)
  }

  /** The nested form `k1: {k2: {… {kn: v}}}`. */
  function Nest(keys: seq<string>, v: Option<Value>): Field
    requires |keys| >= 1
    decreases |keys|
  {
    if |keys| == 1 then Field(keys[0], None, v)
    else Field(keys[0], None, Some(VMap([Nest(keys[1..], v)])))
  }

  /** Reads `depth` levels of single-field maps back into a key path and a
      leaf; `None` when the field is not of that shape or has a child link. */
  function Unnest(f: Field, depth: nat): Option<(seq<string>, Option<Value>)>
    decreases depth
  {
    if f.child.Some? then None
    else if depth == 0 then Some(([f.key], f.value))
    else
      match f.value
      case Some(VMap(fs)) =>
        if |fs| != 1 then None
        else
          (match Unnest(fs[0], depth - 1)
           case None => None
           case Some(p) => Some(([f.key] + p.0, p.1)))
      case _ => None
  }

  /** Flattening a field yields the nested form of its key path and leaf. */
  lemma {:induction false} FlattenIsNest(f: Field)
    ensures Flatten(f) == Nest(DottedKeys(f), DottedLeaf(f))
    decreases f
  {
    match f.child
    case None =>
    case Some(c) =>
      FlattenIsNest(c);
      var ks := DottedKeys(f);
      assert ks[1..] == DottedKeys(c);
  }

  /** The parser's dotted field has the key path and leaf it was built from. */
  lemma {:induction false} DottedRoundTrip(keys: seq<string>, v: Option<Value>)
    requires |keys| >= 1
    ensures DottedKeys(Dotted(keys, v)) == keys
    ensures DottedLeaf(Dotted(keys, v)) == v
    decreases |keys|
  {
    if |keys| > 1 {
      DottedRoundTrip(keys[1..], v);
    }
  }

  /** The nested form has no child link at any level and reads back as its key
      path and leaf. */
  lemma {:induction false} UnnestNest(keys: seq<string>, v: Option<Value>)
    requires |keys| >= 1
    ensures Unnest(Nest(keys, v), |keys| - 1) == Some((keys, v))
    decreases |keys|
  {
    if |keys| > 1 {
      var inner := Nest(keys[1..], v);
      UnnestNest(keys[1..], v);
      assert Nest(keys, v) == Field(keys[0], None, Some(VMap([inner])));
      assert [inner][0] == inner;
      assert Unnest(Nest(keys, v), |keys| - 1) == Some(([keys[0]] + keys[1..], v));
      assert [keys[0]] + keys[1..] == keys;
    } else {
      assert keys == [keys[0]];
    }
  }

  /** `k1.….kn: v` becomes nested single-field maps with keys `k1 … kn`, in
      order, whose innermost value is `v`, and no child link remains. */
  lemma FlattenDotted(keys: seq<string>, v: Option<Value>)
    requires |keys| >= 1
    ensures Flatten(Dotted(keys, v)) == Nest(keys, v)
    ensures Unnest(Flatten(Dotted(keys, v)), |keys| - 1) == Some((keys, v))
  {
    FlattenIsNest(Dotted(keys, v));
    DottedRoundTrip(keys, v);
    UnnestNest(keys, v);
  }
}
