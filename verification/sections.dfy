/** Section expansion (`expandToFields`, `explodeSectionsToFields`): a section
    `[r.c1.….cn] body` becomes one top-level field per root name, nested one
    map level per child link, with the section's own field list innermost. A
    macro such as `%{a,b}` has already become a list of names in the header. */
module Sections {
  import opened Results
  import opened Ast
  import opened Seqs
  import opened Buffers

  /** One field `name: {inner}` per name, in order. Every field shares the same
      inner field list (in Go, the same slice). */
  function Wrap(names: seq<string>, inner: seq<Field>): (fs: seq<Field>)
    ensures |fs| == |names|
    ensures forall i :: 0 <= i < |names| ==> fs[i] == Field(names[i], None, Some(VMap(inner)))
  {
    if names == [] then [] else [Field(names[0], None, Some(VMap(inner)))] + Wrap(names[1..], inner)
  }

  /** `SectionChild.expandToFields`: the fields one child link and the links
      below it produce around `body`. */
  function ExpandChild(c: SectionChild, body: seq<Field>): (fs: seq<Field>)
    ensures Keys(fs) == c.names
    decreases c
  {
    var inner := match c.child case Some(d) => ExpandChild(d, body) case None => body;
    Wrap(c.names, inner)
  }

  /** `SectionRoot.expandToFields`: the top-level fields of one root. */
  function ExpandRoot(r: SectionRoot, body: seq<Field>): (fs: seq<Field>)
    ensures Keys(fs) == r.names
  {
    var inner := match r.child case Some(c) => ExpandChild(c, body) case None => body;
    Wrap(r.names, inner)
  }

  /** `Section.expandToFields`: every root's fields, roots in order. */
  function ExpandSection(s: Section): (fs: seq<Field>)
    ensures Keys(fs) == RootNames(s.roots)
  {
    ExpandRoots(s.roots, s.fields)
  }

  function ExpandRoots(roots: seq<SectionRoot>, body: seq<Field>): (fs: seq<Field>)
    ensures Keys(fs) == RootNames(roots)
  {
    if roots == [] then []
    else
      var fs := ExpandRoot(roots[0], body) + ExpandRoots(roots[1..], body);
      KeysAppend(ExpandRoot(roots[0], body), ExpandRoots(roots[1..], body));
      fs
  }

  /** The root names of a section header, roots in order, then names in order. */
  function RootNames(roots: seq<SectionRoot>): seq<string>
  {
    if roots == [] then [] else roots[0].names + RootNames(roots[1..])
  }

  lemma {:induction false} KeysAppend(a: seq<Field>, b: seq<Field>)
    ensures Keys(a + b) == Keys(a) + Keys(b)
  {
  }

  /** `explodeSectionsToFields`, as the splice it intends: every section entry
      replaced in place by one field entry per expanded field. */
  function ExplodeSections(es: seq<Entry>): (r: seq<Entry>)
    ensures NoSections(r)
  {
    if es == [] then [] else Explode(es[0]) + ExplodeSections(es[1..])
  }

  /** Once includes are spliced, exploding leaves nothing but fields. */
  lemma {:induction false} ExplodeAllFields(es: seq<Entry>)
    requires NoIncludes(es)
    ensures AllFields(ExplodeSections(es))
  {
    if es != [] {
      ExplodeAllFields(es[1..]);
    }
  }

  /** What one entry explodes to. */
  function Explode(e: Entry): (r: seq<Entry>)
    ensures NoSections(r)
    ensures !e.IncludeEntry? ==> AllFields(r)
    ensures !e.SectionEntry? ==> r == [e]
  {
    match e
    case SectionEntry(s) => AsEntries(ExpandSection(s))
    case _ => [e]
  }

  /** Exploding distributes over concatenation. */
  lemma {:induction false} ExplodeAppend(a: seq<Entry>, b: seq<Entry>)
    ensures ExplodeSections(a + b) == ExplodeSections(a) + ExplodeSections(b)
    decreases |a|
  {
    if a == [] {
      assert a + b == b;
    } else {
      assert (a + b)[0] == a[0];
      assert (a + b)[1..] == a[1..] + b;
      ExplodeAppend(a[1..], b);
    }
  }

  /** Entries that are not sections pass through unchanged and in order. */
  lemma {:induction false} SectionFreeUnchanged(es: seq<Entry>)
    requires NoSections(es)
    ensures ExplodeSections(es) == es
  {
    if es != [] {
      SectionFreeUnchanged(es[1..]);
    }
  }

  /** A section entry between other entries is replaced where it stands. */
  lemma SectionSplicedInPlace(a: seq<Entry>, s: Section, b: seq<Entry>)
    requires NoSections(a) && NoSections(b)
    ensures ExplodeSections(a + [SectionEntry(s)] + b) == a + AsEntries(ExpandSection(s)) + b
  {
    var x := AsEntries(ExpandSection(s));
    ExplodeAppend(a + [SectionEntry(s)], b);
    ExplodeAppend(a, [SectionEntry(s)]);
    SectionFreeUnchanged(a);
    SectionFreeUnchanged(b);
    assert ExplodeSections([SectionEntry(s)]) == x by {
      assert ExplodeSections([SectionEntry(s)]) == Explode(SectionEntry(s)) + ExplodeSections([]);
    }
    assert ExplodeSections(a + [SectionEntry(s)]) == a + x;
  }

  /** The loop of `explodeSectionsToFields` as written: a buffer of one slot per
      original entry and a write index, filled entry by entry. It computes
      `ExplodeSections`. */
  method ExplodeSectionsInPlace(entries: seq<Entry>) returns (out: seq<Entry>)
    ensures out == ExplodeSections(entries)
  {
    var buf := Slots(|entries|);
    var idx := 0;
    var i := 0;
    ghost var done: seq<Entry> := [];
    assert entries[..0] == [];
    assert Filled([]) + Slots(|entries|) == Slots(|entries|);
    while i < |entries|
      invariant 0 <= i <= |entries|
      invariant done == ExplodeSections(entries[..i])
      invariant idx == |done|
      invariant buf == Filled(done) + Slots(|entries| - i)
    {
      ExplodeStep(entries, i);
      buf, idx := ExplodeEntryInPlace(buf, idx, entries[i], done, |entries| - i);
      done := done + Explode(entries[i]);
      i := i + 1;
    }
    assert entries[..i] == entries;
    UnfillFilled(done);
    out := Unfill(buf);
  }

  /** One iteration of that loop: an entry that is not a section is written at
      the index; a section cuts the slot at the index out and puts its
      expansion there. Either way the entry's explosion extends the written
      prefix and one free slot is used up. */
  method ExplodeEntryInPlace(buf: seq<Option<Entry>>, idx: nat, e: Entry, ghost done: seq<Entry>, ghost n: nat)
    returns (buf': seq<Option<Entry>>, idx': nat)
    requires n >= 1 && idx == |done| && buf == Filled(done) + Slots(n)
    ensures buf' == Filled(done + Explode(e)) + Slots(n - 1)
    ensures idx' == |done + Explode(e)|
  {
    if !e.SectionEntry? {
      WriteSlot(done, e, n);
      buf' := buf[idx := Some(e)];
      idx' := idx + 1;
    } else {
      var expanded := AsEntries(ExpandSection(e.section));
      var last := if idx < |buf| - 1 then buf[idx + 1..] else [];
      ReplaceSlot(done, expanded, n);
      assert last == buf[idx + 1..];
      buf' := buf[..idx] + Filled(expanded) + last;
      idx' := idx + |expanded|;
    }
  }

  /** One more entry of the loop explodes on its own. */
  lemma ExplodeStep(entries: seq<Entry>, i: nat)
    requires i < |entries|
    ensures ExplodeSections(entries[..i + 1]) == ExplodeSections(entries[..i]) + Explode(entries[i])
  {
    TakeOneMore(entries, i);
    ExplodeAppend(entries[..i], [entries[i]]);
    Singleton(entries[i], Explode(entries[i]));
    assert ExplodeSections([entries[i]]) == Explode(entries[i]) + ExplodeSections([]);
  }

  // ---------------------------------------------------------------------------
  // The placement of a section's body: under every path through its header.
  // ---------------------------------------------------------------------------

  /** The name lists of a header's links, root first. */
  function Links(r: SectionRoot): (ls: seq<seq<string>>)
    ensures |ls| >= 1 && ls[0] == r.names
  {
    [r.names] + ChildLinks(r.child)
  }

  function ChildLinks(c: Option<SectionChild>): seq<seq<string>>
  {
    match c
    case None => []
    case Some(d) => [d.names] + ChildLinks(d.child)
  }

  /** Every path that picks one name per link, in lexicographic order of the
      choices (first link slowest). */
  function Product(ls: seq<seq<string>>): seq<seq<string>>
  {
    if ls == [] then [[]] else Spread(ls[0], Product(ls[1..]))
  }

  /** Each path of `ps` behind each name of `names`, names slowest. */
  function Spread(names: seq<string>, ps: seq<seq<string>>): (r: seq<seq<string>>)
    ensures |r| == |names| * |ps|
  {
    if names == [] then []
    else
      var r := Prefix(names[0], ps) + Spread(names[1..], ps);
      assert |r| == |ps| + (|names| - 1) * |ps|;
      r
  }

  function Prefix(n: string, ps: seq<seq<string>>): (r: seq<seq<string>>)
    ensures |r| == |ps| && forall i :: 0 <= i < |ps| ==> r[i] == [n] + ps[i]
  {
    seq(|ps|, i requires 0 <= i < |ps| => [n] + ps[i])
  }

  /** A field list found at the end of a key path. */
  datatype Leaf = Leaf(path: seq<string>, fields: seq<Field>)

  /** The field list of a field's map value; none for any other field. */
  function Inner(f: Field): seq<Field>
  {
    match f.value
    case Some(VMap(fs)) => fs
    case _ => []
  }

  /** The field lists `depth` map levels below `fs`, each with the keys that lead
      there, in field order. */
  function Leaves(fs: seq<Field>, depth: nat): seq<Leaf>
    decreases depth, |fs|
  {
    if depth == 0 then [Leaf([], fs)]
    else if fs == [] then []
    else PrefixLeaves(fs[0].key, Leaves(Inner(fs[0]), depth - 1)) + Leaves(fs[1..], depth)
  }

  function PrefixLeaves(n: string, ls: seq<Leaf>): (r: seq<Leaf>)
    ensures |r| == |ls| && forall i :: 0 <= i < |ls| ==> r[i] == Leaf([n] + ls[i].path, ls[i].fields)
  {
    seq(|ls|, i requires 0 <= i < |ls| => Leaf([n] + ls[i].path, ls[i].fields))
  }

  /** The body `body` placed at each path. */
  function Tag(ps: seq<seq<string>>, body: seq<Field>): (r: seq<Leaf>)
    ensures |r| == |ps| && forall i :: 0 <= i < |ps| ==> r[i] == Leaf(ps[i], body)
  {
    seq(|ps|, i requires 0 <= i < |ps| => Leaf(ps[i], body))
  }

  /** The leaves under one field per name, all sharing `inner`. */
  lemma {:induction false} WrapLeaves(names: seq<string>, inner: seq<Field>, depth: nat, ps: seq<seq<string>>, body: seq<Field>)
    requires Leaves(inner, depth) == Tag(ps, body)
    ensures Leaves(Wrap(names, inner), depth + 1) == Tag(Spread(names, ps), body)
  {
    if names != [] {
      var w := Wrap(names, inner);
      assert w[0] == Field(names[0], None, Some(VMap(inner)));
      assert w[1..] == Wrap(names[1..], inner);
      assert Inner(w[0]) == inner;
      WrapLeaves(names[1..], inner, depth, ps, body);
      TagPrefix(names[0], ps, body);
      TagAppend(Prefix(names[0], ps), Spread(names[1..], ps), body);
    } else {
      assert Wrap(names, inner) == [];
    }
  }

  /** Prefixing the paths of tagged leaves tags the prefixed paths. */
  lemma TagPrefix(n: string, ps: seq<seq<string>>, body: seq<Field>)
    ensures PrefixLeaves(n, Tag(ps, body)) == Tag(Prefix(n, ps), body)
  {
  }

  /** Tagging distributes over concatenation. */
  lemma TagAppend(ps: seq<seq<string>>, qs: seq<seq<string>>, body: seq<Field>)
    ensures Tag(ps + qs, body) == Tag(ps, body) + Tag(qs, body)
  {
  }

  /** Below a chain of child links, `body` sits at every path through the
      links' names. */
  lemma {:induction false} ChildLeaves(c: Option<SectionChild>, body: seq<Field>)
    ensures Leaves(match c case Some(d) => ExpandChild(d, body) case None => body, |ChildLinks(c)|)
         == Tag(Product(ChildLinks(c)), body)
    decreases c
  {
    match c
    case None =>
      assert Leaves(body, 0) == [Leaf([], body)];
    case Some(d) =>
      ChildLeaves(d.child, body);
      var links := ChildLinks(c);
      assert links[1..] == ChildLinks(d.child);
      var inner := match d.child case Some(e) => ExpandChild(e, body) case None => body;
      WrapLeaves(d.names, inner, |ChildLinks(d.child)|, Product(ChildLinks(d.child)), body);
  }

  /** Every expanded root holds the section's body, unchanged, at every path
      that picks one name per header link, and nothing else at that depth:
      `[%{a,b}.%{x,y}] k: v` gives `a.x`, `a.y`, `b.x`, `b.y`, in that order. */
  lemma RootLeaves(r: SectionRoot, body: seq<Field>)
    ensures Leaves(ExpandRoot(r, body), |Links(r)|) == Tag(Product(Links(r)), body)
  {
    ChildLeaves(r.child, body);
    var inner := match r.child case Some(c) => ExpandChild(c, body) case None => body;
    assert Links(r)[1..] == ChildLinks(r.child);
    WrapLeaves(r.names, inner, |ChildLinks(r.child)|, Product(ChildLinks(r.child)), body);
  }

  /** `[test.%{dev,prod}] key: "value"` (the macro already split) expands to
      `test: {dev: {key: "value"}, prod: {key: "value"}}`. */
  lemma MacroSectionExample(key: Field)
    ensures
      var s := Section([SectionRoot(["test"], Some(SectionChild(["dev", "prod"], None)))], [key]);
      ExpandSection(s) == [Field("test", None, Some(VMap([
        Field("dev", None, Some(VMap([key]))),
        Field("prod", None, Some(VMap([key])))])))]
  {
    var s := Section([SectionRoot(["test"], Some(SectionChild(["dev", "prod"], None)))], [key]);
    var c := SectionChild(["dev", "prod"], None);
    var inner := ExpandChild(c, [key]);
    assert inner == Wrap(["dev", "prod"], [key]);
    assert inner == [Field("dev", None, Some(VMap([key]))), Field("prod", None, Some(VMap([key])))];
    assert ExpandRoot(s.roots[0], [key]) == [Field("test", None, Some(VMap(inner)))];
    assert ExpandRoots(s.roots[1..], s.fields) == [];
  }
}
