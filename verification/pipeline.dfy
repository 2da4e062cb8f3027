/** `FigureConfig.Transform`: the passes of the back end in their fixed order
    (include splicing, section expansion, dotted-key flattening, reference
    resolution, the copy pass, conversion to a map). `mergeArrays` sits
    between the copy pass and the conversion in the Go code and is the
    identity on the parser's fields, so it does not appear here. */
module Pipeline {
  import opened Results
  import opened Ast
  import opened Includes
  import opened Sections
  import opened ChildFields
  import opened References
  import opened Arrays
  import opened Tree

  /** The top-level fields after the three structural passes: includes
      spliced, sections exploded, dotted keys flattened. */
  function TopFields(entries: seq<Entry>, load: Loader, fuel: nat): (r: Result<seq<Field>, Error>)
    ensures r.Ok? ==> forall i :: 0 <= i < |r.value| ==> r.value[i].child.None?
  {
    var spliced :- ResolveIncludes(entries, load, fuel);
    ExplodeAllFields(spliced);
    var flat := ChildFieldsToMap(ExplodeSections(spliced));
    Ok(FieldsOf(flat))
  }

  /** The whole back end. */
  function Transform(entries: seq<Entry>, load: Loader, fuel: nat): (r: Result<map<string, Tree>, Error>)
    ensures r.Ok? ==> "@" !in r.value
  {
    var fields :- TopFields(entries, load, fuel);
    var resolved :- ReverseIdentifiers(fields);
    ToMap(FieldsToArrays(resolved))
  }

  /** The whole back end with the include splice as the Go code writes it:
      the same passes after `SpliceAsWritten` in place of `ResolveIncludes`. */
  function TransformAsWritten(entries: seq<Entry>, load: Loader, fuel: nat): (r: Result<map<string, Tree>, Error>)
    ensures r.Ok? ==> "@" !in r.value
  {
    var spliced :- SpliceAsWritten(entries, load, fuel);
    ExplodeAllFields(spliced);
    var fields := FieldsOf(ChildFieldsToMap(ExplodeSections(spliced)));
    var resolved :- ReverseIdentifiers(fields);
    ToMap(FieldsToArrays(resolved))
  }

  /** With one file per include, the back end as written and as intended give
      the same result, error or map. */
  lemma TransformAsWrittenAgrees(entries: seq<Entry>, load: Loader, fuel: nat)
    requires OneFileIncludes(entries, load, fuel)
    ensures TransformAsWritten(entries, load, fuel) == Transform(entries, load, fuel)
  {
    OneFileAgrees(entries, load, fuel);
  }

  /** An include of two or more files makes the back end as written fail. */
  lemma TransformAsWrittenFails(entries: seq<Entry>, j: nat, load: Loader, fuel: nat)
    requires j < |entries| && entries[j].IncludeEntry? && |entries[j].files| >= 2
    requires forall k :: 0 <= k < |entries| && entries[k].IncludeEntry? ==> |entries[k].files| >= 1
    ensures TransformAsWritten(entries, load, fuel).Err?
  {
    MultiFileIncludeFails(entries, j, load, fuel);
  }

  /** `#include "b", "c"` with `x:"1"` in `b` and `y:"2"` in `c`: the intended
      back end yields both keys, the one as written panics. */
  lemma TwoFileTransformExample(load: Loader)
    requires load("b") == Some([FieldEntry(Field("x", None, Some(VString("1"))))])
    requires load("c") == Some([FieldEntry(Field("y", None, Some(VString("2"))))])
    ensures Transform([IncludeEntry(["b", "c"])], load, 1)
         == Ok(map["x" := TString("1"), "y" := TString("2")])
    ensures TransformAsWritten([IncludeEntry(["b", "c"])], load, 1) == Err(SliceOutOfRange)
  {
    var x := Field("x", None, Some(VString("1")));
    var y := Field("y", None, Some(VString("2")));
    var es := [FieldEntry(x), FieldEntry(y)];
    TwoFileIncludeCounterexample(x, y, load);
    IncludeFreeUnchanged(es, load, 1);
    SplicedAlike([IncludeEntry(["b", "c"])], es, load, 1);
    TwoStringsConvert(load);
  }

  /** The back end sees a configuration only through its spliced entries. */
  lemma SplicedAlike(a: seq<Entry>, b: seq<Entry>, load: Loader, fuel: nat)
    requires ResolveIncludes(a, load, fuel) == ResolveIncludes(b, load, fuel)
    ensures Transform(a, load, fuel) == Transform(b, load, fuel)
  {
    assert TopFields(a, load, fuel) == TopFields(b, load, fuel);
  }

  /** `x:"1" y:"2"` converts to `{"x": "1", "y": "2"}`. */
  lemma TwoStringsConvert(load: Loader)
    ensures Transform([FieldEntry(Field("x", None, Some(VString("1")))), FieldEntry(Field("y", None, Some(VString("2"))))], load, 1)
         == Ok(map["x" := TString("1"), "y" := TString("2")])
  {
    var x := Field("x", None, Some(VString("1")));
    var y := Field("y", None, Some(VString("2")));
    var fs := [x, y];
    assert AsEntries(fs) == [FieldEntry(x), FieldEntry(y)];
    PlainString("x", "1");
    PlainString("y", "2");
    PlainCons(x, [y]);
    assert [x] + [y] == fs;
    PlainFieldsConvertDirectly(fs, load, 1);
    ToMapTwo(x, y);
  }

  /** The converted configuration has exactly the keys of the top-level fields
      other than `@`. */
  lemma {:induction false} TransformKeys(entries: seq<Entry>, load: Loader, fuel: nat)
    requires Transform(entries, load, fuel).Ok?
    ensures TopFields(entries, load, fuel).Ok?
    ensures var fs := TopFields(entries, load, fuel).value;
      Transform(entries, load, fuel).value.Keys == set i | 0 <= i < |fs| && fs[i].key != "@" :: fs[i].key
  {
    var fs := TopFields(entries, load, fuel).value;
    var resolved := ReverseIdentifiers(fs).value;
    var copied := FieldsToArrays(resolved);
    assert Transform(entries, load, fuel) == ToMap(copied);
    RunKeys(map[], copied);
    assert Keys(copied) == Keys(fs);
    SameKeysSameRoots(copied, fs);
  }

  /** Field lists with the same keys in order name the same roots. */
  lemma SameKeysSameRoots(a: seq<Field>, b: seq<Field>)
    requires |a| == |b| && forall i :: 0 <= i < |a| ==> a[i].key == b[i].key
    ensures (set i | 0 <= i < |a| && a[i].key != "@" :: a[i].key) == (set i | 0 <= i < |b| && b[i].key != "@" :: b[i].key)
  {
    var ra := set i | 0 <= i < |a| && a[i].key != "@" :: a[i].key;
    var rb := set i | 0 <= i < |b| && b[i].key != "@" :: b[i].key;
    forall k | k in ra ensures k in rb {
      var i :| 0 <= i < |a| && a[i].key != "@" && a[i].key == k;
      assert b[i].key == k;
    }
  }

  /** The fields of field entries. */
  lemma FieldsOfAsEntries(fs: seq<Field>)
    ensures FieldsOf(AsEntries(fs)) == fs
  {
    var es := AsEntries(fs);
    assert forall i :: 0 <= i < |fs| ==> FieldEntry(FieldsOf(es)[i]) == es[i] == FieldEntry(fs[i]);
  }

  /** Flattening leaves fields without child links as they are. */
  lemma FlattenFree(fs: seq<Field>)
    requires forall i :: 0 <= i < |fs| ==> fs[i].child.None?
    ensures ChildFieldsToMap(AsEntries(fs)) == AsEntries(fs)
  {
  }

  /** For a configuration of plain fields (no include, section, dotted key or
      reference), every pass before the conversion is the identity. */
  lemma {:induction false} PlainFieldsConvertDirectly(fs: seq<Field>, load: Loader, fuel: nat)
    requires forall i :: 0 <= i < |fs| ==> fs[i].child.None?
    requires Plain(fs)
    ensures Transform(AsEntries(fs), load, fuel) == ToMap(fs)
  {
    var es := AsEntries(fs);
    IncludeFreeUnchanged(es, load, fuel);
    SectionFreeUnchanged(es);
    FlattenFree(fs);
    FieldsOfAsEntries(fs);
    assert TopFields(es, load, fuel) == Ok(fs);
    ReverseIdentifiersRefFree(fs);
    CopyFieldsIdentity(fs);
  }

  /** The configuration is the list of sections' expansions, for sections
      without references whose expansions are parser-shaped. */
  lemma {:induction false} SectionsConvert(ss: seq<Section>, fs: seq<Field>, load: Loader, fuel: nat)
    requires fs == ExpandAll(ss)
    requires Plain(fs)
    ensures Transform(SectionEntries(ss), load, fuel) == ToMap(fs)
  {
    var es := SectionEntries(ss);
    IncludeFreeUnchanged(es, load, fuel);
    ExplodeSectionEntries(ss);
    ExpandAllFree(ss);
    FlattenFree(fs);
    FieldsOfAsEntries(fs);
    assert TopFields(es, load, fuel) == Ok(fs);
    ReverseIdentifiersRefFree(fs);
    CopyFieldsIdentity(fs);
  }

  /** Sections as top-level entries. */
  function SectionEntries(ss: seq<Section>): (es: seq<Entry>)
    ensures |es| == |ss| && NoIncludes(es)
    ensures forall i :: 0 <= i < |ss| ==> es[i] == SectionEntry(ss[i])
  {
    if ss == [] then [] else [SectionEntry(ss[0])] + SectionEntries(ss[1..])
  }

  /** The sections' expansions, in order. */
  function ExpandAll(ss: seq<Section>): seq<Field>
  {
    if ss == [] then [] else ExpandSection(ss[0]) + ExpandAll(ss[1..])
  }

  lemma {:induction false} AsEntriesAppend(a: seq<Field>, b: seq<Field>)
    ensures AsEntries(a + b) == AsEntries(a) + AsEntries(b)
  {
    var l := AsEntries(a + b);
    var r := AsEntries(a) + AsEntries(b);
    forall i | 0 <= i < |a + b|
      ensures l[i] == r[i]
    {
      if i < |a| {
        assert (a + b)[i] == a[i];
      } else {
        assert (a + b)[i] == b[i - |a|];
      }
    }
  }

  lemma {:induction false} ExplodeSectionEntries(ss: seq<Section>)
    ensures ExplodeSections(SectionEntries(ss)) == AsEntries(ExpandAll(ss))
  {
    if ss != [] {
      ExplodeSectionEntries(ss[1..]);
      AsEntriesAppend(ExpandSection(ss[0]), ExpandAll(ss[1..]));
      assert SectionEntries(ss)[1..] == SectionEntries(ss[1..]);
    }
  }

  /** Section expansion leaves no child link at the top level. */
  lemma {:induction false} ExpandAllFree(ss: seq<Section>)
    ensures forall i :: 0 <= i < |ExpandAll(ss)| ==> ExpandAll(ss)[i].child.None?
  {
    if ss != [] {
      ExpandAllFree(ss[1..]);
      ExpandRootsFree(ss[0].roots, ss[0].fields);
    }
  }

  lemma {:induction false} ExpandRootsFree(roots: seq<SectionRoot>, body: seq<Field>)
    ensures forall i :: 0 <= i < |ExpandRoots(roots, body)| ==> ExpandRoots(roots, body)[i].child.None?
  {
    if roots != [] {
      ExpandRootsFree(roots[1..], body);
    }
  }
  // ---------------------------------------------------------------------------
  // The cases of json_test.go
  // ---------------------------------------------------------------------------

  /** A field list with no reference and no field holding both a child link
      and a value. */
  predicate Plain(fs: seq<Field>)
  {
    RefFreeFields(fs) && WellShapedFields(fs)
  }

  lemma PlainCons(f: Field, fs: seq<Field>)
    requires Plain([f]) && Plain(fs)
    ensures Plain([f] + fs)
  {
    assert [f][0] == f && [f][1..] == [];
    assert RefFreeField(f) && WellShapedField(f);
    assert ([f] + fs)[0] == f && ([f] + fs)[1..] == fs;
  }

  lemma PlainString(k: string, s: string)
    ensures Plain([Field(k, None, Some(VString(s)))])
  {
    var f := Field(k, None, Some(VString(s)));
    assert RefFreeValue(VString(s)) && WellShapedValue(VString(s));
    assert RefFreeField(f) && WellShapedField(f);
    assert [f][0] == f && [f][1..] == [];
    assert RefFreeFields([f][1..]) && WellShapedFields([f][1..]);
  }

  lemma PlainMap(k: string, fs: seq<Field>)
    requires Plain(fs) && fs != []
    ensures Plain([Field(k, None, Some(VMap(fs)))])
  {
    var f := Field(k, None, Some(VMap(fs)));
    assert RefFreeValue(VMap(fs)) && WellShapedValue(VMap(fs));
    assert RefFreeField(f) && WellShapedField(f);
    assert [f][0] == f && [f][1..] == [];
    assert RefFreeFields([f][1..]) && WellShapedFields([f][1..]);
  }

  /** `key:"value"` converts to `{"key": "value"}`. */
  lemma SingleFieldExample(load: Loader, fuel: nat)
    ensures Transform([FieldEntry(Field("key", None, Some(VString("value"))))], load, fuel)
         == Ok(map["key" := TString("value")])
  {
    var kv := Field("key", None, Some(VString("value")));
    assert AsEntries([kv]) == [FieldEntry(kv)];
    PlainString("key", "value");
    PlainFieldsConvertDirectly([kv], load, fuel);
    ToMapSingle(kv);
  }

  /** `[test.%{dev,prod}] key:"value"` converts to
      `{"test": {"dev": {"key": "value"}, "prod": {"key": "value"}}}`. */
  lemma MacroSectionConverts(load: Loader, fuel: nat)
    ensures
      var kv := Field("key", None, Some(VString("value")));
      var s := Section([SectionRoot(["test"], Some(SectionChild(["dev", "prod"], None)))], [kv]);
      var leaf := TMap(map["key" := TString("value")]);
      Transform([SectionEntry(s)], load, fuel) == Ok(map["test" := TMap(map["dev" := leaf, "prod" := leaf])])
  {
    var kv := Field("key", None, Some(VString("value")));
    var s := Section([SectionRoot(["test"], Some(SectionChild(["dev", "prod"], None)))], [kv]);
    var leaf := TMap(map["key" := TString("value")]);
    MacroSectionExample(kv);
    var dev := Field("dev", None, Some(VMap([kv])));
    var prod := Field("prod", None, Some(VMap([kv])));
    var test := Field("test", None, Some(VMap([dev, prod])));
    assert ExpandAll([s]) == [test] by {
      assert [s][1..] == [];
    }
    PlainString("key", "value");
    PlainMap("dev", [kv]);
    PlainMap("prod", [kv]);
    PlainCons(dev, [prod]);
    assert [dev] + [prod] == [dev, prod];
    PlainMap("test", [dev, prod]);
    assert SectionEntries([s]) == [SectionEntry(s)];
    SectionsConvert([s], [test], load, fuel);
    FinalMapOfOne(kv);
    FinalMapOfTwo(dev, prod);
    ToMapSingle(test);
  }

  /** `[test] key:"value" [@.key] key:"value"` converts to
      `{"test": {"key": {"key": "value"}}}`: the broadcast replaces the
      string under `test.key` with the broadcast map. */
  lemma BroadcastSectionConverts(load: Loader, fuel: nat)
    ensures
      var kv := Field("key", None, Some(VString("value")));
      var s1 := Section([SectionRoot(["test"], None)], [kv]);
      var s2 := Section([SectionRoot(["@"], Some(SectionChild(["key"], None)))], [kv]);
      var leaf := TMap(map["key" := TString("value")]);
      Transform([SectionEntry(s1), SectionEntry(s2)], load, fuel) == Ok(map["test" := TMap(map["key" := leaf])])
  {
    var kv := Field("key", None, Some(VString("value")));
    var s1 := Section([SectionRoot(["test"], None)], [kv]);
    var s2 := Section([SectionRoot(["@"], Some(SectionChild(["key"], None)))], [kv]);
    var test := Field("test", None, Some(VMap([kv])));
    var at := Field("@", None, Some(VMap([Field("key", None, Some(VMap([kv])))])));
    BroadcastSectionsExpand();
    assert SectionEntries([s1, s2]) == [SectionEntry(s1), SectionEntry(s2)];
    SectionsConvert([s1, s2], [test, at], load, fuel);
    TopLevelBroadcastExample();
  }

  /** The two sections of the broadcast case expand to `test: {key: "value"}`
      and `@: {key: {key: "value"}}`. */
  lemma BroadcastSectionsExpand()
    ensures
      var kv := Field("key", None, Some(VString("value")));
      var s1 := Section([SectionRoot(["test"], None)], [kv]);
      var s2 := Section([SectionRoot(["@"], Some(SectionChild(["key"], None)))], [kv]);
      var test := Field("test", None, Some(VMap([kv])));
      var at := Field("@", None, Some(VMap([Field("key", None, Some(VMap([kv])))])));
      ExpandAll([s1, s2]) == [test, at] && Plain([test, at])
  {
    var kv := Field("key", None, Some(VString("value")));
    var s1 := Section([SectionRoot(["test"], None)], [kv]);
    var s2 := Section([SectionRoot(["@"], Some(SectionChild(["key"], None)))], [kv]);
    var test := Field("test", None, Some(VMap([kv])));
    var key := Field("key", None, Some(VMap([kv])));
    var at := Field("@", None, Some(VMap([key])));
    assert ExpandSection(s1) == [test] by {
      assert ExpandRoots(s1.roots[1..], s1.fields) == [];
    }
    assert ExpandSection(s2) == [at] by {
      assert Wrap(["key"], [kv])[0] == key;
      assert ExpandChild(SectionChild(["key"], None), [kv]) == [key];
      assert Wrap(["@"], [key])[0] == at;
      assert ExpandRoot(s2.roots[0], [kv]) == [at];
      assert ExpandRoots(s2.roots[1..], s2.fields) == [];
    }
    assert [s1, s2][1..] == [s2];
    assert [s2][1..] == [];
    assert ExpandAll([s2]) == [at] + [];
    assert ExpandAll([s1, s2]) == [test] + [at];
    PlainString("key", "value");
    PlainMap("test", [kv]);
    PlainMap("key", [kv]);
    PlainMap("@", [key]);
    PlainCons(test, [at]);
    assert [test] + [at] == [test, at];
  }
}
