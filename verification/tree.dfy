/** The string-keyed tree `toMap` produces (Go's `map[string]interface{}`),
    and the conversions into it: `toFinalValue`, `mergeMapsOfInterface` with
    the `@` broadcast key, `toMap`, and the path lookup
    `lookupIdentifierInRoot`. Go maps are mutable and shared by reference;
    here every tree is an immutable value. */
module Tree {
  import opened Results
  import opened Ast
  import opened Seqs
  import opened Strings

  /** A converted value. `TNull` is Go's nil, stored for a bare key;
      `TIdent` is an identifier value left unresolved. */
  datatype Tree =
    | TNull
    | TString(s: string)
    | TInt(i: int)
    | TFloat(f: Float)
    | TIdent(name: string)
    | TMap(m: map<string, Tree>)

  // ---------------------------------------------------------------------------
  // toFinalValue
  // ---------------------------------------------------------------------------

  /** `Value.toFinalValue`: an identifier stays an identifier, a map is folded
      field by field, a scalar is kept, and anything else (a list, a
      multi-line string, an empty map) becomes an empty map. */
  function ToFinalValue(v: Value): (t: Tree)
    ensures v.VIdent? ==> t == TIdent(v.name)
    ensures IsMap(v) ==> t.TMap?
    ensures (v.VList? || v.VMultiline? || v == VMap([])) ==> t == TMap(map[])
    ensures v.VString? ==> t == TString(v.s)
    ensures v.VInt? ==> t == TInt(v.i)
    ensures v.VFloat? ==> t == TFloat(v.f)
    decreases ValueSize(v), 1
  {
    if v.VIdent? then TIdent(v.name)
    else if IsMap(v) then TMap(FoldFields(map[], v.fields))
    else
      match v
      case VFloat(x) => TFloat(x)
      case VInt(n) => TInt(n)
      case VString(s) => TString(s)
      case _ => TMap(map[])
  }

  /** The loop of `toFinalValue` over a map literal's fields, from `acc`: a
      field without a value deletes its key, any other field sets it. */
  function FoldFields(acc: map<string, Tree>, fs: seq<Field>): (r: map<string, Tree>)
    ensures forall k :: k in r ==> k in acc || HasKey(fs, k)
    ensures forall k :: k in acc && !HasKey(fs, k) ==> k in r && r[k] == acc[k]
    decreases FieldsSize(fs), 0
  {
    if fs == [] then acc
    else
      var f := fs[0];
      assert FieldsSize(fs) == FieldSize(f) + FieldsSize(fs[1..]);
      match f.value
      case None => FoldFields(acc - {f.key}, fs[1..])
      case Some(v) =>
        assert ValueSize(v) < FieldSize(f);
        FoldFields(acc[f.key := ToFinalValue(v)], fs[1..])
  }

  /** No field after position `j` is called `k`. */
  predicate NoKeyAfter(fs: seq<Field>, k: string, j: nat)
  {
    forall i :: j < i < |fs| ==> fs[i].key != k
  }

  /** The last field of `fs` called `k`, if any. */
  function LastWithKey(fs: seq<Field>, k: string): (r: Option<Field>)
    ensures r.Some? <==> HasKey(fs, k)
    ensures r.Some? ==> r.value.key == k && r.value in fs
    ensures r.Some? ==> exists j :: 0 <= j < |fs| && fs[j] == r.value && NoKeyAfter(fs, k, j)
  {
    if fs == [] then None
    else
      var rest := LastWithKey(fs[1..], k);
      assert HasKey(fs, k) <==> fs[0].key == k || HasKey(fs[1..], k) by {
        if HasKey(fs[1..], k) {
          var j :| 0 <= j < |fs[1..]| && fs[1..][j].key == k;
          assert fs[j + 1].key == k;
        }
        if HasKey(fs, k) && fs[0].key != k {
          var j :| 0 <= j < |fs| && fs[j].key == k;
          assert fs[1..][j - 1].key == k;
        }
      }
      if rest.Some? then
        var j :| 0 <= j < |fs[1..]| && fs[1..][j] == rest.value && NoKeyAfter(fs[1..], k, j);
        assert fs[j + 1] == rest.value && NoKeyAfter(fs, k, j + 1) by {
          forall i | j + 1 < i < |fs|
            ensures fs[i].key != k
          {
            assert fs[i] == fs[1..][i - 1];
          }
        }
        rest
      else if fs[0].key == k then
        assert NoKeyAfter(fs, k, 0) by {
          forall i | 0 < i < |fs|
            ensures fs[i].key != k
          {
            assert fs[i] == fs[1..][i - 1];
          }
        }
        Some(fs[0])
      else None
  }

  /** After the fold, a key's entry is decided by the LAST field with that key:
      absent if that field has no value, that field's converted value
      otherwise (no deep merge); a key no field names keeps its entry in
      `acc`. */
  lemma {:induction false} FoldFieldsLookup(acc: map<string, Tree>, fs: seq<Field>, k: string)
    ensures var r := FoldFields(acc, fs);
      match LastWithKey(fs, k)
      case None => (k in r <==> k in acc) && (k in acc ==> r[k] == acc[k])
      case Some(f) => (k in r <==> f.value.Some?) && (f.value.Some? ==> r[k] == ToFinalValue(f.value.value))
    decreases |fs|
  {
    if fs != [] {
      var f := fs[0];
      var acc' := match f.value case None => acc - {f.key} case Some(v) => acc[f.key := ToFinalValue(v)];
      assert FoldFields(acc, fs) == FoldFields(acc', fs[1..]);
      FoldFieldsLookup(acc', fs[1..], k);
    }
  }

  /** The tree of a map literal holds exactly the keys whose last field has a
      value, each with that field's converted value. */
  lemma FinalMapLookup(v: Value, k: string)
    requires IsMap(v)
    ensures var t := ToFinalValue(v);
      var last := LastWithKey(v.fields, k);
      && (k in t.m <==> last.Some? && last.value.value.Some?)
      && (k in t.m ==> t.m[k] == ToFinalValue(last.value.value.value))
  {
    FoldFieldsLookup(map[], v.fields, k);
  }

  /** A map literal of one field converts to a one-entry map. */
  lemma FinalMapOfOne(f: Field)
    requires f.value.Some?
    ensures ToFinalValue(VMap([f])) == TMap(map[f.key := ToFinalValue(f.value.value)])
  {
    assert IsMap(VMap([f]));
    assert [f][0] == f && [f][1..] == [];
    assert FoldFields(map[], [f]) == FoldFields(map[f.key := ToFinalValue(f.value.value)], []);
  }

  /** A map literal of two fields converts field by field. */
  lemma FinalMapOfTwo(f: Field, g: Field)
    requires f.value.Some? && g.value.Some?
    ensures ToFinalValue(VMap([f, g]))
         == TMap(map[f.key := ToFinalValue(f.value.value)][g.key := ToFinalValue(g.value.value)])
  {
    var m := map[f.key := ToFinalValue(f.value.value)];
    assert IsMap(VMap([f, g]));
    assert [f, g][0] == f && [f, g][1..] == [g];
    assert [g][0] == g && [g][1..] == [];
    assert FoldFields(map[], [f, g]) == FoldFields(m, [g]);
    assert FoldFields(m, [g]) == FoldFields(m[g.key := ToFinalValue(g.value.value)], []);
  }

  /** Examples: a later duplicate replaces the earlier value without merging,
      and a later bare key deletes it. */
  lemma FoldFieldsExample()
    ensures FoldFields(map[], [Field("a", None, Some(VInt(1))), Field("a", None, Some(VInt(2)))]) == map["a" := TInt(2)]
    ensures FoldFields(map[], [Field("a", None, Some(VInt(1))), Field("a", None, None)]) == map[]
  {
    var one := Field("a", None, Some(VInt(1)));
    assert [one, Field("a", None, Some(VInt(2)))][1..] == [Field("a", None, Some(VInt(2)))];
    assert [one, Field("a", None, None)][1..] == [Field("a", None, None)];
    assert map["a" := TInt(1)] - {"a"} == map[];
  }

  // ---------------------------------------------------------------------------
  // mergeMapsOfInterface
  // ---------------------------------------------------------------------------

  /** A merged map as a tree. */
  function AsTree(r: Result<map<string, Tree>, Error>): (t: Result<Tree, Error>)
    ensures t.Ok? <==> r.Ok?
    ensures r.Ok? ==> t.value == TMap(r.value)
    ensures r.Err? ==> t.error == r.error
  {
    match r
    case Ok(m) => Ok(TMap(m))
    case Err(e) => Err(e)
  }

  /** Whether every per-key result succeeded. */
  predicate AllOk(rs: map<string, Result<Tree, Error>>)
  {
    forall k :: k in rs ==> rs[k].Ok?
  }

  /** The values of per-key results that all succeeded. */
  function OkValues(rs: map<string, Result<Tree, Error>>): (m: map<string, Tree>)
    requires AllOk(rs)
    ensures m.Keys == rs.Keys
  {
    map k | k in rs :: rs[k].value
  }

  /** The broadcast applied to one entry: a map entry receives `b`, which must
      then be a map; any other entry is skipped. */
  function BroadcastEntry(t: Tree, b: Tree): (r: Result<Tree, Error>)
    ensures !t.TMap? ==> r == Ok(t)
    ensures t.TMap? && !b.TMap? ==> r == Err(NotAMap("@"))
    ensures r.Err? ==> r.error == NotAMap("@")
    decreases b, 3
  {
    if !t.TMap? then Ok(t)
    else if b.TMap? then AsTree(MergeMaps(t.m, b.m))
    else Err(NotAMap("@"))
  }

  /** The `@` key inside a merge: `b` is merged into every map-valued entry of
      `dst`, and every other entry is skipped. Merging asserts that `b` is a
      map, so a non-map `b` fails as soon as there is one map entry. */
  function Broadcast(dst: map<string, Tree>, b: Tree): (r: Result<map<string, Tree>, Error>)
    ensures r.Ok? ==> r.value.Keys == dst.Keys
    ensures r.Ok? ==> forall k :: k in dst && !dst[k].TMap? ==> r.value[k] == dst[k]
    ensures r.Err? ==> r.error == NotAMap("@")
    ensures r.Err? ==> exists k :: k in dst && dst[k].TMap?
    decreases b, 4
  {
    var rs := map k | k in dst :: BroadcastEntry(dst[k], b);
    if !AllOk(rs) then Err(NotAMap("@")) else Ok(OkValues(rs))
  }

  /** One key of `src` merged over `base`: a map over a map is merged
      recursively; otherwise `src`'s value is taken. */
  function MergeEntry(base: map<string, Tree>, k: string, s: Tree): (r: Result<Tree, Error>)
    ensures !(k in base && base[k].TMap? && s.TMap?) ==> r == Ok(s)
    ensures r.Err? ==> r.error == NotAMap("@")
    decreases s, 2
  {
    if k in base && base[k].TMap? && s.TMap? then AsTree(MergeMaps(base[k].m, s.m))
    else Ok(s)
  }

  /** `mergeMapsOfInterface(dst, src)`. Go visits `src` in random order; the
      model fixes one: the `@` entry first (it is never stored), then every
      other key: a key new to `dst` is inserted, a map over a map is merged
      recursively, and any other collision takes `src`'s value. */
  function MergeMaps(dst: map<string, Tree>, src: map<string, Tree>): (r: Result<map<string, Tree>, Error>)
    ensures r.Ok? ==> r.value.Keys == dst.Keys + (src.Keys - {"@"})
    ensures r.Err? ==> r.error == NotAMap("@")
    decreases TMap(src), 1
  {
    var base :- if "@" in src then Broadcast(dst, src["@"]) else Ok(dst);
    var rs := map k | k in src.Keys - {"@"} :: MergeEntry(base, k, src[k]);
    if !AllOk(rs) then Err(NotAMap("@")) else Ok(base + OkValues(rs))
  }

  /** Without an `@` key in `src`, each key of the merge is: `dst`'s entry for
      a key `src` does not name; `src`'s entry for a key new to `dst`; the
      recursive merge for a map over a map; `src`'s entry for any other
      collision. */
  lemma MergeMapsCases(dst: map<string, Tree>, src: map<string, Tree>, k: string)
    requires "@" !in src && MergeMaps(dst, src).Ok?
    ensures var r := MergeMaps(dst, src).value;
      && (k in dst && k !in src ==> r[k] == dst[k])
      && (k in src && k !in dst ==> r[k] == src[k])
      && (k in src && k in dst && !(dst[k].TMap? && src[k].TMap?) ==> r[k] == src[k])
      && (k in src && k in dst && dst[k].TMap? && src[k].TMap? ==>
            MergeMaps(dst[k].m, src[k].m).Ok? && r[k] == TMap(MergeMaps(dst[k].m, src[k].m).value))
  {
    var rs := map k | k in src.Keys - {"@"} :: MergeEntry(dst, k, src[k]);
    assert MergeMaps(dst, src) == Ok(dst + OkValues(rs));
    if k in src {
      assert rs[k].Ok?;
    }
  }

  /** With an `@` key, `src`'s other keys are merged into `dst` after the
      broadcast has been applied to `dst`. */
  lemma MergeMapsBroadcastsFirst(dst: map<string, Tree>, src: map<string, Tree>)
    requires "@" in src
    ensures Broadcast(dst, src["@"]).Err? ==> MergeMaps(dst, src) == Err(NotAMap("@"))
    ensures Broadcast(dst, src["@"]).Ok? ==>
      MergeMaps(dst, src) == MergeMaps(Broadcast(dst, src["@"]).value, src - {"@"})
  {
    if Broadcast(dst, src["@"]).Ok? {
      var base := Broadcast(dst, src["@"]).value;
      var rest := src - {"@"};
      var rs := map k | k in src.Keys - {"@"} :: MergeEntry(base, k, src[k]);
      var rs' := map k | k in rest.Keys - {"@"} :: MergeEntry(base, k, rest[k]);
      assert rs == rs';
    }
  }

  /** `@` at any depth of a tree. */
  predicate AtFree(t: Tree)
  {
    match t
    case TMap(m) => "@" !in m && forall k :: k in m ==> AtFree(m[k])
    case _ => true
  }

  /** A merge fails only through an `@` whose value is not a map: with no `@`
      in `src` at any depth it always succeeds. */
  lemma {:induction false} MergeSucceeds(dst: map<string, Tree>, src: map<string, Tree>)
    requires AtFree(TMap(src))
    ensures MergeMaps(dst, src).Ok?
    decreases TMap(src)
  {
    forall k | k in src && k in dst && dst[k].TMap? && src[k].TMap?
      ensures MergeMaps(dst[k].m, src[k].m).Ok?
    {
      MergeSucceeds(dst[k].m, src[k].m);
    }
    var rs := map k | k in src.Keys - {"@"} :: MergeEntry(dst, k, src[k]);
    assert AllOk(rs);
  }

  /** Merging an `@`-free map into itself changes nothing. */
  lemma {:induction false} MergeIdempotent(m: map<string, Tree>)
    requires AtFree(TMap(m))
    ensures MergeMaps(m, m) == Ok(m)
    decreases TMap(m)
  {
    forall k | k in m && m[k].TMap?
      ensures MergeMaps(m[k].m, m[k].m) == Ok(m[k].m)
    {
      MergeIdempotent(m[k].m);
    }
    MergeSucceeds(m, m);
    var r := MergeMaps(m, m).value;
    forall k | k in m ensures r[k] == m[k] {
      MergeMapsCases(m, m, k);
    }
    assert r == m;
  }

  /** Merging into an empty map copies `src` without its `@` entry. */
  lemma MergeIntoEmpty(src: map<string, Tree>)
    ensures MergeMaps(map[], src) == Ok(src - {"@"})
  {
    var base: map<string, Tree> := map[];
    if "@" in src {
      BroadcastWithoutRoots(base, src["@"]);
    }
    var rs := map k | k in src.Keys - {"@"} :: MergeEntry(base, k, src[k]);
    assert forall k :: k in rs ==> rs[k] == Ok(src[k]);
    assert MergeMaps(base, src) == Ok(base + OkValues(rs));
    assert base + OkValues(rs) == src - {"@"};
  }

  /** Broadcasting into a map with no map-valued entry changes nothing and
      never fails, whatever the broadcast value. */
  lemma BroadcastWithoutRoots(dst: map<string, Tree>, b: Tree)
    requires forall k :: k in dst ==> !dst[k].TMap?
    ensures Broadcast(dst, b) == Ok(dst)
  {
    var rs := map k | k in dst :: BroadcastEntry(dst[k], b);
    assert forall k :: k in rs ==> rs[k] == Ok(dst[k]);
    assert OkValues(rs) == dst;
  }

  /** Every map-valued entry receives the broadcast map. */
  lemma BroadcastReachesEveryRoot(dst: map<string, Tree>, b: Tree, k: string)
    requires Broadcast(dst, b).Ok? && k in dst && dst[k].TMap?
    ensures b.TMap? && MergeMaps(dst[k].m, b.m).Ok?
    ensures Broadcast(dst, b).value[k] == TMap(MergeMaps(dst[k].m, b.m).value)
  {
  }

  /** An `@`-free map broadcasts without failing. */
  lemma BroadcastSucceeds(dst: map<string, Tree>, b: Tree)
    requires b.TMap? && AtFree(b)
    ensures Broadcast(dst, b).Ok?
  {
    forall k | k in dst && dst[k].TMap? ensures MergeMaps(dst[k].m, b.m).Ok? {
      MergeSucceeds(dst[k].m, b.m);
    }
    var rs := map k | k in dst :: BroadcastEntry(dst[k], b);
    assert AllOk(rs);
  }

  /** A broadcast map must be a map once some entry is. */
  lemma BroadcastNeedsMap(dst: map<string, Tree>, b: Tree, k: string)
    requires !b.TMap? && k in dst && dst[k].TMap?
    ensures Broadcast(dst, b) == Err(NotAMap("@"))
  {
  }

  // ---------------------------------------------------------------------------
  // toMap
  // ---------------------------------------------------------------------------

  /** The converted value of a top-level field; nil for a bare key. */
  function FinalValue(f: Field): (t: Tree)
    ensures f.value.None? <==> t == TNull
  {
    match f.value
    case None => TNull
    case Some(v) => ToFinalValue(v)
  }

  /** One iteration of the `toMap` loop. A top-level `@` broadcasts into the
      roots present so far and is not stored; a bare key stores nil, replacing
      any earlier entry; a new key stores its value; a map value over an
      existing entry is merged into it, which must be a map; any other value
      for an existing key is dropped. */
  function Step(ret: map<string, Tree>, f: Field): (r: Result<map<string, Tree>, Error>)
    ensures r.Ok? && f.key == "@" ==> r.value.Keys == ret.Keys
    ensures r.Ok? && f.key != "@" ==> r.value.Keys == ret.Keys + {f.key}
    ensures r.Ok? ==> forall k :: k in ret && k != f.key && k != "@" && f.key != "@" ==> r.value[k] == ret[k]
  {
    var fv := FinalValue(f);
    if f.key == "@" then Broadcast(ret, fv)
    else if f.value.None? then Ok(ret[f.key := TNull])
    else if f.key !in ret then Ok(ret[f.key := fv])
    else if fv.TMap? then
      if ret[f.key].TMap? then
        var merged :- MergeMaps(ret[f.key].m, fv.m);
        Ok(ret[f.key := TMap(merged)])
      else Err(NotAMap(f.key))
    else Ok(ret)
  }

  /** The `toMap` loop from `ret`, stopping at the first error. */
  function Run(ret: map<string, Tree>, fs: seq<Field>): (r: Result<map<string, Tree>, Error>)
    ensures r.Ok? ==> ret.Keys <= r.value.Keys
    ensures r.Ok? && "@" !in ret ==> "@" !in r.value
    decreases |fs|
  {
    if fs == [] then Ok(ret)
    else
      var next :- Step(ret, fs[0]);
      Run(next, fs[1..])
  }

  /** `FigureConfig.toMap` on the (field-only) entries of a configuration. */
  function ToMap(fs: seq<Field>): (r: Result<map<string, Tree>, Error>)
    ensures r.Ok? ==> "@" !in r.value
  {
    Run(map[], fs)
  }

  /** The loop over a concatenation runs the second part from where the first
      part stopped. */
  lemma {:induction false} RunAppend(ret: map<string, Tree>, a: seq<Field>, b: seq<Field>)
    ensures Run(ret, a + b) == match Run(ret, a) case Ok(m) => Run(m, b) case Err(e) => Err(e)
    decreases |a|
  {
    if a == [] {
      assert a + b == b;
    } else {
      assert (a + b)[0] == a[0] && (a + b)[1..] == a[1..] + b;
      match Step(ret, a[0])
      case Err(_) =>
      case Ok(next) => RunAppend(next, a[1..], b);
    }
  }

  /** The non-`@` keys of a field list are those of its first field and of the rest. */
  lemma RootsCons(fs: seq<Field>)
    requires fs != []
    ensures (set i | 0 <= i < |fs| && fs[i].key != "@" :: fs[i].key)
         == (if fs[0].key != "@" then {fs[0].key} else {}) + (set i | 0 <= i < |fs[1..]| && fs[1..][i].key != "@" :: fs[1..][i].key)
  {
    var tail := set i | 0 <= i < |fs[1..]| && fs[1..][i].key != "@" :: fs[1..][i].key;
    var all := set i | 0 <= i < |fs| && fs[i].key != "@" :: fs[i].key;
    forall k | k in all ensures k in (if fs[0].key != "@" then {fs[0].key} else {}) + tail {
      var i :| 0 <= i < |fs| && fs[i].key != "@" && fs[i].key == k;
      if i > 0 {
        assert fs[1..][i - 1] == fs[i];
      }
    }
    forall k | k in tail ensures k in all {
      var i :| 0 <= i < |fs[1..]| && fs[1..][i].key != "@" && fs[1..][i].key == k;
      assert fs[i + 1] == fs[1..][i];
    }
  }

  /** The keys of the converted configuration are exactly the non-`@` keys of
      the top-level fields. */
  lemma {:induction false} RunKeys(ret: map<string, Tree>, fs: seq<Field>)
    requires Run(ret, fs).Ok?
    ensures Run(ret, fs).value.Keys == ret.Keys + (set i | 0 <= i < |fs| && fs[i].key != "@" :: fs[i].key)
    decreases |fs|
  {
    if fs != [] {
      var next := Step(ret, fs[0]).value;
      RunKeys(next, fs[1..]);
      RootsCons(fs);
    }
  }

  // ---------------------------------------------------------------------------
  // The value a key ends with
  // ---------------------------------------------------------------------------

  /** Some field assigns `k` with no value. */
  predicate AssignsBare(fs: seq<Field>, k: string)
  {
    exists i :: 0 <= i < |fs| && fs[i].key == k && fs[i].value.None?
  }

  /** Some field assigns `k` a value that converts to a map. */
  predicate AssignsMap(fs: seq<Field>, k: string)
  {
    exists i :: 0 <= i < |fs| && fs[i].key == k && FinalValue(fs[i]).TMap?
  }

  /** Some top-level `@` carries a value that does not convert to a map. */
  predicate BroadcastsNonMap(fs: seq<Field>)
  {
    exists i :: 0 <= i < |fs| && fs[i].key == "@" && !FinalValue(fs[i]).TMap?
  }

  /** Each of the three is decided by the first field or the rest. */
  lemma AssignsCons(fs: seq<Field>, k: string)
    requires fs != []
    ensures AssignsBare(fs, k) <==> (fs[0].key == k && fs[0].value.None?) || AssignsBare(fs[1..], k)
    ensures AssignsMap(fs, k) <==> (fs[0].key == k && FinalValue(fs[0]).TMap?) || AssignsMap(fs[1..], k)
    ensures BroadcastsNonMap(fs) <==> (fs[0].key == "@" && !FinalValue(fs[0]).TMap?) || BroadcastsNonMap(fs[1..])
  {
    forall i | 0 < i < |fs|
      ensures fs[i] == fs[1..][i - 1]
    {
    }
    forall i | 0 <= i < |fs[1..]|
      ensures fs[1..][i] == fs[i + 1]
    {
    }
  }

  /** The maps a key holding a map goes on to receive: its own map-valued
      assignments and every map broadcast, in order. */
  function MapsFor(fs: seq<Field>, k: string): (ms: seq<map<string, Tree>>)
    ensures |ms| <= |fs|
  {
    if fs == [] then []
    else
      var t := FinalValue(fs[0]);
      if (fs[0].key == k || fs[0].key == "@") && t.TMap? then [t.m] + MapsFor(fs[1..], k)
      else MapsFor(fs[1..], k)
  }

  /** Deep-merging maps into `acc` one after another, stopping at the first
      error. The keys only grow. */
  function MergeAll(acc: map<string, Tree>, ms: seq<map<string, Tree>>): (r: Result<map<string, Tree>, Error>)
    ensures r.Ok? ==> acc.Keys <= r.value.Keys
    decreases |ms|
  {
    if ms == [] then Ok(acc)
    else
      var m :- MergeMaps(acc, ms[0]);
      MergeAll(m, ms[1..])
  }

  /** Merging `@`-free maps never fails. */
  lemma {:induction false} MergeAllSucceeds(acc: map<string, Tree>, ms: seq<map<string, Tree>>)
    requires forall i :: 0 <= i < |ms| ==> AtFree(TMap(ms[i]))
    ensures MergeAll(acc, ms).Ok?
    decreases |ms|
  {
    if ms != [] {
      MergeSucceeds(acc, ms[0]);
      assert forall i :: 0 <= i < |ms[1..]| ==> ms[1..][i] == ms[i + 1];
      MergeAllSucceeds(MergeMaps(acc, ms[0]).value, ms[1..]);
    }
  }

  /** Once a top-level key holds a non-map it keeps it: a bare assignment
      makes it nil, any other non-map assignment is dropped, a broadcast skips
      it, and a map assignment fails. */
  lemma {:induction false} RunNonMap(ret: map<string, Tree>, fs: seq<Field>, k: string)
    requires k != "@" && k in ret && !ret[k].TMap?
    ensures AssignsMap(fs, k) ==> Run(ret, fs).Err?
    ensures Run(ret, fs).Ok? ==> Run(ret, fs).value[k] == if AssignsBare(fs, k) then TNull else ret[k]
    decreases |fs|
  {
    if fs != [] {
      AssignsCons(fs, k);
      var f := fs[0];
      var s := Step(ret, f);
      if s.Ok? {
        var next := s.value;
        if f.key == "@" {
          assert next[k] == ret[k];
        } else if f.key == k {
          assert next[k] == if f.value.None? then TNull else ret[k];
        } else {
          assert next[k] == ret[k];
        }
        RunNonMap(next, fs[1..], k);
      }
    }
  }

  /** While a top-level key holds a map and is never assigned bare, each map
      assigned to it and each map broadcast is deep-merged into it, any other
      assignment to it is dropped, and a non-map broadcast fails. */
  lemma {:induction false} RunMap(ret: map<string, Tree>, fs: seq<Field>, k: string)
    requires k != "@" && k in ret && ret[k].TMap? && !AssignsBare(fs, k)
    ensures BroadcastsNonMap(fs) ==> Run(ret, fs).Err?
    ensures Run(ret, fs).Ok? ==>
      MergeAll(ret[k].m, MapsFor(fs, k)).Ok? && Run(ret, fs).value[k] == TMap(MergeAll(ret[k].m, MapsFor(fs, k)).value)
    decreases |fs|
  {
    if fs != [] {
      AssignsCons(fs, k);
      var f := fs[0];
      var t := FinalValue(f);
      var s := Step(ret, f);
      if f.key == "@" && !t.TMap? {
        BroadcastNeedsMap(ret, t, k);
      }
      if s.Ok? {
        var next := s.value;
        if (f.key == k || f.key == "@") && t.TMap? {
          if f.key == "@" {
            BroadcastReachesEveryRoot(ret, t, k);
          }
          assert MergeMaps(ret[k].m, t.m).Ok? && next[k] == TMap(MergeMaps(ret[k].m, t.m).value);
          assert MapsFor(fs, k) == [t.m] + MapsFor(fs[1..], k);
          assert ([t.m] + MapsFor(fs[1..], k))[1..] == MapsFor(fs[1..], k);
        } else {
          assert next[k] == ret[k];
        }
        RunMap(next, fs[1..], k);
      }
    }
  }

  /** The loop over `fs` succeeds only if it gets past the fields before `j`
      and field `j`, and from there it runs the fields after `j`. */
  lemma RunAt(fs: seq<Field>, j: nat)
    requires j < |fs|
    ensures Run(map[], fs).Ok? ==> Run(map[], fs[..j]).Ok? && Step(Run(map[], fs[..j]).value, fs[j]).Ok?
    ensures Run(map[], fs[..j]).Ok? && Step(Run(map[], fs[..j]).value, fs[j]).Ok? ==>
      Run(map[], fs) == Run(Step(Run(map[], fs[..j]).value, fs[j]).value, fs[j + 1..])
  {
    SplitAt(fs, j);
    RunAppend(map[], fs[..j], [fs[j]] + fs[j + 1..]);
  }

  /** Before its first assignment a key is absent. */
  lemma AbsentBeforeFirst(fs: seq<Field>, k: string, j: nat)
    requires k != "@" && IsFirstKey(fs, k, j) && Run(map[], fs[..j]).Ok?
    ensures k !in Run(map[], fs[..j]).value
  {
    RunKeys(map[], fs[..j]);
  }

  /** After the last bare assignment of a key, whatever came before: a later
      map assignment fails, and otherwise the key converts to nil. */
  lemma ToMapLastBare(fs: seq<Field>, k: string, j: nat)
    requires k != "@" && j < |fs| && fs[j].key == k && fs[j].value.None?
    requires !AssignsBare(fs[j + 1..], k)
    ensures AssignsMap(fs[j + 1..], k) ==> ToMap(fs).Err?
    ensures ToMap(fs).Ok? ==> k in ToMap(fs).value && ToMap(fs).value[k] == TNull
  {
    RunAt(fs, j);
    var m := Run(map[], fs[..j]);
    if m.Ok? {
      var s := m.value[k := TNull];
      assert Step(m.value, fs[j]) == Ok(s);
      RunNonMap(s, fs[j + 1..], k);
    }
  }

  /** A key whose first assignment is not a map keeps that value, unless a
      later bare assignment makes it nil; a later map assignment fails. */
  lemma ToMapFirstNonMap(fs: seq<Field>, k: string, j: nat)
    requires k != "@" && IsFirstKey(fs, k, j) && !FinalValue(fs[j]).TMap?
    ensures AssignsMap(fs[j + 1..], k) ==> ToMap(fs).Err?
    ensures ToMap(fs).Ok? ==>
      k in ToMap(fs).value && ToMap(fs).value[k] == if AssignsBare(fs[j + 1..], k) then TNull else FinalValue(fs[j])
  {
    RunAt(fs, j);
    var m := Run(map[], fs[..j]);
    if m.Ok? {
      AbsentBeforeFirst(fs, k, j);
      var s := m.value[k := FinalValue(fs[j])];
      assert Step(m.value, fs[j]) == Ok(s);
      RunNonMap(s, fs[j + 1..], k);
    }
  }

  /** A key whose first assignment is a map, and which is never assigned bare
      afterwards, ends with that map deep-merged with every later map
      assigned to it and every later map broadcast, in order; other later
      assignments to it are dropped, and a later non-map broadcast fails. */
  lemma ToMapFirstMap(fs: seq<Field>, k: string, j: nat)
    requires k != "@" && IsFirstKey(fs, k, j) && FinalValue(fs[j]).TMap? && !AssignsBare(fs[j + 1..], k)
    ensures BroadcastsNonMap(fs[j + 1..]) ==> ToMap(fs).Err?
    ensures ToMap(fs).Ok? ==>
      var merged := MergeAll(FinalValue(fs[j]).m, MapsFor(fs[j + 1..], k));
      merged.Ok? && k in ToMap(fs).value && ToMap(fs).value[k] == TMap(merged.value)
  {
    RunAt(fs, j);
    var m := Run(map[], fs[..j]);
    if m.Ok? {
      AbsentBeforeFirst(fs, k, j);
      var s := m.value[k := FinalValue(fs[j])];
      assert Step(m.value, fs[j]) == Ok(s);
      RunMap(s, fs[j + 1..], k);
    }
  }

  /** A top-level `@` does not reach roots added after it: a key first
      assigned after the broadcast holds just its own value. */
  lemma BroadcastNotRetroactive(ret: map<string, Tree>, at: Field, f: Field)
    requires at.key == "@" && Step(ret, at).Ok?
    requires f.key != "@" && f.key !in ret && f.value.Some?
    ensures Step(Step(ret, at).value, f).Ok?
    ensures Step(Step(ret, at).value, f).value[f.key] == ToFinalValue(f.value.value)
  {
  }

  /** A single assignment converts to a one-entry map. */
  lemma ToMapSingle(f: Field)
    requires f.key != "@" && f.value.Some?
    ensures ToMap([f]) == Ok(map[f.key := ToFinalValue(f.value.value)])
  {
    var m := map[f.key := ToFinalValue(f.value.value)];
    assert Step(map[], f) == Ok(m);
    assert [f][0] == f && [f][1..] == [];
    assert Run(m, []) == Ok(m);
  }

  /** Two fields with different keys convert to a two-key map. */
  lemma ToMapTwo(x: Field, y: Field)
    requires x.key != "@" && y.key != "@" && x.key != y.key
    requires x.value.Some? && y.value.Some?
    ensures ToMap([x, y])
         == Ok(map[x.key := ToFinalValue(x.value.value), y.key := ToFinalValue(y.value.value)])
  {
    var m1 := map[x.key := ToFinalValue(x.value.value)];
    var m2 := m1[y.key := ToFinalValue(y.value.value)];
    assert Step(map[], x) == Ok(m1);
    assert Step(m1, y) == Ok(m2);
    assert [x, y][0] == x && [x, y][1..] == [y];
    assert [y][0] == y && [y][1..] == [];
    assert Run(m2, []) == Ok(m2);
    assert Run(m1, [y]) == Ok(m2);
  }

  /** A later non-map value for an existing key keeps the first value; a later
      bare key replaces it with nil. */
  lemma DuplicateKeyExample()
    ensures ToMap([Field("a", None, Some(VInt(1))), Field("a", None, Some(VInt(2)))]) == Ok(map["a" := TInt(1)])
    ensures ToMap([Field("a", None, Some(VInt(1))), Field("a", None, None)]) == Ok(map["a" := TNull])
  {
    var one := Field("a", None, Some(VInt(1)));
    var two := Field("a", None, Some(VInt(2)));
    var bare := Field("a", None, None);
    assert Step(map[], one) == Ok(map["a" := TInt(1)]);
    assert [one, two][1..] == [two];
    assert [two][1..] == [];
    assert Run(map["a" := TInt(1)], [two]) == Ok(map["a" := TInt(1)]);
    assert [one, bare][1..] == [bare];
    assert [bare][1..] == [];
    assert map["a" := TInt(1)]["a" := TNull] == map["a" := TNull];
    assert Step(map["a" := TInt(1)], bare) == Ok(map["a" := TNull]);
    assert Run(map["a" := TInt(1)], [bare]) == Ok(map["a" := TNull]);
  }

  /** A map value assigned over a bare key's nil fails, as the Go type
      assertion does. */
  lemma MapOverNullFails()
    ensures ToMap([Field("a", None, None), Field("a", None, Some(VMap([Field("b", None, Some(VInt(1)))])))]) == Err(NotAMap("a"))
  {
    var bare := Field("a", None, None);
    var m := Field("a", None, Some(VMap([Field("b", None, Some(VInt(1)))])));
    assert Step(map[], bare) == Ok(map["a" := TNull]);
    assert [bare, m][1..] == [m];
    assert FinalValue(m).TMap?;
    assert Step(map["a" := TNull], m) == Err(NotAMap("a"));
  }

  /** Merging `{key: {key: "value"}}` into `{key: "value"}` replaces the
      string with the map: a map over a non-map lets the source win. */
  lemma MapOverStringExample()
    ensures
      var leaf := TMap(map["key" := TString("value")]);
      MergeMaps(leaf.m, map["key" := leaf]) == Ok(map["key" := leaf])
  {
    var leaf := TMap(map["key" := TString("value")]);
    var src := map["key" := leaf];
    assert AtFree(leaf);
    assert AtFree(TMap(src));
    MergeSucceeds(leaf.m, src);
    MergeMapsCases(leaf.m, src, "key");
    var r := MergeMaps(leaf.m, src).value;
    assert r.Keys == {"key"};
    assert r == src;
  }

  /** Broadcasting `{key: {key: "value"}}` into `{test: {key: "value"}}`
      reaches the one map root. */
  lemma BroadcastIntoRootExample()
    ensures
      var leaf := TMap(map["key" := TString("value")]);
      Broadcast(map["test" := leaf], TMap(map["key" := leaf])) == Ok(map["test" := TMap(map["key" := leaf])])
  {
    var leaf := TMap(map["key" := TString("value")]);
    var ret := map["test" := leaf];
    var b := TMap(map["key" := leaf]);
    NestedLeafAtFree();
    BroadcastSucceeds(ret, b);
    BroadcastReachesEveryRoot(ret, b, "test");
    MapOverStringExample();
    SingleKey(Broadcast(ret, b).value, "test", TMap(map["key" := leaf]));
  }

  /** `{key: {key: "value"}}` has no `@` key at any depth. */
  lemma NestedLeafAtFree()
    ensures AtFree(TMap(map["key" := TMap(map["key" := TString("value")])]))
  {
    assert AtFree(TMap(map["key" := TString("value")]));
  }

  /** A map whose only key is `k`, holding `v`, is the one-entry map. */
  lemma SingleKey<V>(m: map<string, V>, k: string, v: V)
    requires m.Keys == {k} && m[k] == v
    ensures m == map[k := v]
  {
  }

  /** `test: {key: "value"}` then `@: {key: {key: "value"}}`: the broadcast
      map replaces the string under `test.key`. */
  lemma TopLevelBroadcastExample()
    ensures
      var kv := Field("key", None, Some(VString("value")));
      var leaf := TMap(map["key" := TString("value")]);
      ToMap([Field("test", None, Some(VMap([kv]))), Field("@", None, Some(VMap([Field("key", None, Some(VMap([kv])))])))])
        == Ok(map["test" := TMap(map["key" := leaf])])
  {
    var kv := Field("key", None, Some(VString("value")));
    var test := Field("test", None, Some(VMap([kv])));
    var key := Field("key", None, Some(VMap([kv])));
    var at := Field("@", None, Some(VMap([key])));
    var leaf := TMap(map["key" := TString("value")]);
    FinalMapOfOne(kv);
    FinalMapOfOne(key);
    var ret := map["test" := leaf];
    assert Step(map[], test) == Ok(ret);
    var b := TMap(map["key" := leaf]);
    assert FinalValue(at) == b;
    var out := map["test" := TMap(map["key" := leaf])];
    BroadcastIntoRootExample();
    assert Step(ret, at) == Ok(out);
    assert [test, at][0] == test && [test, at][1..] == [at];
    assert [at][0] == at && [at][1..] == [];
  }

  // ---------------------------------------------------------------------------
  // lookupIdentifierInRoot
  // ---------------------------------------------------------------------------

  /** A lookup error names one of the keys followed: missing, or not a map. */
  predicate FailsAt(e: Error, keys: seq<string>)
  {
    (e.NoSuchKey? && e.name in keys) || (e.NotAMap? && e.key in keys)
  }

  /** Follows `keys` down from `t`: each key must name an entry of a map. */
  function Descend(t: Tree, keys: seq<string>): (r: Result<Tree, Error>)
    ensures keys == [] ==> r == Ok(t)
    ensures keys != [] && !t.TMap? ==> r == Err(NotAMap(keys[0]))
    ensures keys != [] && t.TMap? && keys[0] !in t.m ==> r == Err(NoSuchKey(keys[0]))
    ensures r.Err? ==> FailsAt(r.error, keys)
  {
    if keys == [] then Ok(t)
    else if !t.TMap? then Err(NotAMap(keys[0]))
    else if keys[0] !in t.m then Err(NoSuchKey(keys[0]))
    else Descend(t.m[keys[0]], keys[1..])
  }

  /** `lookupIdentifierInRoot`: the dotted name split on `.`, followed from the
      converted root. */
  function LookupPath(root: map<string, Tree>, name: string): (r: Result<Tree, Error>)
    ensures r.Err? ==> FailsAt(r.error, Split(name, '.'))
    ensures root == map[] ==> r.Err?
  {
    Descend(TMap(root), Split(name, '.'))
  }

  /** Following a concatenated path follows the first part, then the second. */
  lemma {:induction false} DescendAppend(t: Tree, a: seq<string>, b: seq<string>)
    ensures Descend(t, a + b) == match Descend(t, a) case Ok(u) => Descend(u, b) case Err(e) => Err(e)
    decreases |a|
  {
    if a == [] {
      assert a + b == b;
    } else {
      assert (a + b)[0] == a[0] && (a + b)[1..] == a[1..] + b;
      if t.TMap? && a[0] in t.m {
        DescendAppend(t.m[a[0]], a[1..], b);
      }
    }
  }

  /** A single name looks up a top-level key, and a name without dots is not
      split. */
  lemma LookupSingleKey(root: map<string, Tree>, name: string)
    requires '.' !in name
    ensures name in root ==> LookupPath(root, name) == Ok(root[name])
    ensures name !in root ==> LookupPath(root, name) == Err(NoSuchKey(name))
  {
    SplitNoSeparator(name, '.');
    assert [name][1..] == [];
  }
}
