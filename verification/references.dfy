/** Reference resolution (`findIdentifierInMap`, `findIdentifierInConfig`,
    `reverseIdentifiersInMap`, `FigureConfig.reverseIdentifiers`): every
    identifier value, at the top level or anywhere inside a map value, is
    replaced by the value it names, looked up among the entries up to and
    including its own. Entries are rewritten in order and in place, so a
    lookup sees earlier entries already rewritten, and inside the current
    entry sees the fields before it already rewritten. */
module References {
  import opened Results
  import opened Strings
  import opened Ast
  import opened Seqs

  // ---------------------------------------------------------------------------
  // Lookup
  // ---------------------------------------------------------------------------

  /** `findIdentifierInMap`: the value of the first field called `name`, which
      is `None` for a bare key. */
  function FindInMap(name: string, fs: seq<Field>): (r: Result<Option<Value>, Error>)
    ensures r.Ok? <==> HasKey(fs, name)
    ensures forall j :: IsFirstKey(fs, name, j) ==> r == Ok(fs[j].value)
    ensures !HasKey(fs, name) ==> r == Err(NoSuchKey(name))
  {
    if fs == [] then Err(NoSuchKey(name))
    else if fs[0].key == name then Ok(fs[0].value)
    else
      var r := FindInMap(name, fs[1..]);
      assert forall j :: IsFirstKey(fs, name, j) ==> IsFirstKey(fs[1..], name, j - 1);
      assert HasKey(fs[1..], name) ==> HasKey(fs, name) by {
        if HasKey(fs[1..], name) {
          var j :| 0 <= j < |fs[1..]| && fs[1..][j].key == name;
          assert fs[j + 1].key == name;
        }
      }
      r
  }

  /** The fields a Go `Value` holds in `Map`: none unless it is a map. */
  function MapFields(v: Value): seq<Field>
  {
    if v.VMap? then v.fields else []
  }

  /** The walk of `findIdentifierInConfig` below the first segment: each
      segment is looked up in the fields of the value reached so far. A bare
      key on the way is a nil dereference; any other non-map has no field. */
  function Walk(cur: Option<Value>, segs: seq<string>): (r: Result<Option<Value>, Error>)
    ensures segs == [] ==> r == Ok(cur)
    ensures segs != [] && cur.None? ==> r == Err(NilDereference(segs[0]))
    ensures segs != [] && cur.Some? && !HasKey(MapFields(cur.value), segs[0]) ==> r == Err(NoSuchKey(segs[0]))
    decreases |segs|
  {
    if segs == [] then Ok(cur)
    else
      match cur
      case None => Err(NilDereference(segs[0]))
      case Some(v) =>
        var next :- FindInMap(segs[0], MapFields(v));
        Walk(next, segs[1..])
  }

  /** Walking a longer path is walking its two halves in turn. */
  lemma {:induction false} WalkAppend(cur: Option<Value>, a: seq<string>, b: seq<string>)
    ensures Walk(cur, a + b) == (var m :- Walk(cur, a); Walk(m, b))
    decreases |a|
  {
    if a == [] {
      assert a + b == b;
    } else if cur.Some? {
      assert (a + b)[0] == a[0] && (a + b)[1..] == a[1..] + b;
      var next := FindInMap(a[0], MapFields(cur.value));
      if next.Ok? {
        WalkAppend(next.value, a[1..], b);
      }
    }
  }

  /** An entry a multi-segment reference can commit to: the right key and a
      (non-empty) map value. */
  predicate IsMapEntry(f: Field, k: string)
  {
    f.key == k && f.value.Some? && IsMap(f.value.value)
  }

  predicate HasMapEntry(fs: seq<Field>, k: string)
  {
    exists j :: 0 <= j < |fs| && IsMapEntry(fs[j], k)
  }

  /** `j` is the first entry a multi-segment reference to `k…` commits to. */
  predicate IsFirstMapEntry(fs: seq<Field>, k: string, j: int)
  {
    0 <= j < |fs| && IsMapEntry(fs[j], k) && forall i :: 0 <= i < j ==> !IsMapEntry(fs[i], k)
  }

  /** `findIdentifierInConfig`: the reference split on `.` and looked up in the
      top-level entries. */
  function FindInConfig(ident: string, entries: seq<Field>): (r: Result<Option<Value>, Error>)
    ensures '.' !in ident ==>
      && (forall j :: IsFirstKey(entries, ident, j) ==> r == Ok(entries[j].value))
      && (!HasKey(entries, ident) ==> r == Err(NoSuchKey(ident)))
  {
    var parts := Split(ident, '.');
    assert '.' !in ident ==> parts == [ident] by {
      if '.' !in ident {
        SplitNoSeparator(ident, '.');
      }
    }
    Scan(ident, parts, entries)
  }

  /** The scan over the entries. A one-segment reference returns the first entry
      with that key, bare or not; a longer one commits to the first entry with
      that key and a map value, and walks the rest of the path inside it. */
  function Scan(ident: string, parts: seq<string>, entries: seq<Field>): (r: Result<Option<Value>, Error>)
    requires |parts| >= 1
    ensures |parts| == 1 ==>
      && (forall j :: IsFirstKey(entries, parts[0], j) ==> r == Ok(entries[j].value))
      && (!HasKey(entries, parts[0]) ==> r == Err(NoSuchKey(ident)))
    ensures |parts| > 1 ==>
      && (forall j :: IsFirstMapEntry(entries, parts[0], j) ==> r == Walk(entries[j].value, parts[1..]))
      && (!HasMapEntry(entries, parts[0]) ==> r == Err(NoSuchKey(ident)))
  {
    if entries == [] then Err(NoSuchKey(ident))
    else
      var f := entries[0];
      var r :=
        if |parts| == 1 then
          if f.key == parts[0] then Ok(f.value) else Scan(ident, parts, entries[1..])
        else if f.value.None? then Scan(ident, parts, entries[1..])
        else if f.key == parts[0] && IsMap(f.value.value) then Walk(f.value, parts[1..])
        else Scan(ident, parts, entries[1..]);
      ScanTail(entries, parts[0]);
      r
  }

  /** First positions and absence carry over from the entries to their tail. */
  lemma ScanTail(entries: seq<Field>, k: string)
    requires entries != []
    ensures forall j :: IsFirstKey(entries, k, j) && j > 0 ==> IsFirstKey(entries[1..], k, j - 1)
    ensures forall j :: IsFirstMapEntry(entries, k, j) && j > 0 ==> IsFirstMapEntry(entries[1..], k, j - 1)
    ensures !HasKey(entries, k) ==> !HasKey(entries[1..], k)
    ensures !HasMapEntry(entries, k) ==> !HasMapEntry(entries[1..], k)
  {
    if HasKey(entries[1..], k) {
      var j :| 0 <= j < |entries[1..]| && entries[1..][j].key == k;
      assert entries[j + 1].key == k;
    }
    if HasMapEntry(entries[1..], k) {
      var j :| 0 <= j < |entries[1..]| && IsMapEntry(entries[1..][j], k);
      assert IsMapEntry(entries[j + 1], k);
    }
  }

  /** Whether the scan stops within `entries` (rather than running past them). */
  predicate Finds(parts: seq<string>, entries: seq<Field>)
    requires |parts| >= 1
  {
    if |parts| == 1 then HasKey(entries, parts[0]) else HasMapEntry(entries, parts[0])
  }

  /** Entries after the one a reference stops at are never consulted; when no
      entry of `a` stops it, the result is what `b` alone gives. */
  lemma {:induction false} ScanAppend(ident: string, parts: seq<string>, a: seq<Field>, b: seq<Field>)
    requires |parts| >= 1
    ensures Finds(parts, a) ==> Scan(ident, parts, a + b) == Scan(ident, parts, a)
    ensures !Finds(parts, a) ==> Scan(ident, parts, a + b) == Scan(ident, parts, b)
    decreases |a|
  {
    if a == [] {
      assert a + b == b;
    } else {
      assert (a + b)[0] == a[0] && (a + b)[1..] == a[1..] + b;
      ScanAppend(ident, parts, a[1..], b);
      FindsCons(parts, a);
    }
  }

  /** Whether the scan stops in a list: at its first entry or in the rest. */
  lemma FindsCons(parts: seq<string>, a: seq<Field>)
    requires |parts| >= 1 && a != []
    ensures |parts| == 1 ==> (Finds(parts, a) <==> a[0].key == parts[0] || Finds(parts, a[1..]))
    ensures |parts| > 1 ==> (Finds(parts, a) <==> IsMapEntry(a[0], parts[0]) || Finds(parts, a[1..]))
  {
    if HasKey(a[1..], parts[0]) {
      var j :| 0 <= j < |a[1..]| && a[1..][j].key == parts[0];
      assert a[j + 1].key == parts[0];
    }
    if HasMapEntry(a[1..], parts[0]) {
      var j :| 0 <= j < |a[1..]| && IsMapEntry(a[1..][j], parts[0]);
      assert IsMapEntry(a[j + 1], parts[0]);
    }
    if HasKey(a, parts[0]) && a[0].key != parts[0] {
      var j :| 0 <= j < |a| && a[j].key == parts[0];
      assert a[1..][j - 1].key == parts[0];
    }
    if HasMapEntry(a, parts[0]) && !IsMapEntry(a[0], parts[0]) {
      var j :| 0 <= j < |a| && IsMapEntry(a[j], parts[0]);
      assert IsMapEntry(a[1..][j - 1], parts[0]);
    }
  }

  // ---------------------------------------------------------------------------
  // Rewriting
  // ---------------------------------------------------------------------------

  /** One level of the entry being rewritten, around the map being worked on:
      at this level the field list is `before + [key: {…}] + after`. */
  datatype Frame = Frame(before: seq<Field>, key: string, child: Option<Field>, after: seq<Field>)

  /** The entry being rewritten (`key`, `child`) and the levels between it and
      the map being worked on, outermost first. */
  datatype Context = Context(key: string, child: Option<Field>, frames: seq<Frame>)

  /** The field list at the outermost frame with `fs` put in the hole. */
  function Plug(frames: seq<Frame>, fs: seq<Field>): seq<Field>
    decreases |frames|
  {
    if frames == [] then fs
    else frames[0].before + [Field(frames[0].key, frames[0].child, Some(VMap(Plug(frames[1..], fs))))] + frames[0].after
  }

  /** The entry being rewritten, in its current state. */
  function Current(ctx: Context, fs: seq<Field>): Field
  {
    Field(ctx.key, ctx.child, Some(VMap(Plug(ctx.frames, fs))))
  }

  /** `reverseIdentifiersInMap` from field `todo[0]` on. `prefix` holds the
      earlier entries (already rewritten), `done` the fields of this map already
      rewritten. */
  function ResolveMap(prefix: seq<Field>, ctx: Context, done: seq<Field>, todo: seq<Field>): (r: Result<seq<Field>, Error>)
    ensures r.Ok? ==> Keys(r.value) == Keys(done) + Keys(todo)
    decreases FieldsSize(todo), 1
  {
    if todo == [] then
      assert done + todo == done;
      Ok(done)
    else
      var f :- ResolveField(prefix, ctx, done, todo[0], todo[1..]);
      var r := ResolveMap(prefix, ctx, done + [f], todo[1..]);
      KeysShift(done, todo, f);
      r
  }

  /** One field of a map: a bare key or a plain value is kept, a map is
      rewritten inside, an identifier is replaced by what it names. */
  function ResolveField(prefix: seq<Field>, ctx: Context, done: seq<Field>, f: Field, rest: seq<Field>): (r: Result<Field, Error>)
    ensures r.Ok? ==> r.value.key == f.key && r.value.child == f.child
    ensures f.value.None? ==> r == Ok(f)
    ensures f.value.Some? && !IsMap(f.value.value) && !f.value.value.VIdent? ==> r == Ok(f)
    decreases FieldSize(f), 0
  {
    match f.value
    case None => Ok(f)
    case Some(v) =>
      if IsMap(v) then
        assert FieldsSize(v.fields) < ValueSize(v) <= FieldSize(f);
        var inner :- ResolveMap(prefix, Context(ctx.key, ctx.child, ctx.frames + [Frame(done, f.key, f.child, rest)]), [], v.fields);
        Ok(Field(f.key, f.child, Some(VMap(inner))))
      else if v.VIdent? then
        var found :- FindInConfig(v.name, prefix + [Current(ctx, done + [f] + rest)]);
        Ok(Field(f.key, f.child, found))
      else Ok(f)
  }

  /** A field holding an identifier is replaced by what the name denotes in
      the earlier entries and the current entry as it stands, or fails with
      the lookup's error; a map stays a map with the same keys. */
  lemma ResolveFieldReplaces(prefix: seq<Field>, ctx: Context, done: seq<Field>, f: Field, rest: seq<Field>)
    ensures var r := ResolveField(prefix, ctx, done, f, rest);
      && (f.value.Some? && f.value.value.VIdent? ==>
           var found := FindInConfig(f.value.value.name, prefix + [Current(ctx, done + [f] + rest)]);
           && (r.Ok? <==> found.Ok?)
           && (found.Ok? ==> r.value == Field(f.key, f.child, found.value))
           && (found.Err? ==> r.error == found.error))
      && (f.value.Some? && IsMap(f.value.value) && r.Ok? ==>
           r.value.value.Some? && IsMap(r.value.value.value) && Keys(r.value.value.value.fields) == Keys(f.value.value.fields))
  {
    if f.value.Some? && IsMap(f.value.value) {
      var v := f.value.value;
      var ctx' := Context(ctx.key, ctx.child, ctx.frames + [Frame(done, f.key, f.child, rest)]);
      var inner := ResolveMap(prefix, ctx', [], v.fields);
      if inner.Ok? {
        assert Keys([]) == [];
        assert Keys(inner.value) == Keys(v.fields);
      }
    }
  }

  /** A top-level entry holding an identifier is replaced by what the name
      denotes in the entries up to and including itself, or fails with the
      lookup's error; a map stays a map with the same keys. */
  lemma ResolveTopReplaces(done: seq<Field>, f: Field)
    ensures var r := ResolveTop(done, f);
      && (f.value.Some? && f.value.value.VIdent? ==>
           var found := FindInConfig(f.value.value.name, done + [f]);
           && (r.Ok? <==> found.Ok?)
           && (found.Ok? ==> r.value == Field(f.key, f.child, found.value))
           && (found.Err? ==> r.error == found.error))
      && (f.value.Some? && IsMap(f.value.value) && r.Ok? ==>
           r.value.value.Some? && IsMap(r.value.value.value) && Keys(r.value.value.value.fields) == Keys(f.value.value.fields))
  {
    if f.value.Some? && IsMap(f.value.value) {
      var inner := ResolveMap(done, Context(f.key, f.child, []), [], f.value.value.fields);
      if inner.Ok? {
        assert Keys([]) == [];
        assert Keys(inner.value) == Keys(f.value.value.fields);
      }
    }
  }

  /** `out` is `done` followed by the first `n` entries of `todo`, each
      rewritten by `ResolveTop` against the rewritten entries before it. */
  predicate EntriesResolveTo(done: seq<Field>, todo: seq<Field>, n: nat, out: seq<Field>)
  {
    && n <= |todo| && |out| == |done| + n && out[..|done|] == done
    && forall i :: 0 <= i < n ==> EntryResolvesTo(done, todo, out, i)
  }

  /** Entry `i` of `todo` is rewritten to its place in `out`. */
  predicate EntryResolvesTo(done: seq<Field>, todo: seq<Field>, out: seq<Field>, i: nat)
    requires i < |todo| && |done| + i < |out|
  {
    ResolveTop(out[..|done| + i], todo[i]) == Ok(out[|done| + i])
  }

  /** `FigureConfig.reverseIdentifiers` from entry `todo[0]` on; `done` holds
      the entries before it, already rewritten. The entries already passed are
      never rewritten again, and each later one is rewritten against the
      rewritten entries before it and itself. */
  function ResolveEntries(done: seq<Field>, todo: seq<Field>): (r: Result<seq<Field>, Error>)
    ensures r.Ok? ==> Keys(r.value) == Keys(done) + Keys(todo)
    ensures r.Ok? ==> EntriesResolveTo(done, todo, |todo|, r.value)
    decreases |todo|
  {
    if todo == [] then
      assert done + todo == done;
      Ok(done)
    else
      var f :- ResolveTop(done, todo[0]);
      var r := ResolveEntries(done + [f], todo[1..]);
      ResolveEntriesStep(done, todo, f, r);
      r
  }

  /** Moving the first entry of `todo` to the end of `done` keeps the keys. */
  lemma KeysShift(done: seq<Field>, todo: seq<Field>, f: Field)
    requires todo != [] && f.key == todo[0].key
    ensures Keys(done + [f]) + Keys(todo[1..]) == Keys(done) + Keys(todo)
  {
    var l, r := Keys(done + [f]) + Keys(todo[1..]), Keys(done) + Keys(todo);
    var d := |done|;
    forall i | 0 <= i < |l|
      ensures l[i] == r[i]
    {
      if i < d {
        assert (done + [f])[i] == done[i];
      } else if i > d {
        assert todo[1..][i - d - 1] == todo[i - d];
      }
    }
  }

  /** Once the first entry is rewritten, the pass goes on from there. */
  lemma ResolveEntriesCons(done: seq<Field>, todo: seq<Field>, f: Field)
    requires todo != [] && ResolveTop(done, todo[0]) == Ok(f)
    ensures ResolveEntries(done, todo) == ResolveEntries(done + [f], todo[1..])
  {
  }

  /** What the rest of the pass promises, carried back over its first entry. */
  lemma ResolveEntriesStep(done: seq<Field>, todo: seq<Field>, f: Field, r: Result<seq<Field>, Error>)
    requires todo != [] && ResolveTop(done, todo[0]) == Ok(f)
    requires r.Ok? ==> Keys(r.value) == Keys(done + [f]) + Keys(todo[1..])
    requires r.Ok? ==> EntriesResolveTo(done + [f], todo[1..], |todo| - 1, r.value)
    ensures r.Ok? ==> Keys(r.value) == Keys(done) + Keys(todo)
    ensures r.Ok? ==> EntriesResolveTo(done, todo, |todo|, r.value)
  {
    if r.Ok? {
      KeysShift(done, todo, f);
      assert r.value[|done|] == r.value[..|done| + 1][|done|] == f;
      EntriesResolveToCons(done, todo, |todo|, r.value);
    }
  }

  /** Entry by entry: the first entry is rewritten against `done`, and the
      rest against `done` and that rewritten entry. */
  lemma EntriesResolveToCons(done: seq<Field>, todo: seq<Field>, n: nat, out: seq<Field>)
    requires 1 <= n <= |todo| && |out| == |done| + n
    ensures EntriesResolveTo(done, todo, n, out) <==>
      && ResolveTop(done, todo[0]) == Ok(out[|done|])
      && EntriesResolveTo(done + [out[|done|]], todo[1..], n - 1, out)
  {
    var d := |done|;
    var done' := done + [out[d]];
    forall i | 0 <= i < n - 1
      ensures EntryResolvesTo(done', todo[1..], out, i) <==> EntryResolvesTo(done, todo, out, i + 1)
    {
      EntryResolvesShift(done, todo, out, i);
    }
    if out[..d] == done {
      assert out[..d + 1] == done';
      EntryResolvesFirst(done, todo, out);
      if EntriesResolveTo(done', todo[1..], n - 1, out) && ResolveTop(done, todo[0]) == Ok(out[d]) {
        forall i | 0 <= i < n
          ensures EntryResolvesTo(done, todo, out, i)
        {
          if i > 0 {
            assert EntryResolvesTo(done', todo[1..], out, i - 1);
          }
        }
      }
    }
    if out[..d + 1] == done' {
      assert out[..d] == out[..d + 1][..d];
    }
  }

  /** Entry `i + 1` of `todo` after `done` is entry `i` of `todo[1..]` after
      `done` and the first rewritten entry. */
  lemma EntryResolvesShift(done: seq<Field>, todo: seq<Field>, out: seq<Field>, i: nat)
    requires i + 1 < |todo| && |done| + i + 1 < |out|
    ensures EntryResolvesTo(done + [out[|done|]], todo[1..], out, i)
        <==> EntryResolvesTo(done, todo, out, i + 1)
  {
    TailShift(todo, i);
    assert |done + [out[|done|]]| + i == |done| + (i + 1);
  }

  /** The first entry of `todo` is rewritten with exactly `done` before it. */
  lemma EntryResolvesFirst(done: seq<Field>, todo: seq<Field>, out: seq<Field>)
    requires 1 <= |todo| && |done| < |out| && out[..|done|] == done
    ensures EntryResolvesTo(done, todo, out, 0) <==> ResolveTop(done, todo[0]) == Ok(out[|done|])
  {
    assert out[..|done| + 0] == done;
  }

  /** The pass yields `out` exactly when every entry of `out` is the entry
      rewritten against the rewritten entries before it. */
  lemma {:induction false} ResolveEntriesSteps(done: seq<Field>, todo: seq<Field>, out: seq<Field>)
    ensures ResolveEntries(done, todo) == Ok(out) <==> EntriesResolveTo(done, todo, |todo|, out)
    decreases |todo|
  {
    if EntriesResolveTo(done, todo, |todo|, out) {
      if todo == [] {
        assert out == out[..|done|];
      } else {
        EntriesResolveToCons(done, todo, |todo|, out);
        ResolveEntriesSteps(done + [out[|done|]], todo[1..], out);
      }
    }
  }

  /** The pass fails with `e` exactly when, after some prefix of the entries
      has been rewritten, the next entry's rewrite fails with `e`. */
  lemma ResolveEntriesFails(done: seq<Field>, todo: seq<Field>, e: Error)
    ensures ResolveEntries(done, todo) == Err(e) <==>
      exists n: nat, mid :: n < |todo| && EntriesResolveTo(done, todo, n, mid) && ResolveTop(mid, todo[n]) == Err(e)
  {
    if ResolveEntries(done, todo) == Err(e) {
      FailingEntry(done, todo, e);
    }
    if exists n: nat, mid :: n < |todo| && EntriesResolveTo(done, todo, n, mid) && ResolveTop(mid, todo[n]) == Err(e) {
      var n: nat, mid :| n < |todo| && EntriesResolveTo(done, todo, n, mid) && ResolveTop(mid, todo[n]) == Err(e);
      FailsAtEntry(done, todo, e, n, mid);
    }
  }

  /** A failed pass stopped at some entry whose rewrite failed. */
  lemma {:induction false} FailingEntry(done: seq<Field>, todo: seq<Field>, e: Error)
    requires ResolveEntries(done, todo) == Err(e)
    ensures exists n: nat, mid :: n < |todo| && EntriesResolveTo(done, todo, n, mid) && ResolveTop(mid, todo[n]) == Err(e)
    decreases |todo|
  {
    var f := ResolveTop(done, todo[0]);
    if f.Ok? {
      assert ResolveEntries(done + [f.value], todo[1..]) == Err(e);
      FailingEntry(done + [f.value], todo[1..], e);
      var n: nat, mid :| n < |todo[1..]| && EntriesResolveTo(done + [f.value], todo[1..], n, mid) && ResolveTop(mid, todo[1..][n]) == Err(e);
      assert mid[|done|] == mid[..|done| + 1][|done|] == f.value;
      EntriesResolveToCons(done, todo, n + 1, mid);
      assert todo[1..][n] == todo[n + 1];
      assert EntriesResolveTo(done, todo, n + 1, mid) && ResolveTop(mid, todo[n + 1]) == Err(e);
    } else {
      assert f == Err(e);
      assert EntriesResolveTo(done, todo, 0, done);
    }
  }

  /** An entry whose rewrite fails after the entries before it were rewritten
      makes the whole pass fail with that error. */
  lemma {:induction false} FailsAtEntry(done: seq<Field>, todo: seq<Field>, e: Error, n: nat, mid: seq<Field>)
    requires n < |todo| && EntriesResolveTo(done, todo, n, mid) && ResolveTop(mid, todo[n]) == Err(e)
    ensures ResolveEntries(done, todo) == Err(e)
    decreases n
  {
    if n == 0 {
      assert mid == mid[..|done|];
    } else {
      EntriesResolveToCons(done, todo, n, mid);
      assert todo[1..][n - 1] == todo[n];
      FailsAtEntry(done + [mid[|done|]], todo[1..], e, n - 1, mid);
    }
  }

  /** One top-level entry, looked up against the entries up to and including
      itself. */
  function ResolveTop(done: seq<Field>, f: Field): (r: Result<Field, Error>)
    ensures r.Ok? ==> r.value.key == f.key && r.value.child == f.child
    ensures f.value.None? ==> r == Ok(f)
    ensures f.value.Some? && !IsMap(f.value.value) && !f.value.value.VIdent? ==> r == Ok(f)
  {
    match f.value
    case None => Ok(f)
    case Some(v) =>
      if IsMap(v) then
        var inner :- ResolveMap(done, Context(f.key, f.child, []), [], v.fields);
        Ok(Field(f.key, f.child, Some(VMap(inner))))
      else if v.VIdent? then
        var found :- FindInConfig(v.name, done + [f]);
        Ok(Field(f.key, f.child, found))
      else Ok(f)
  }

  /** The whole pass over the top-level fields. */
  function ReverseIdentifiers(entries: seq<Field>): (r: Result<seq<Field>, Error>)
    ensures r.Ok? ==> Keys(r.value) == Keys(entries)
  {
    ResolveEntries([], entries)
  }

  /** Later entries never change how earlier ones resolve: entry `i` sees only
      entries `0..i`. */
  lemma {:induction false} ResolveEntriesAppend(done: seq<Field>, a: seq<Field>, b: seq<Field>)
    ensures ResolveEntries(done, a + b) == (var m :- ResolveEntries(done, a); ResolveEntries(m, b))
    decreases |a|
  {
    if a == [] {
      assert a + b == b;
    } else {
      assert (a + b)[0] == a[0] && (a + b)[1..] == a[1..] + b;
      var f := ResolveTop(done, a[0]);
      if f.Ok? {
        ResolveEntriesAppend(done + [f.value], a[1..], b);
      }
    }
  }

  /** If the whole list resolves, its first `|a|` entries resolve on their own
      to the same fields. */
  lemma PrefixResolvesAlike(a: seq<Field>, b: seq<Field>)
    requires ReverseIdentifiers(a + b).Ok?
    ensures ReverseIdentifiers(a).Ok?
    ensures ReverseIdentifiers(a).value == ReverseIdentifiers(a + b).value[..|a|]
  {
    ResolveEntriesAppend([], a, b);
  }

  // ---------------------------------------------------------------------------
  // What the pass computes
  // ---------------------------------------------------------------------------

  /** `out` is `done` followed by the first `n` fields of `todo`, each rewritten
      by `ResolveField` with the rewritten fields before it and the fields
      after it still as written. */
  predicate MapResolvesTo(prefix: seq<Field>, ctx: Context, done: seq<Field>, todo: seq<Field>, n: nat, out: seq<Field>)
  {
    && n <= |todo| && |out| == |done| + n && out[..|done|] == done
    && forall i :: 0 <= i < n ==> FieldResolvesTo(prefix, ctx, done, todo, out, i)
  }

  /** Field `i` of `todo` is rewritten to its place in `out`. */
  predicate FieldResolvesTo(prefix: seq<Field>, ctx: Context, done: seq<Field>, todo: seq<Field>, out: seq<Field>, i: nat)
    requires i < |todo| && |done| + i < |out|
  {
    ResolveField(prefix, ctx, out[..|done| + i], todo[i], todo[i + 1..]) == Ok(out[|done| + i])
  }

  /** Field by field: the first field is rewritten with `done` before it, and
      the rest with `done` and that rewritten field before them. */
  lemma MapResolvesToCons(prefix: seq<Field>, ctx: Context, done: seq<Field>, todo: seq<Field>, n: nat, out: seq<Field>)
    requires 1 <= n <= |todo| && |out| == |done| + n
    ensures MapResolvesTo(prefix, ctx, done, todo, n, out) <==>
      && ResolveField(prefix, ctx, done, todo[0], todo[1..]) == Ok(out[|done|])
      && MapResolvesTo(prefix, ctx, done + [out[|done|]], todo[1..], n - 1, out)
  {
    var d := |done|;
    var done' := done + [out[d]];
    forall i | 0 <= i < n - 1
      ensures FieldResolvesTo(prefix, ctx, done', todo[1..], out, i) <==> FieldResolvesTo(prefix, ctx, done, todo, out, i + 1)
    {
      FieldResolvesShift(prefix, ctx, done, todo, out, i);
    }
    if out[..d] == done {
      assert out[..d + 1] == done';
      FieldResolvesFirst(prefix, ctx, done, todo, out);
      if MapResolvesTo(prefix, ctx, done', todo[1..], n - 1, out) && ResolveField(prefix, ctx, done, todo[0], todo[1..]) == Ok(out[d]) {
        forall i | 0 <= i < n
          ensures FieldResolvesTo(prefix, ctx, done, todo, out, i)
        {
          if i > 0 {
            assert FieldResolvesTo(prefix, ctx, done', todo[1..], out, i - 1);
          }
        }
      }
    }
    if out[..d + 1] == done' {
      assert out[..d] == out[..d + 1][..d];
    }
  }

  /** Field `i + 1` of `todo` after `done` is field `i` of `todo[1..]` after
      `done` and the first rewritten field. */
  lemma FieldResolvesShift(prefix: seq<Field>, ctx: Context, done: seq<Field>, todo: seq<Field>, out: seq<Field>, i: nat)
    requires i + 1 < |todo| && |done| + i + 1 < |out|
    ensures FieldResolvesTo(prefix, ctx, done + [out[|done|]], todo[1..], out, i)
        <==> FieldResolvesTo(prefix, ctx, done, todo, out, i + 1)
  {
    TailShift(todo, i);
    assert |done + [out[|done|]]| + i == |done| + (i + 1);
  }

  /** The first field of `todo` is rewritten with exactly `done` before it. */
  lemma FieldResolvesFirst(prefix: seq<Field>, ctx: Context, done: seq<Field>, todo: seq<Field>, out: seq<Field>)
    requires 1 <= |todo| && |done| < |out| && out[..|done|] == done
    ensures FieldResolvesTo(prefix, ctx, done, todo, out, 0)
        <==> ResolveField(prefix, ctx, done, todo[0], todo[1..]) == Ok(out[|done|])
  {
    assert out[..|done| + 0] == done;
  }

  /** Rewriting a map yields `out` exactly when every field of `out` is that
      field rewritten with the rewritten fields before it. */
  lemma ResolveMapSteps(prefix: seq<Field>, ctx: Context, done: seq<Field>, todo: seq<Field>, out: seq<Field>)
    ensures ResolveMap(prefix, ctx, done, todo) == Ok(out) <==> MapResolvesTo(prefix, ctx, done, todo, |todo|, out)
  {
    if ResolveMap(prefix, ctx, done, todo) == Ok(out) {
      ResolvedMapSteps(prefix, ctx, done, todo);
    }
    if MapResolvesTo(prefix, ctx, done, todo, |todo|, out) {
      StepsResolveMap(prefix, ctx, done, todo, out);
    }
  }

  lemma {:induction false} ResolvedMapSteps(prefix: seq<Field>, ctx: Context, done: seq<Field>, todo: seq<Field>)
    requires ResolveMap(prefix, ctx, done, todo).Ok?
    ensures MapResolvesTo(prefix, ctx, done, todo, |todo|, ResolveMap(prefix, ctx, done, todo).value)
    decreases |todo|
  {
    var out := ResolveMap(prefix, ctx, done, todo).value;
    if todo == [] {
      assert out == done;
    } else {
      var f := ResolveField(prefix, ctx, done, todo[0], todo[1..]).value;
      assert ResolveMap(prefix, ctx, done + [f], todo[1..]) == Ok(out);
      ResolvedMapSteps(prefix, ctx, done + [f], todo[1..]);
      assert out[|done|] == out[..|done| + 1][|done|] == f;
      MapResolvesToCons(prefix, ctx, done, todo, |todo|, out);
    }
  }

  lemma {:induction false} StepsResolveMap(prefix: seq<Field>, ctx: Context, done: seq<Field>, todo: seq<Field>, out: seq<Field>)
    requires MapResolvesTo(prefix, ctx, done, todo, |todo|, out)
    ensures ResolveMap(prefix, ctx, done, todo) == Ok(out)
    decreases |todo|
  {
    if todo == [] {
      assert out == out[..|done|];
    } else {
      MapResolvesToCons(prefix, ctx, done, todo, |todo|, out);
      StepsResolveMap(prefix, ctx, done + [out[|done|]], todo[1..], out);
    }
  }

  /** The fields before `n` were rewritten to `mid`, and field `n` fails with `e`. */
  predicate MapFailsAt(prefix: seq<Field>, ctx: Context, done: seq<Field>, todo: seq<Field>, n: nat, mid: seq<Field>, e: Error)
  {
    n < |todo| && MapResolvesTo(prefix, ctx, done, todo, n, mid) && ResolveField(prefix, ctx, mid, todo[n], todo[n + 1..]) == Err(e)
  }

  /** A failed rewrite stopped at some field whose rewrite failed. */
  lemma {:induction false} FailingField(prefix: seq<Field>, ctx: Context, done: seq<Field>, todo: seq<Field>, e: Error)
    requires ResolveMap(prefix, ctx, done, todo) == Err(e)
    ensures exists n: nat, mid :: MapFailsAt(prefix, ctx, done, todo, n, mid, e)
    decreases |todo|
  {
    var f := ResolveField(prefix, ctx, done, todo[0], todo[1..]);
    if f.Ok? {
      assert ResolveMap(prefix, ctx, done + [f.value], todo[1..]) == Err(e);
      FailingField(prefix, ctx, done + [f.value], todo[1..], e);
      var n: nat, mid :| MapFailsAt(prefix, ctx, done + [f.value], todo[1..], n, mid, e);
      assert mid[|done|] == mid[..|done| + 1][|done|] == f.value;
      MapResolvesToCons(prefix, ctx, done, todo, n + 1, mid);
      assert todo[1..][n] == todo[n + 1] && todo[1..][n + 1..] == todo[n + 2..];
      assert MapFailsAt(prefix, ctx, done, todo, n + 1, mid, e);
    } else {
      assert f == Err(e);
      assert MapFailsAt(prefix, ctx, done, todo, 0, done, e);
    }
  }

  /** A field whose rewrite fails after the fields before it were rewritten
      makes the whole map fail with that error. */
  lemma FailsAtField(prefix: seq<Field>, ctx: Context, done: seq<Field>, todo: seq<Field>, e: Error, n: nat, mid: seq<Field>)
    requires MapFailsAt(prefix, ctx, done, todo, n, mid, e)
    ensures ResolveMap(prefix, ctx, done, todo) == Err(e)
  {
    ResumeMap(prefix, ctx, done, todo, n, mid);
    assert todo[n..][0] == todo[n] && todo[n..][1..] == todo[n + 1..];
  }

  /** Once the first `n` fields have been rewritten to `mid`, the rewrite goes
      on from `mid` with the remaining fields. */
  lemma {:induction false} ResumeMap(prefix: seq<Field>, ctx: Context, done: seq<Field>, todo: seq<Field>, n: nat, mid: seq<Field>)
    requires MapResolvesTo(prefix, ctx, done, todo, n, mid)
    ensures ResolveMap(prefix, ctx, done, todo) == ResolveMap(prefix, ctx, mid, todo[n..])
    decreases n
  {
    if n == 0 {
      assert mid == mid[..|done|] && todo[0..] == todo;
    } else {
      var f := mid[|done|];
      MapResolvesToCons(prefix, ctx, done, todo, n, mid);
      ResumeMap(prefix, ctx, done + [f], todo[1..], n - 1, mid);
      assert todo[1..][n - 1..] == todo[n..];
      ResolveMapCons(prefix, ctx, done, todo, f);
    }
  }

  /** A first field that rewrites to `f` moves to `done` as `f`. */
  lemma ResolveMapCons(prefix: seq<Field>, ctx: Context, done: seq<Field>, todo: seq<Field>, f: Field)
    requires todo != [] && ResolveField(prefix, ctx, done, todo[0], todo[1..]) == Ok(f)
    ensures ResolveMap(prefix, ctx, done, todo) == ResolveMap(prefix, ctx, done + [f], todo[1..])
  {
  }

  /** Rewriting a map fails with `e` exactly when, after some of its fields
      have been rewritten, the next field's rewrite fails with `e`. */
  lemma ResolveMapFails(prefix: seq<Field>, ctx: Context, done: seq<Field>, todo: seq<Field>, e: Error)
    ensures ResolveMap(prefix, ctx, done, todo) == Err(e) <==> exists n: nat, mid :: MapFailsAt(prefix, ctx, done, todo, n, mid, e)
  {
    if ResolveMap(prefix, ctx, done, todo) == Err(e) {
      FailingField(prefix, ctx, done, todo, e);
    }
    if exists n: nat, mid :: MapFailsAt(prefix, ctx, done, todo, n, mid, e) {
      var n: nat, mid :| MapFailsAt(prefix, ctx, done, todo, n, mid, e);
      FailsAtField(prefix, ctx, done, todo, e, n, mid);
    }
  }

  /** Inside a rewritten map, an identifier-valued field becomes what its name
      denotes in the earlier entries and the current entry, whose fields
      before it are already rewritten; its lookup succeeded. */
  lemma ResolveMapResolvesReference(prefix: seq<Field>, ctx: Context, done: seq<Field>, todo: seq<Field>, j: nat)
    requires ResolveMap(prefix, ctx, done, todo).Ok? && j < |todo|
    requires todo[j].value.Some? && todo[j].value.value.VIdent?
    ensures
      var out := ResolveMap(prefix, ctx, done, todo).value;
      var found := FindInConfig(todo[j].value.value.name, prefix + [Current(ctx, out[..|done| + j] + [todo[j]] + todo[j + 1..])]);
      && found.Ok?
      && out[|done| + j] == Field(todo[j].key, todo[j].child, found.value)
  {
    var out := ResolveMap(prefix, ctx, done, todo).value;
    ResolvedMapSteps(prefix, ctx, done, todo);
    assert FieldResolvesTo(prefix, ctx, done, todo, out, j);
    ResolveFieldReplaces(prefix, ctx, out[..|done| + j], todo[j], todo[j + 1..]);
  }

  /** After the whole pass, an identifier-valued entry is what its name denotes
      among the rewritten entries before it and itself; its lookup succeeded. */
  lemma ReverseIdentifiersResolvesReference(entries: seq<Field>, i: nat)
    requires ReverseIdentifiers(entries).Ok? && i < |entries|
    requires entries[i].value.Some? && entries[i].value.value.VIdent?
    ensures
      var out := ReverseIdentifiers(entries).value;
      var found := FindInConfig(entries[i].value.value.name, out[..i] + [entries[i]]);
      && found.Ok?
      && out[i] == Field(entries[i].key, entries[i].child, found.value)
  {
    var out := ReverseIdentifiers(entries).value;
    assert EntryResolvesTo([], entries, out, i);
    ResolveTopReplaces(out[..i], entries[i]);
  }

  /** After the whole pass, an identifier-valued field of a top-level map is
      what its name denotes among the rewritten entries before its entry and
      that entry as it stood when the field was reached (earlier fields
      rewritten, later ones not yet); its lookup succeeded. */
  lemma ReverseIdentifiersResolvesInMap(entries: seq<Field>, i: nat, j: nat)
    requires ReverseIdentifiers(entries).Ok? && i < |entries|
    requires entries[i].value.Some? && IsMap(entries[i].value.value)
    requires j < |entries[i].value.value.fields|
    requires entries[i].value.value.fields[j].value.Some? && entries[i].value.value.fields[j].value.value.VIdent?
    ensures
      var out := ReverseIdentifiers(entries).value;
      var fs := entries[i].value.value.fields;
      && out[i].value.Some? && IsMap(out[i].value.value) && |out[i].value.value.fields| == |fs|
      && var inner := out[i].value.value.fields;
         var found := FindInConfig(fs[j].value.value.name,
           out[..i] + [Field(entries[i].key, entries[i].child, Some(VMap(inner[..j] + [fs[j]] + fs[j + 1..])))]);
         && found.Ok?
         && inner[j] == Field(fs[j].key, fs[j].child, found.value)
  {
    var out := ReverseIdentifiers(entries).value;
    var fs := entries[i].value.value.fields;
    var ctx := Context(entries[i].key, entries[i].child, []);
    assert EntryResolvesTo([], entries, out, i);
    ResolveTopMap(out[..i], entries[i]);
    var inner := ResolveMap(out[..i], ctx, [], fs).value;
    ResolveMapResolvesReference(out[..i], ctx, [], fs, j);
    assert Current(ctx, inner[..j] + [fs[j]] + fs[j + 1..]) == Field(entries[i].key, entries[i].child, Some(VMap(inner[..j] + [fs[j]] + fs[j + 1..])));
  }

  /** A top-level map entry that resolves is its map with the fields rewritten,
      the entry itself being the context of its own fields. */
  lemma ResolveTopMap(done: seq<Field>, f: Field)
    requires ResolveTop(done, f).Ok? && f.value.Some? && IsMap(f.value.value)
    ensures var inner := ResolveMap(done, Context(f.key, f.child, []), [], f.value.value.fields);
      && inner.Ok? && |inner.value| == |f.value.value.fields|
      && ResolveTop(done, f).value == Field(f.key, f.child, Some(VMap(inner.value)))
  {
    var inner := ResolveMap(done, Context(f.key, f.child, []), [], f.value.value.fields);
    assert Keys(inner.value) == Keys([]) + Keys(f.value.value.fields);
  }

  /** `a: 1` then `b: a` resolves `b` to `1`. */
  lemma ResolveNameExample()
    ensures ReverseIdentifiers([Field("a", None, Some(VInt(1))), Field("b", None, Some(VIdent("a")))])
         == Ok([Field("a", None, Some(VInt(1))), Field("b", None, Some(VInt(1)))])
  {
    var a := Field("a", None, Some(VInt(1)));
    var b := Field("b", None, Some(VIdent("a")));
    var b' := Field("b", None, Some(VInt(1)));
    SplitNoSeparator("a", '.');
    assert FindInConfig("a", [a] + [b]) == Ok(Some(VInt(1))) by {
      assert IsFirstKey([a] + [b], "a", 0);
    }
    assert ResolveTop([], a) == Ok(a);
    assert [a, b][1..] == [b] && [b][1..] == [];
    assert ResolveTop([a], b) == Ok(b');
    assert ResolveEntries([a], [b]) == ResolveEntries([a] + [b'], []);
    assert [a] + [b'] == [a, b'];
    assert [] + [a] == [a];
    assert ResolveEntries([], [a, b]) == ResolveEntries([a], [b]);
  }

  /** `c: {x: 1}` then `d: c.x` resolves `d` to `1`. */
  lemma ResolvePathExample()
    ensures ReverseIdentifiers([Field("c", None, Some(VMap([Field("x", None, Some(VInt(1)))]))), Field("d", None, Some(VIdent("c.x")))])
         == Ok([Field("c", None, Some(VMap([Field("x", None, Some(VInt(1)))]))), Field("d", None, Some(VInt(1)))])
  {
    var x := Field("x", None, Some(VInt(1)));
    var c := Field("c", None, Some(VMap([x])));
    var d := Field("d", None, Some(VIdent("c.x")));
    var d' := Field("d", None, Some(VInt(1)));
    PathExampleSteps();
    assert [c, d][0] == c && [c, d][1..] == [d] && [d][0] == d && [d][1..] == [];
    assert [] + [c] == [c] && [c] + [d'] == [c, d'];
    ResolveEntriesCons([], [c, d], c);
    ResolveEntriesCons([c], [d], d');
    assert ResolveEntries([c, d'], []) == Ok([c, d']);
  }

  /** In that example, `c` is kept and `d` becomes 1. */
  lemma PathExampleSteps()
    ensures
      var c := Field("c", None, Some(VMap([Field("x", None, Some(VInt(1)))])));
      && ResolveTop([], c) == Ok(c)
      && ResolveTop([c], Field("d", None, Some(VIdent("c.x")))) == Ok(Field("d", None, Some(VInt(1))))
  {
    var x := Field("x", None, Some(VInt(1)));
    var c := Field("c", None, Some(VMap([x])));
    assert ResolveMap([], Context("c", None, []), [], [x]) == Ok([x]) by {
      assert ResolveField([], Context("c", None, []), [], x, []) == Ok(x);
      assert [x][1..] == [];
      assert [] + [x] == [x];
    }
    PathExampleFinds();
  }

  /** In that example, `c.x` names the value 1 among the two entries. */
  lemma PathExampleFinds()
    ensures
      var c := Field("c", None, Some(VMap([Field("x", None, Some(VInt(1)))])));
      FindInConfig("c.x", [c] + [Field("d", None, Some(VIdent("c.x")))]) == Ok(Some(VInt(1)))
  {
    var x := Field("x", None, Some(VInt(1)));
    var c := Field("c", None, Some(VMap([x])));
    var d := Field("d", None, Some(VIdent("c.x")));
    SplitDotted();
    assert [x][0] == x;
    assert IsFirstKey([x], "x", 0);
    assert Walk(Some(VMap([x])), ["x"]) == Ok(Some(VInt(1)));
    assert IsFirstMapEntry([c] + [d], "c", 0);
    assert ["c", "x"][1..] == ["x"];
  }

  /** `c.x` splits into `c` and `x`. */
  lemma SplitDotted()
    ensures Split("c.x", '.') == ["c", "x"]
  {
    assert "c.x"[1..] == ".x" && ".x"[1..] == "x";
    assert Split("x", '.') == ["x"] by { SplitNoSeparator("x", '.'); }
    assert Split(".x", '.') == [""] + ["x"];
    assert Split("c.x", '.') == [['c'] + ""] + ["x"];
    assert ['c'] + "" == "c";
  }

  /** A reference to a key that no entry up to it has fails. */
  lemma ResolveMissingExample()
    ensures ReverseIdentifiers([Field("b", None, Some(VIdent("z")))]) == Err(NoSuchKey("z"))
  {
    var z := Field("b", None, Some(VIdent("z")));
    SplitNoSeparator("z", '.');
    assert !HasKey([] + [z], "z");
  }

  /** `a: {x: 1, y: a.x}` resolves `y` to `1`: the entry being rewritten is
      itself part of what its references are looked up in. */
  lemma SelfReferenceExample()
    ensures ReverseIdentifiers([Field("a", None, Some(VMap([Field("x", None, Some(VInt(1))), Field("y", None, Some(VIdent("a.x")))])))])
         == Ok([Field("a", None, Some(VMap([Field("x", None, Some(VInt(1))), Field("y", None, Some(VInt(1)))])))])
  {
    var x := Field("x", None, Some(VInt(1)));
    var y := Field("y", None, Some(VIdent("a.x")));
    var y' := Field("y", None, Some(VInt(1)));
    var a := Field("a", None, Some(VMap([x, y])));
    var a' := Field("a", None, Some(VMap([x, y'])));
    SelfReferenceMap();
    assert ResolveTop([], a) == Ok(a');
    assert [a][1..] == [];
    assert [] + [a'] == [a'];
  }

  /** The fields of `a: {x: 1, y: a.x}`, rewritten with `a` as the entry. */
  lemma SelfReferenceMap()
    ensures
      var x := Field("x", None, Some(VInt(1)));
      ResolveMap([], Context("a", None, []), [], [x, Field("y", None, Some(VIdent("a.x")))])
        == Ok([x, Field("y", None, Some(VInt(1)))])
  {
    var x := Field("x", None, Some(VInt(1)));
    var y := Field("y", None, Some(VIdent("a.x")));
    var y' := Field("y", None, Some(VInt(1)));
    var ctx := Context("a", None, []);
    SelfReferenceField();
    assert ResolveField([], ctx, [], x, [y]) == Ok(x);
    assert [x, y][0] == x && [x, y][1..] == [y] && [y][0] == y && [y][1..] == [];
    assert [] + [x] == [x] && [x] + [y'] == [x, y'];
    ResolveMapCons([], ctx, [], [x, y], x);
    ResolveMapCons([], ctx, [x], [y], y');
    assert ResolveMap([], ctx, [x, y'], []) == Ok([x, y']);
  }

  /** The field `y: a.x` of that map, rewritten after `x: 1`, becomes `y: 1`. */
  lemma SelfReferenceField()
    ensures
      var x := Field("x", None, Some(VInt(1)));
      ResolveField([], Context("a", None, []), [x], Field("y", None, Some(VIdent("a.x"))), [])
        == Ok(Field("y", None, Some(VInt(1))))
  {
    var x := Field("x", None, Some(VInt(1)));
    var y := Field("y", None, Some(VIdent("a.x")));
    var ctx := Context("a", None, []);
    SelfReferenceLookup();
    assert Current(ctx, [x] + [y] + []) == Field("a", None, Some(VMap([x, y]))) by {
      assert [x] + [y] + [] == [x, y];
    }
  }

  /** `a.x` names `1` in `a: {x: 1, y: a.x}`. */
  lemma SelfReferenceLookup()
    ensures
      var x := Field("x", None, Some(VInt(1)));
      FindInConfig("a.x", [] + [Field("a", None, Some(VMap([x, Field("y", None, Some(VIdent("a.x")))])))]) == Ok(Some(VInt(1)))
  {
    var x := Field("x", None, Some(VInt(1)));
    var y := Field("y", None, Some(VIdent("a.x")));
    var a := Field("a", None, Some(VMap([x, y])));
    assert Split("a.x", '.') == ["a", "x"] by {
      assert "a.x"[1..] == ".x" && ".x"[1..] == "x";
      assert Split("x", '.') == ["x"] by { SplitNoSeparator("x", '.'); }
      assert Split(".x", '.') == [""] + ["x"];
      assert Split("a.x", '.') == [['a'] + ""] + ["x"];
      assert ['a'] + "" == "a";
    }
    assert IsFirstKey([x, y], "x", 0);
    assert Walk(Some(VMap([x, y])), ["x"]) == Ok(Some(VInt(1)));
    assert IsFirstMapEntry([] + [a], "a", 0);
    assert ["a", "x"][1..] == ["x"];
  }

  // ---------------------------------------------------------------------------
  // Reference-free configurations
  // ---------------------------------------------------------------------------

  /** No identifier value in a map at any depth (lists are not looked into:
      the pass never rewrites them). */
  predicate RefFreeValue(v: Value)
    decreases ValueSize(v), 0
  {
    match v
    case VIdent(_) => false
    case VMap(fs) => RefFreeFields(fs)
    case _ => true
  }

  predicate RefFreeFields(fs: seq<Field>)
    decreases FieldsSize(fs), 2
  {
    fs == [] || (RefFreeField(fs[0]) && RefFreeFields(fs[1..]))
  }

  predicate RefFreeField(f: Field)
    decreases FieldSize(f), 1
  {
    match f.value
    case None => true
    case Some(v) =>
      assert ValueSize(v) < FieldSize(f);
      RefFreeValue(v)
  }

  /** Without references a map's fields come back unchanged. */
  lemma {:induction false} ResolveMapRefFree(prefix: seq<Field>, ctx: Context, done: seq<Field>, todo: seq<Field>)
    requires RefFreeFields(todo)
    ensures ResolveMap(prefix, ctx, done, todo) == Ok(done + todo)
    decreases FieldsSize(todo), 1
  {
    if todo == [] {
      assert done + todo == done;
    } else {
      ResolveFieldRefFree(prefix, ctx, done, todo[0], todo[1..]);
      ResolveMapRefFree(prefix, ctx, done + [todo[0]], todo[1..]);
      ShiftFirst(done, todo);
    }
  }

  lemma {:induction false} ResolveFieldRefFree(prefix: seq<Field>, ctx: Context, done: seq<Field>, f: Field, rest: seq<Field>)
    requires RefFreeField(f)
    ensures ResolveField(prefix, ctx, done, f, rest) == Ok(f)
    decreases FieldSize(f), 0
  {
    match f.value
    case None =>
    case Some(v) =>
      if IsMap(v) {
        assert FieldsSize(v.fields) < ValueSize(v) <= FieldSize(f);
        ResolveMapRefFree(prefix, Context(ctx.key, ctx.child, ctx.frames + [Frame(done, f.key, f.child, rest)]), [], v.fields);
        assert [] + v.fields == v.fields;
      }
  }

  /** A top-level entry without references comes back unchanged. */
  lemma ResolveTopRefFree(done: seq<Field>, f: Field)
    requires RefFreeField(f)
    ensures ResolveTop(done, f) == Ok(f)
  {
    if f.value.Some? && IsMap(f.value.value) {
      assert RefFreeValue(f.value.value);
      ResolveMapRefFree(done, Context(f.key, f.child, []), [], f.value.value.fields);
      assert [] + f.value.value.fields == f.value.value.fields;
    }
  }

  /** The pass is the identity on a configuration without references. */
  lemma {:induction false} ResolveEntriesRefFree(done: seq<Field>, todo: seq<Field>)
    requires RefFreeFields(todo)
    ensures ResolveEntries(done, todo) == Ok(done + todo)
    decreases |todo|
  {
    if todo == [] {
      assert done + todo == done;
    } else {
      var f := todo[0];
      assert RefFreeField(f) && RefFreeFields(todo[1..]);
      ResolveTopRefFree(done, f);
      ResolveEntriesRefFree(done + [f], todo[1..]);
      RefFreeStep(done, todo);
    }
  }

  /** One step of `ResolveEntriesRefFree`: an entry that rewrites to itself is
      moved to `done` unchanged. */
  lemma RefFreeStep(done: seq<Field>, todo: seq<Field>)
    requires todo != [] && ResolveTop(done, todo[0]) == Ok(todo[0])
    requires ResolveEntries(done + [todo[0]], todo[1..]) == Ok(done + [todo[0]] + todo[1..])
    ensures ResolveEntries(done, todo) == Ok(done + todo)
  {
    ShiftFirst(done, todo);
    ResolveEntriesCons(done, todo, todo[0]);
  }

  /** Moving the first element of `todo` to the end of `done` keeps the whole. */
  lemma ShiftFirst(done: seq<Field>, todo: seq<Field>)
    requires todo != []
    ensures done + [todo[0]] + todo[1..] == done + todo
  {
    assert todo == [todo[0]] + todo[1..];
  }

  lemma ReverseIdentifiersRefFree(fs: seq<Field>)
    requires RefFreeFields(fs)
    ensures ReverseIdentifiers(fs) == Ok(fs)
  {
    ResolveEntriesRefFree([], fs);
    assert [] + fs == fs;
  }
}
