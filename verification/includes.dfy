/** Include splicing (`parseIncludesAndAppendToConfig`): every include entry
    is replaced, in place, by the entries of the files it names, each file's
    own includes being spliced first. Reading and parsing a file is the
    abstract `Loader`. */
module Includes {
  import opened Results
  import opened Ast
  import opened Buffers

  /** Reads and parses one file (`ParseFile`); `None` when the file cannot be
      read or does not parse, which the Go code turns into a panic. */
  type Loader = string -> Option<seq<Entry>>

  /** Both results' entries, the first one's first; the first error otherwise. */
  function Concat(a: Result<seq<Entry>, Error>, b: Result<seq<Entry>, Error>): (r: Result<seq<Entry>, Error>)
    ensures r.Ok? <==> a.Ok? && b.Ok?
    ensures r.Ok? ==> r.value == a.value + b.value
    ensures a.Err? ==> r == a
    ensures a.Ok? && b.Err? ==> r == b
    ensures a.Ok? && a.value == [] ==> r == b
    ensures b.Ok? && b.value == [] ==> r == a
  {
    match a
    case Err(e) => Err(e)
    case Ok(x) =>
      match b
      case Err(e) => Err(e)
      case Ok(y) =>
        assert x == [] ==> x + y == y;
        assert y == [] ==> x + y == x;
        Ok(x + y)
  }

  lemma ConcatAssoc(a: Result<seq<Entry>, Error>, b: Result<seq<Entry>, Error>, c: Result<seq<Entry>, Error>)
    ensures Concat(Concat(a, b), c) == Concat(a, Concat(b, c))
  {
    if a.Ok? && b.Ok? && c.Ok? {
      assert a.value + b.value + c.value == a.value + (b.value + c.value);
    }
  }

  // ---------------------------------------------------------------------------
  // The splice with the intended semantics; the rest of the model uses it.
  // ---------------------------------------------------------------------------

  /** The entries with every include replaced by the included files' entries.
      `fuel` bounds the include nesting depth; the Go code recurses without
      bound. */
  function ResolveIncludes(entries: seq<Entry>, load: Loader, fuel: nat): (r: Result<seq<Entry>, Error>)
    ensures r.Ok? ==> NoIncludes(r.value)
    decreases fuel, 2, |entries|
  {
    if entries == [] then Ok([])
    else Concat(EntrySplice(entries[0], load, fuel), ResolveIncludes(entries[1..], load, fuel))
  }

  /** What one entry splices to: the included files' entries, or itself. */
  function EntrySplice(e: Entry, load: Loader, fuel: nat): (r: Result<seq<Entry>, Error>)
    ensures r.Ok? ==> NoIncludes(r.value)
    ensures !e.IncludeEntry? ==> r == Ok([e])
    decreases fuel, 1, 0
  {
    match e
    case IncludeEntry(files) => LoadFiles(files, load, fuel)
    case _ => Ok([e])
  }

  /** The include-free entries of the named files, in the order they are named. */
  function LoadFiles(files: seq<string>, load: Loader, fuel: nat): (r: Result<seq<Entry>, Error>)
    ensures r.Ok? ==> NoIncludes(r.value)
    decreases fuel, 0, |files|
  {
    if files == [] then Ok([])
    else if fuel == 0 then Err(IncludeTooDeep(files[0]))
    else
      match load(files[0])
      case None => Err(LoadFailed(files[0]))
      case Some(es) => Concat(ResolveIncludes(es, load, fuel - 1), LoadFiles(files[1..], load, fuel))
  }

  /** Splicing distributes over concatenation: every entry is replaced where it
      stands and the others keep their relative order. */
  lemma {:induction false} ResolveIncludesAppend(a: seq<Entry>, b: seq<Entry>, load: Loader, fuel: nat)
    ensures ResolveIncludes(a + b, load, fuel)
         == Concat(ResolveIncludes(a, load, fuel), ResolveIncludes(b, load, fuel))
    decreases |a|
  {
    if a == [] {
      assert a + b == b;
    } else {
      assert (a + b)[0] == a[0];
      assert (a + b)[1..] == a[1..] + b;
      ResolveIncludesAppend(a[1..], b, load, fuel);
      ConcatAssoc(EntrySplice(a[0], load, fuel), ResolveIncludes(a[1..], load, fuel), ResolveIncludes(b, load, fuel));
    }
  }

  /** Files are spliced in declared order. */
  lemma {:induction false} LoadFilesAppend(f: seq<string>, g: seq<string>, load: Loader, fuel: nat)
    ensures LoadFiles(f + g, load, fuel) == Concat(LoadFiles(f, load, fuel), LoadFiles(g, load, fuel))
    decreases |f|
  {
    if f == [] {
      assert f + g == g;
    } else {
      assert (f + g)[0] == f[0];
      assert (f + g)[1..] == f[1..] + g;
      LoadFilesAppend(f[1..], g, load, fuel);
      if fuel > 0 && load(f[0]).Some? {
        ConcatAssoc(ResolveIncludes(load(f[0]).value, load, fuel - 1),
                    LoadFiles(f[1..], load, fuel), LoadFiles(g, load, fuel));
      }
    }
  }

  /** Entries that are not includes come through unchanged. */
  lemma {:induction false} IncludeFreeUnchanged(es: seq<Entry>, load: Loader, fuel: nat)
    requires NoIncludes(es)
    ensures ResolveIncludes(es, load, fuel) == Ok(es)
    decreases |es|
  {
    if es != [] {
      IncludeFreeUnchanged(es[1..], load, fuel);
      assert [es[0]] + es[1..] == es;
    }
  }

  /** One include entry is replaced in place by the entries of its files. */
  lemma IncludeSplicedInPlace(a: seq<Entry>, files: seq<string>, b: seq<Entry>, load: Loader, fuel: nat)
    requires NoIncludes(a) && NoIncludes(b)
    ensures ResolveIncludes(a + [IncludeEntry(files)] + b, load, fuel)
         == Concat(Concat(Ok(a), LoadFiles(files, load, fuel)), Ok(b))
  {
    var inc := [IncludeEntry(files)];
    ResolveIncludesAppend(a + inc, b, load, fuel);
    ResolveIncludesAppend(a, inc, load, fuel);
    IncludeFreeUnchanged(a, load, fuel);
    IncludeFreeUnchanged(b, load, fuel);
    assert inc[1..] == [];
    assert ResolveIncludes(inc, load, fuel) == Concat(EntrySplice(inc[0], load, fuel), ResolveIncludes([], load, fuel));
  }

  /** A file `A` holding `x`, an include of `B`, and `y`, where `B` holds `m`,
      splices to `x, m, y`. */
  lemma IncludeOrderExample(x: Field, m: Field, y: Field, load: Loader)
    requires load("B") == Some([FieldEntry(m)])
    ensures ResolveIncludes([FieldEntry(x), IncludeEntry(["B"]), FieldEntry(y)], load, 1)
         == Ok([FieldEntry(x), FieldEntry(m), FieldEntry(y)])
  {
    IncludeSplicedInPlace([FieldEntry(x)], ["B"], [FieldEntry(y)], load, 1);
    assert [FieldEntry(x)] + [IncludeEntry(["B"])] + [FieldEntry(y)]
        == [FieldEntry(x), IncludeEntry(["B"]), FieldEntry(y)];
    IncludeFreeUnchanged([FieldEntry(m)], load, 0);
    assert ["B"][1..] == [];
    assert LoadFiles(["B"], load, 1) == Concat(Ok([FieldEntry(m)]), Ok([]));
    assert [FieldEntry(x)] + [FieldEntry(m)] + [FieldEntry(y)] == [FieldEntry(x), FieldEntry(m), FieldEntry(y)];
  }

  // ---------------------------------------------------------------------------
  // The splice as written: a result buffer of one slot per original entry,
  // filled left to right; an include cuts the slot at `idx` out once per file.
  // Slots are `None` until filled (slice-aliasing copies in unfilled slots are
  // not modelled).
  // ---------------------------------------------------------------------------

  /** The write position and the buffer it points into. */
  datatype Cursor = Cursor(buf: seq<Option<Entry>>, idx: nat)

  /** The Go code as written: splice every include, then read the buffer. */
  function SpliceAsWritten(entries: seq<Entry>, load: Loader, fuel: nat): (r: Result<seq<Entry>, Error>)
    ensures r.Ok? ==> NoIncludes(r.value)
    decreases fuel, 2, 0
  {
    var buf :- SpliceLoop(entries, 0, Slots(|entries|), 0, load, fuel);
    if forall i :: 0 <= i < |buf| ==> buf[i].Some? then Ok(Unfill(buf)) else Err(NilEntry)
  }

  /** The loop over the original entries, from entry `i` on, writing at `idx`. */
  function SpliceLoop(entries: seq<Entry>, i: nat, buf: seq<Option<Entry>>, idx: nat, load: Loader, fuel: nat)
    : (r: Result<seq<Option<Entry>>, Error>)
    requires i <= |entries|
    ensures r.Ok? && WrittenNoIncludes(buf) ==> WrittenNoIncludes(r.value)
    decreases fuel, 1, |entries| - i
  {
    if i == |entries| then Ok(buf)
    else
      match entries[i]
      case IncludeEntry(files) =>
        var configs :- ParseEach(files, load, fuel);
        var cursor :- SpliceConfigs(buf, idx, configs);
        SpliceLoop(entries, i + 1, cursor.buf, cursor.idx, load, fuel)
      case e =>
        if idx < |buf| then SpliceLoop(entries, i + 1, buf[idx := Some(e)], idx + 1, load, fuel)
        else Err(SliceOutOfRange)
  }

  /** Every named file, parsed and with its own includes spliced as written. */
  function ParseEach(files: seq<string>, load: Loader, fuel: nat): (r: Result<seq<seq<Entry>>, Error>)
    ensures r.Ok? ==> |r.value| == |files|
    ensures r.Ok? ==> forall k :: 0 <= k < |r.value| ==> NoIncludes(r.value[k])
    decreases fuel, 0, |files|
  {
    if files == [] then Ok([])
    else if fuel == 0 then Err(IncludeTooDeep(files[0]))
    else
      match load(files[0])
      case None => Err(LoadFailed(files[0]))
      case Some(es) =>
        var first :- SpliceAsWritten(es, load, fuel - 1);
        var rest :- ParseEach(files[1..], load, fuel);
        Ok([first] + rest)
  }

  /** For each file in turn: replace the slot at `idx` by the file's entries and
      move `idx` past them. Each file after the first cuts out one more slot,
      one that belongs to a later entry. */
  function SpliceConfigs(buf: seq<Option<Entry>>, idx: nat, configs: seq<seq<Entry>>): (r: Result<Cursor, Error>)
    ensures r.Ok? ==> |r.value.buf| - r.value.idx == |buf| - idx - |configs|
    ensures r.Ok? && idx <= |buf| ==> r.value.idx <= |r.value.buf|
    ensures r.Ok? && WrittenNoIncludes(buf) && (forall k :: 0 <= k < |configs| ==> NoIncludes(configs[k]))
      ==> WrittenNoIncludes(r.value.buf)
    decreases |configs|
  {
    if configs == [] then Ok(Cursor(buf, idx))
    else if idx + 1 > |buf| then Err(SliceOutOfRange)
    else SpliceConfigs(buf[..idx] + Filled(configs[0]) + buf[idx + 1..], idx + |configs[0]|, configs[1..])
  }

  /** Whether every include, here and in every file it loads within the fuel
      bound, names exactly one file. */
  predicate OneFileIncludes(entries: seq<Entry>, load: Loader, fuel: nat)
    decreases fuel
  {
    forall i :: 0 <= i < |entries| && entries[i].IncludeEntry? ==>
      && |entries[i].files| == 1
      && (fuel > 0 && load(entries[i].files[0]).Some? ==>
            OneFileIncludes(load(entries[i].files[0]).value, load, fuel - 1))
  }

  /** `done`'s entries filled in front of a splice result. */
  function After(done: seq<Entry>, r: Result<seq<Entry>, Error>): Result<seq<Option<Entry>>, Error>
  {
    match r
    case Ok(x) => Ok(Filled(done + x))
    case Err(e) => Err(e)
  }

  /** With one file per include the loop as written computes the intended splice. */
  lemma {:induction false} OneFileLoopAgrees(entries: seq<Entry>, i: nat, done: seq<Entry>, load: Loader, fuel: nat)
    requires i <= |entries|
    requires OneFileIncludes(entries, load, fuel)
    ensures SpliceLoop(entries, i, Filled(done) + Slots(|entries| - i), |done|, load, fuel)
         == After(done, ResolveIncludes(entries[i..], load, fuel))
    decreases fuel, 1, |entries| - i
  {
    if i == |entries| {
      assert entries[i..] == [];
      assert done + [] == done;
      assert Filled(done) + Slots(0) == Filled(done);
    } else {
      var head := EntrySplice(entries[i], load, fuel);
      ResolveIncludesAt(entries, i, load, fuel);
      OneFileStep(entries, i, done, load, fuel);
      if head.Ok? {
        OneFileLoopAgrees(entries, i + 1, done + head.value, load, fuel);
        AfterConcat(done, head.value, ResolveIncludes(entries[i + 1..], load, fuel));
      }
    }
  }

  /** The intended splice from entry `i` on: entry `i`'s splice, then the rest. */
  lemma ResolveIncludesAt(entries: seq<Entry>, i: nat, load: Loader, fuel: nat)
    requires i < |entries|
    ensures ResolveIncludes(entries[i..], load, fuel)
         == Concat(EntrySplice(entries[i], load, fuel), ResolveIncludes(entries[i + 1..], load, fuel))
  {
    assert entries[i..][0] == entries[i] && entries[i..][1..] == entries[i + 1..];
  }

  /** Filling `x` after `done` and then the rest is filling `done` then `x` and the rest. */
  lemma AfterConcat(done: seq<Entry>, x: seq<Entry>, rest: Result<seq<Entry>, Error>)
    ensures After(done, Concat(Ok(x), rest)) == After(done + x, rest)
  {
    if rest.Ok? {
      assert done + x + rest.value == done + (x + rest.value);
    }
  }

  /** One step of the loop as written, for an entry whose include (if any)
      names one file: the entry's splice is filled in at the write position. */
  lemma OneFileStep(entries: seq<Entry>, i: nat, done: seq<Entry>, load: Loader, fuel: nat)
    requires i < |entries|
    requires OneFileIncludes(entries, load, fuel)
    ensures EntrySplice(entries[i], load, fuel).Err? ==>
      SpliceLoop(entries, i, Filled(done) + Slots(|entries| - i), |done|, load, fuel)
        == Err(EntrySplice(entries[i], load, fuel).error)
    ensures EntrySplice(entries[i], load, fuel).Ok? ==>
      var x := EntrySplice(entries[i], load, fuel).value;
      SpliceLoop(entries, i, Filled(done) + Slots(|entries| - i), |done|, load, fuel)
        == SpliceLoop(entries, i + 1, Filled(done + x) + Slots(|entries| - (i + 1)), |done + x|, load, fuel)
    decreases fuel, 0, 3
  {
    if entries[i].IncludeEntry? {
      OneFileIncludeStep(entries, i, done, load, fuel);
    } else {
      WriteSlot(done, entries[i], |entries| - i);
    }
  }

  /** The include case of `OneFileStep`. */
  lemma OneFileIncludeStep(entries: seq<Entry>, i: nat, done: seq<Entry>, load: Loader, fuel: nat)
    requires i < |entries| && entries[i].IncludeEntry?
    requires OneFileIncludes(entries, load, fuel)
    ensures EntrySplice(entries[i], load, fuel).Err? ==>
      SpliceLoop(entries, i, Filled(done) + Slots(|entries| - i), |done|, load, fuel)
        == Err(EntrySplice(entries[i], load, fuel).error)
    ensures EntrySplice(entries[i], load, fuel).Ok? ==>
      var x := EntrySplice(entries[i], load, fuel).value;
      SpliceLoop(entries, i, Filled(done) + Slots(|entries| - i), |done|, load, fuel)
        == SpliceLoop(entries, i + 1, Filled(done + x) + Slots(|entries| - (i + 1)), |done + x|, load, fuel)
    decreases fuel, 0, 2
  {
    var files := entries[i].files;
    var f := files[0];
    assert files == [f];
    if fuel > 0 && load(f).Some? {
      OneFileIncludeLoaded(entries, i, done, load, fuel);
    } else {
      SingleFile(f, load, fuel);
      SpliceLoopInclude(entries, i, Filled(done) + Slots(|entries| - i), |done|, load, fuel);
      assert EntrySplice(entries[i], load, fuel).Err?;
      assert ParseEach(files, load, fuel) == Err(EntrySplice(entries[i], load, fuel).error);
    }
  }

  /** The include case when its one file loads: the file's entries, spliced as
      written, are the intended splice. */
  lemma OneFileIncludeLoaded(entries: seq<Entry>, i: nat, done: seq<Entry>, load: Loader, fuel: nat)
    requires i < |entries| && entries[i].IncludeEntry? && |entries[i].files| == 1
    requires fuel > 0 && load(entries[i].files[0]).Some?
    requires OneFileIncludes(load(entries[i].files[0]).value, load, fuel - 1)
    ensures EntrySplice(entries[i], load, fuel).Err? ==>
      SpliceLoop(entries, i, Filled(done) + Slots(|entries| - i), |done|, load, fuel)
        == Err(EntrySplice(entries[i], load, fuel).error)
    ensures EntrySplice(entries[i], load, fuel).Ok? ==>
      var x := EntrySplice(entries[i], load, fuel).value;
      SpliceLoop(entries, i, Filled(done) + Slots(|entries| - i), |done|, load, fuel)
        == SpliceLoop(entries, i + 1, Filled(done + x) + Slots(|entries| - (i + 1)), |done + x|, load, fuel)
    decreases fuel, 0, 1
  {
    var f := entries[i].files[0];
    assert entries[i].files == [f];
    ParseOneFile(f, load, fuel);
    var nested := ResolveIncludes(load(f).value, load, fuel - 1);
    assert EntrySplice(entries[i], load, fuel) == nested;
    IncludeParsed(entries, i, done, load, fuel, nested);
  }

  /** The loop as written at an include whose files parse, as written, to the
      single list `x` (or fail with `nested`'s error). */
  lemma IncludeParsed(entries: seq<Entry>, i: nat, done: seq<Entry>, load: Loader, fuel: nat,
                      nested: Result<seq<Entry>, Error>)
    requires i < |entries| && entries[i].IncludeEntry?
    requires ParseEach(entries[i].files, load, fuel) == match nested case Ok(x) => Ok([x]) case Err(e) => Err(e)
    ensures nested.Err? ==>
      SpliceLoop(entries, i, Filled(done) + Slots(|entries| - i), |done|, load, fuel) == Err(nested.error)
    ensures nested.Ok? ==>
      SpliceLoop(entries, i, Filled(done) + Slots(|entries| - i), |done|, load, fuel)
        == SpliceLoop(entries, i + 1, Filled(done + nested.value) + Slots(|entries| - (i + 1)), |done + nested.value|, load, fuel)
  {
    var buf := Filled(done) + Slots(|entries| - i);
    SpliceLoopInclude(entries, i, buf, |done|, load, fuel);
    match nested
    case Err(_) =>
    case Ok(x) =>
      assert ParseEach(entries[i].files, load, fuel) == Ok([x]);
      FillSlot(done, x, |entries| - i);
      assert SpliceConfigs(buf, |done|, [x]).value == Cursor(Filled(done + x) + Slots(|entries| - (i + 1)), |done + x|);
  }

  /** One loadable file, as written and as intended: both give the file's
      intended splice. */
  lemma ParseOneFile(f: string, load: Loader, fuel: nat)
    requires fuel > 0 && load(f).Some?
    requires OneFileIncludes(load(f).value, load, fuel - 1)
    ensures var nested := ResolveIncludes(load(f).value, load, fuel - 1);
      && LoadFiles([f], load, fuel) == nested
      && ParseEach([f], load, fuel) == match nested case Ok(x) => Ok([x]) case Err(e) => Err(e)
    decreases fuel, 0, 0
  {
    SingleFile(f, load, fuel);
    OneFileAgrees(load(f).value, load, fuel - 1);
  }

  /** Replacing the first free slot by `x` extends the filled prefix by `x`. */
  lemma FillSlot(done: seq<Entry>, x: seq<Entry>, n: nat)
    requires n >= 1
    ensures SpliceConfigs(Filled(done) + Slots(n), |done|, [x]) == Ok(Cursor(Filled(done + x) + Slots(n - 1), |done| + |x|))
  {
    ReplaceSlot(done, x, n);
    assert [x][1..] == [];
  }

  /** One unfolding of the loop as written at an include entry. */
  lemma SpliceLoopInclude(entries: seq<Entry>, i: nat, buf: seq<Option<Entry>>, idx: nat, load: Loader, fuel: nat)
    requires i < |entries| && entries[i].IncludeEntry?
    ensures ParseEach(entries[i].files, load, fuel).Err? ==>
      SpliceLoop(entries, i, buf, idx, load, fuel) == Err(ParseEach(entries[i].files, load, fuel).error)
    ensures ParseEach(entries[i].files, load, fuel).Ok? ==>
      var configs := ParseEach(entries[i].files, load, fuel).value;
      && (SpliceConfigs(buf, idx, configs).Err? ==>
            SpliceLoop(entries, i, buf, idx, load, fuel) == Err(SpliceConfigs(buf, idx, configs).error))
      && (SpliceConfigs(buf, idx, configs).Ok? ==>
            var c := SpliceConfigs(buf, idx, configs).value;
            SpliceLoop(entries, i, buf, idx, load, fuel) == SpliceLoop(entries, i + 1, c.buf, c.idx, load, fuel))
  {
  }

  /** A one-file include, as written and as intended, fails or yields the same entries. */
  lemma SingleFile(f: string, load: Loader, fuel: nat)
    ensures fuel == 0 ==>
      ParseEach([f], load, fuel) == Err(IncludeTooDeep(f)) && LoadFiles([f], load, fuel) == Err(IncludeTooDeep(f))
    ensures fuel > 0 && load(f).None? ==>
      ParseEach([f], load, fuel) == Err(LoadFailed(f)) && LoadFiles([f], load, fuel) == Err(LoadFailed(f))
    ensures fuel > 0 && load(f).Some? ==>
      && LoadFiles([f], load, fuel) == ResolveIncludes(load(f).value, load, fuel - 1)
      && (SpliceAsWritten(load(f).value, load, fuel - 1).Err? ==>
            ParseEach([f], load, fuel) == Err(SpliceAsWritten(load(f).value, load, fuel - 1).error))
      && (SpliceAsWritten(load(f).value, load, fuel - 1).Ok? ==>
            ParseEach([f], load, fuel) == Ok([SpliceAsWritten(load(f).value, load, fuel - 1).value]))
  {
    assert [f][1..] == [];
    if fuel > 0 && load(f).Some? {
      var x := SpliceAsWritten(load(f).value, load, fuel - 1);
      assert ParseEach([f][1..], load, fuel) == Ok([]);
      if x.Ok? {
        assert [x.value] + [] == [x.value];
      }
    }
  }

  /** With one file per include, the splice as written and the intended one agree. */
  lemma {:induction false} OneFileAgrees(entries: seq<Entry>, load: Loader, fuel: nat)
    requires OneFileIncludes(entries, load, fuel)
    ensures SpliceAsWritten(entries, load, fuel) == ResolveIncludes(entries, load, fuel)
    decreases fuel, 2, 0
  {
    assert Filled([]) + Slots(|entries|) == Slots(|entries|);
    assert entries[0..] == entries;
    OneFileLoopAgrees(entries, 0, [], load, fuel);
    var r := ResolveIncludes(entries, load, fuel);
    if r.Ok? {
      assert [] + r.value == r.value;
      UnfillFilled(r.value);
    }
  }

  /** Fewer free slots than entries still to place: the loop as written panics. */
  lemma {:induction false} SlotDeficitFails(entries: seq<Entry>, i: nat, buf: seq<Option<Entry>>, idx: nat, load: Loader, fuel: nat)
    requires i <= |entries| && idx <= |buf|
    requires |buf| - idx < |entries| - i
    requires forall j :: i <= j < |entries| && entries[j].IncludeEntry? ==> |entries[j].files| >= 1
    ensures SpliceLoop(entries, i, buf, idx, load, fuel).Err?
    decreases |entries| - i
  {
    match entries[i]
    case IncludeEntry(files) =>
      var configs := ParseEach(files, load, fuel);
      if configs.Ok? {
        var cursor := SpliceConfigs(buf, idx, configs.value);
        if cursor.Ok? {
          SlotDeficitFails(entries, i + 1, cursor.value.buf, cursor.value.idx, load, fuel);
        }
      }
    case e =>
      if idx < |buf| {
        SlotDeficitFails(entries, i + 1, buf[idx := Some(e)], idx + 1, load, fuel);
      }
  }

  /** From a balanced state, an include naming two or more files ahead makes the
      loop as written panic. */
  lemma {:induction false} MultiFileLoopFails(entries: seq<Entry>, i: nat, buf: seq<Option<Entry>>, idx: nat, j: nat, load: Loader, fuel: nat)
    requires i <= j < |entries| && idx <= |buf|
    requires |buf| - idx == |entries| - i
    requires entries[j].IncludeEntry? && |entries[j].files| >= 2
    requires forall k :: i <= k < |entries| && entries[k].IncludeEntry? ==> |entries[k].files| >= 1
    ensures SpliceLoop(entries, i, buf, idx, load, fuel).Err?
    decreases |entries| - i
  {
    match entries[i]
    case IncludeEntry(files) =>
      var configs := ParseEach(files, load, fuel);
      if configs.Ok? {
        var cursor := SpliceConfigs(buf, idx, configs.value);
        if cursor.Ok? {
          if |files| >= 2 {
            SlotDeficitFails(entries, i + 1, cursor.value.buf, cursor.value.idx, load, fuel);
          } else {
            MultiFileLoopFails(entries, i + 1, cursor.value.buf, cursor.value.idx, j, load, fuel);
          }
        }
      }
    case e =>
      MultiFileLoopFails(entries, i + 1, buf[idx := Some(e)], idx + 1, j, load, fuel);
  }

  /** As written, any include statement that names two or more files panics
      (slice bounds or index out of range), whatever the files contain. */
  lemma MultiFileIncludeFails(entries: seq<Entry>, j: nat, load: Loader, fuel: nat)
    requires j < |entries| && entries[j].IncludeEntry? && |entries[j].files| >= 2
    requires forall k :: 0 <= k < |entries| && entries[k].IncludeEntry? ==> |entries[k].files| >= 1
    ensures SpliceAsWritten(entries, load, fuel).Err?
  {
    MultiFileLoopFails(entries, 0, Slots(|entries|), 0, j, load, fuel);
  }

  /** The smallest witness: `#include "b", "c"` where each file holds one field.
      The splice as written panics; the intended splice yields both fields. */
  lemma TwoFileIncludeCounterexample(mb: Field, mc: Field, load: Loader)
    requires load("b") == Some([FieldEntry(mb)]) && load("c") == Some([FieldEntry(mc)])
    ensures SpliceAsWritten([IncludeEntry(["b", "c"])], load, 1) == Err(SliceOutOfRange)
    ensures ResolveIncludes([IncludeEntry(["b", "c"])], load, 1) == Ok([FieldEntry(mb), FieldEntry(mc)])
  {
    TwoFilesParse(mb, mc, load);
    var first := [None][..0] + Filled([FieldEntry(mb)]) + [None][1..];
    assert first == [Some(FieldEntry(mb))];
    assert SpliceConfigs([None], 0, [[FieldEntry(mb)], [FieldEntry(mc)]])
        == SpliceConfigs(first, 1, [[FieldEntry(mc)]]);
    var inc := [IncludeEntry(["b", "c"])];
    assert inc[0] == IncludeEntry(["b", "c"]) && inc[1..] == [];
    assert ResolveIncludes(inc, load, 1) == Concat(LoadFiles(["b", "c"], load, 1), Ok([]));
  }

  /** Each of the files `b` and `c` of that witness splices to its one field,
      both as written and as intended. */
  lemma TwoFilesParse(mb: Field, mc: Field, load: Loader)
    requires load("b") == Some([FieldEntry(mb)]) && load("c") == Some([FieldEntry(mc)])
    ensures ParseEach(["b", "c"], load, 1) == Ok([[FieldEntry(mb)], [FieldEntry(mc)]])
    ensures LoadFiles(["b", "c"], load, 1) == Ok([FieldEntry(mb), FieldEntry(mc)])
  {
    IncludeFreeUnchanged([FieldEntry(mb)], load, 0);
    IncludeFreeUnchanged([FieldEntry(mc)], load, 0);
    assert SpliceAsWritten([FieldEntry(mb)], load, 0) == Ok([FieldEntry(mb)]) by {
      OneFileAgrees([FieldEntry(mb)], load, 0);
    }
    SingleFile("c", load, 1);
    assert ParseEach(["c"], load, 1) == Ok([[FieldEntry(mc)]]);
    var bc: seq<string> := ["b", "c"];
    assert bc[0] == "b" && bc[1..] == ["c"];
    assert ParseEach(bc, load, 1) == Ok([[FieldEntry(mb)]] + [[FieldEntry(mc)]]);
    assert [[FieldEntry(mb)]] + [[FieldEntry(mc)]] == [[FieldEntry(mb)], [FieldEntry(mc)]];
    assert LoadFiles(["c"], load, 1) == Concat(Ok([FieldEntry(mc)]), Ok([]));
    assert LoadFiles(bc, load, 1) == Concat(Ok([FieldEntry(mb)]), LoadFiles(["c"], load, 1));
    assert [FieldEntry(mb)] + [FieldEntry(mc)] == [FieldEntry(mb), FieldEntry(mc)];
  }

}
