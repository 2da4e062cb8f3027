/** The parse tree handed to the post-processor: the shapes `FigureConfig`,
    `Entry`, `Include`, `Section`, `SectionRoot`, `SectionChild`, `Field` and
    `Value` of postprocessor.go, as immutable values. Source positions are not
    kept. */
module Ast {
  import opened Results

  /** A float literal, kept as an opaque payload (its source text): no pass
      computes with floats. */
  datatype Float = Float(text: string)

  /** One value of the configuration language. Exactly one alternative of the
      Go struct is set by the parser; a Go `Value` with every alternative nil
      is written `VMap([])`, because every pass treats the two alike. */
  datatype Value =
    | VString(s: string)
    | VMultiline(raw: string)
    | VInt(i: int)
    | VFloat(f: Float)
    | VList(items: seq<Value>)
    | VMap(fields: seq<Field>)
    | VIdent(name: string)

  /** `key`, `key.child…` (a dotted key) or `key: value`; a field with neither
      child nor value is a bare key. */
  datatype Field = Field(key: string, child: Option<Field>, value: Option<Value>)

  /** One `.name` link of a section header; `names` holds the names a macro
      such as `%{a,b}` expands to. */
  datatype SectionChild = SectionChild(names: seq<string>, child: Option<SectionChild>)

  /** The first segment of a section header. */
  datatype SectionRoot = SectionRoot(names: seq<string>, child: Option<SectionChild>)

  /** `[root.child…] fields…`, possibly with several roots. */
  datatype Section = Section(roots: seq<SectionRoot>, fields: seq<Field>)

  /** One top-level entry of a configuration file. */
  datatype Entry =
    | IncludeEntry(files: seq<string>)
    | FieldEntry(field: Field)
    | SectionEntry(section: Section)

  /** Why a compilation stops; each corresponds to a panic of the Go code. */
  datatype Error =
    | LoadFailed(file: string)        // an included file cannot be read or parsed
    | IncludeTooDeep(file: string)    // include nesting beyond the fuel bound
    | SliceOutOfRange                 // a splice indexes past the end of the entry list
    | NilEntry                        // a splice leaves an unfilled entry slot behind
    | NoSuchKey(name: string)         // a reference names a key that is not there
    | NilDereference(name: string)    // a reference walks through a bare key
    | NotAMap(key: string)            // a map type assertion on a value that is not a map

  /** Go's `v.Map != nil`: the parser leaves an empty field list nil, so a
      value is a map exactly when its field list is non-empty. */
  predicate IsMap(v: Value)
  {
    v.VMap? && v.fields != []
  }

  /** The keys of a field list, in order. */
  function Keys(fs: seq<Field>): (ks: seq<string>)
    ensures |ks| == |fs|
    ensures forall i :: 0 <= i < |fs| ==> ks[i] == fs[i].key
  {
    if fs == [] then [] else [fs[0].key] + Keys(fs[1..])
  }

  /** Whether some field of `fs` has key `k`. */
  predicate HasKey(fs: seq<Field>, k: string)
  {
    exists i :: 0 <= i < |fs| && fs[i].key == k
  }

  /** `j` is the first position of `fs` whose key is `k`. */
  predicate IsFirstKey(fs: seq<Field>, k: string, j: int)
  {
    0 <= j < |fs| && fs[j].key == k && forall i :: 0 <= i < j ==> fs[i].key != k
  }

  /** Whether no entry is an include. */
  predicate NoIncludes(es: seq<Entry>)
  {
    forall i :: 0 <= i < |es| ==> !es[i].IncludeEntry?
  }

  /** Whether no entry is a section. */
  predicate NoSections(es: seq<Entry>)
  {
    forall i :: 0 <= i < |es| ==> !es[i].SectionEntry?
  }

  /** Whether every entry is a field. */
  predicate AllFields(es: seq<Entry>)
  {
    forall i :: 0 <= i < |es| ==> es[i].FieldEntry?
  }

  /** Fields as top-level entries. */
  function AsEntries(fs: seq<Field>): (es: seq<Entry>)
    ensures |es| == |fs| && AllFields(es)
    ensures forall i :: 0 <= i < |fs| ==> es[i] == FieldEntry(fs[i])
  {
    if fs == [] then [] else [FieldEntry(fs[0])] + AsEntries(fs[1..])
  }

  /** The fields of a list of field entries. */
  function FieldsOf(es: seq<Entry>): (fs: seq<Field>)
    requires AllFields(es)
    ensures |fs| == |es|
    ensures forall i :: 0 <= i < |es| ==> es[i] == FieldEntry(fs[i])
  {
    if es == [] then [] else [es[0].field] + FieldsOf(es[1..])
  }

  /** Structural size of values and fields, used as a termination measure. */
  function ValueSize(v: Value): nat
  {
    match v
    case VList(items) => 1 + ValuesSize(items)
    case VMap(fields) => 1 + FieldsSize(fields)
    case _ => 1
  }

  function ValuesSize(vs: seq<Value>): nat
  {
    if vs == [] then 0 else ValueSize(vs[0]) + ValuesSize(vs[1..])
  }

  function FieldSize(f: Field): nat
  {
    1 + (match f.child case Some(c) => FieldSize(c) case None => 0)
      + (match f.value case Some(v) => ValueSize(v) case None => 0)
  }

  function FieldsSize(fs: seq<Field>): nat
  {
    if fs == [] then 0 else FieldSize(fs[0]) + FieldsSize(fs[1..])
  }
}
