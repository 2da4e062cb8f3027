/** The array helpers of postprocessor.go: `keysAreSequential` and
    `getLargestKey` (over Go's `strconv.Atoi` on a 64-bit platform), the copy
    pass `fieldsToArrays`, and `mergeValues`. */
module Arrays {
  import opened Results
  import opened Ast

  // ---------------------------------------------------------------------------
  // strconv.Atoi
  // ---------------------------------------------------------------------------

  const MaxUint64: nat := 0xFFFF_FFFF_FFFF_FFFF
  const MaxInt64: int := 0x7FFF_FFFF_FFFF_FFFF
  const MinInt64: int := -0x8000_0000_0000_0000

  /** How a run of decimal digits scans: a character that is not a digit, a
      value past 64 bits, or the value. */
  datatype Digits = Syntax | Overflow | Value(n: nat)

  predicate IsDigit(c: char)
  {
    '0' <= c <= '9'
  }

  /** Every character is a decimal digit. */
  predicate AllDigits(ds: string)
  {
    forall i :: 0 <= i < |ds| ==> IsDigit(ds[i])
  }

  function DigitValue(c: char): nat
    requires IsDigit(c)
  {
    c as int - '0' as int
  }

  /** The digit loop of `strconv.ParseUint` in base 10, from accumulated value
      `n`: a non-digit is a syntax error, and the first digit that takes the
      value past 64 bits stops the scan with a range error, before any later
      character is looked at. */
  function ScanDigits(ds: string, n: nat): (r: Digits)
    ensures r.Value? ==> n <= r.n
    ensures r.Value? ==> AllDigits(ds)
    decreases |ds|
  {
    if ds == [] then Value(n)
    else if !IsDigit(ds[0]) then Syntax
    else
      var m := n * 10 + DigitValue(ds[0]);
      if m > MaxUint64 then Overflow
      else
        assert forall i :: 1 <= i < |ds| ==> ds[i] == ds[1..][i - 1];
        ScanDigits(ds[1..], m)
  }

  /** What `strconv.Atoi` returns: the value and whether the error is nil. */
  datatype Parsed = Parsed(n: int, ok: bool)

  /** An optional sign and one or more decimal digits. */
  predicate IsDecimal(s: string)
  {
    var body := if |s| > 0 && (s[0] == '-' || s[0] == '+') then s[1..] else s;
    |body| > 0 && forall i :: 0 <= i < |body| ==> IsDigit(body[i])
  }

  /** The signed result of a digit scan: a syntax error gives 0, a value
      outside the 64-bit range the nearest bound, each with an error. */
  function Signed(neg: bool, d: Digits): (p: Parsed)
    ensures MinInt64 <= p.n <= MaxInt64
    ensures p.ok <==> d.Value? && (if neg then d.n <= -MinInt64 else d.n <= MaxInt64)
  {
    match d
    case Syntax => Parsed(0, false)
    case Overflow => Parsed(if neg then MinInt64 else MaxInt64, false)
    case Value(u) =>
      if !neg && u > MaxInt64 then Parsed(MaxInt64, false)
      else if neg && u > -MinInt64 then Parsed(MinInt64, false)
      else
        var v: int := u;
        Parsed(if neg then -v else v, true)
  }

  /** `strconv.Atoi`: an optional sign, then the digit scan of the rest; no
      digits at all is a syntax error. */
  function Atoi(s: string): (p: Parsed)
    ensures MinInt64 <= p.n <= MaxInt64
  {
    var neg := |s| > 0 && s[0] == '-';
    var body := if |s| > 0 && (s[0] == '-' || s[0] == '+') then s[1..] else s;
    Signed(neg, if body == [] then Syntax else ScanDigits(body, 0))
  }

  /** Only an optionally signed run of digits parses; anything else is a
      syntax error (0) unless a digit run overflowed first (a bound). */
  lemma AtoiAcceptsDecimals(s: string)
    ensures Atoi(s).ok ==> IsDecimal(s)
    ensures !IsDecimal(s) && Atoi(s).n != MaxInt64 && Atoi(s).n != MinInt64 ==> Atoi(s) == Parsed(0, false)
  {
  }

  /** The decimal numeral of `n`, without sign or leading zeros (`strconv.Itoa`). */
  function Decimal(n: nat): (s: string)
    ensures |s| >= 1 && forall i :: 0 <= i < |s| ==> IsDigit(s[i])
  {
    if n < 10 then [('0' as int + n) as char]
    else Decimal(n / 10) + [('0' as int + n % 10) as char]
  }

  /** Scanning continues from where the first part left off. */
  lemma {:induction false} ScanAppend(a: string, b: string, n: nat, m: nat)
    requires ScanDigits(a, n) == Value(m)
    ensures ScanDigits(a + b, n) == ScanDigits(b, m)
    decreases |a|
  {
    if a == [] {
      assert a + b == b;
    } else {
      assert (a + b)[0] == a[0] && (a + b)[1..] == a[1..] + b;
      ScanAppend(a[1..], b, n * 10 + DigitValue(a[0]), m);
    }
  }

  /** The digit scan reads a numeral back as its value. */
  lemma {:induction false} ScanDecimal(n: nat)
    requires n <= MaxUint64
    ensures ScanDigits(Decimal(n), 0) == Value(n)
  {
    var d := [('0' as int + n % 10) as char];
    if n < 10 {
      assert ScanDigits(d, 0) == ScanDigits([], n);
    } else {
      ScanDecimal(n / 10);
      ScanAppend(Decimal(n / 10), d, 0, n / 10);
      assert d[1..] == [];
    }
  }

  /** Round trip: `Atoi` reads back every 64-bit value from its numeral, with
      or without a sign, and clamps a larger numeral with an error. */
  lemma AtoiDecimal(n: nat)
    requires n <= MaxUint64
    ensures n <= MaxInt64 ==> Atoi(Decimal(n)) == Parsed(n, true)
    ensures n <= MaxInt64 ==> Atoi("+" + Decimal(n)) == Parsed(n, true)
    ensures n <= -MinInt64 ==> Atoi("-" + Decimal(n)) == Parsed(-(n as int), true)
    ensures n > MaxInt64 ==> Atoi(Decimal(n)) == Parsed(MaxInt64, false)
    ensures n > -MinInt64 ==> Atoi("-" + Decimal(n)) == Parsed(MinInt64, false)
  {
    ScanDecimal(n);
    var s := Decimal(n);
    assert s[0] != '-' && s[0] != '+' by { assert IsDigit(s[0]); }
    assert ("+" + s)[1..] == s;
    assert ("-" + s)[1..] == s;
  }

  /** A sign with no digits, or any other character, is a syntax error. */
  lemma AtoiRejects()
    ensures Atoi("") == Parsed(0, false)
    ensures Atoi("-") == Parsed(0, false)
    ensures Atoi("1x") == Parsed(0, false)
    ensures Atoi(" 1") == Parsed(0, false)
  {
    assert "1x"[1..] == "x";
  }

  // ---------------------------------------------------------------------------
  // keysAreSequential and getLargestKey
  // ---------------------------------------------------------------------------

  /** Every key parses without error. */
  predicate AllParse(ks: seq<string>)
  {
    forall i :: 0 <= i < |ks| ==> Atoi(ks[i]).ok
  }

  /** The parsed values of the keys. */
  function Values(ks: seq<string>): (vs: seq<int>)
    ensures |vs| == |ks|
  {
    if ks == [] then [] else [Atoi(ks[0]).n] + Values(ks[1..])
  }

  /** Whether each key parses without error. */
  function Oks(ks: seq<string>): (oks: seq<bool>)
    ensures |oks| == |ks|
  {
    if ks == [] then [] else [Atoi(ks[0]).ok] + Oks(ks[1..])
  }

  /** Each value and each flag is its key's parse. */
  lemma {:induction false} ValuesAt(ks: seq<string>, i: nat)
    requires i < |ks|
    ensures Values(ks)[i] == Atoi(ks[i]).n && Oks(ks)[i] == Atoi(ks[i]).ok
  {
    if i > 0 {
      ValuesAt(ks[1..], i - 1);
    }
  }

  /** Every key parses exactly when every flag is set. */
  lemma {:induction false} AllParseOks(ks: seq<string>)
    ensures AllParse(ks) <==> forall i :: 0 <= i < |ks| ==> Oks(ks)[i]
  {
    assert AllTrue(Oks(ks)) <==> forall i :: 0 <= i < |ks| ==> Oks(ks)[i];
    if ks != [] {
      var oks := Oks(ks);
      AllParseOks(ks[1..]);
      assert AllTrue(Oks(ks[1..])) <==> forall i :: 0 <= i < |ks[1..]| ==> Oks(ks[1..])[i];
      assert oks == [Atoi(ks[0]).ok] + Oks(ks[1..]);
      assert oks[0] == Atoi(ks[0]).ok && oks[1..] == Oks(ks[1..]);
      AllParseCons(ks);
      AllTrueCons(oks);
    }
  }

  /** Every flag is set. */
  predicate AllTrue(bs: seq<bool>)
  {
    forall i :: 0 <= i < |bs| ==> bs[i]
  }

  /** A non-empty list of keys parses when its head and its tail do. */
  lemma AllParseCons(ks: seq<string>)
    requires ks != []
    ensures AllParse(ks) <==> Atoi(ks[0]).ok && AllParse(ks[1..])
  {
    if Atoi(ks[0]).ok && AllParse(ks[1..]) {
      forall i | 0 <= i < |ks|
        ensures Atoi(ks[i]).ok
      {
        if i > 0 {
          assert ks[i] == ks[1..][i - 1];
        }
      }
    }
    if AllParse(ks) {
      forall i | 0 <= i < |ks[1..]|
        ensures Atoi(ks[1..][i]).ok
      {
        assert ks[1..][i] == ks[i + 1];
      }
    }
  }

  /** A non-empty list of flags is all set when its head and its tail are. */
  lemma AllTrueCons(bs: seq<bool>)
    requires bs != []
    ensures AllTrue(bs) <==> bs[0] && AllTrue(bs[1..])
  {
    if bs[0] && AllTrue(bs[1..]) {
      forall i | 0 < i < |bs|
        ensures bs[i]
      {
        assert bs[i] == bs[1..][i - 1];
      }
    }
  }

  /** The reference ordering: a run of zeros, then strictly increasing positive
      values, so gaps such as `0, 2` are allowed. */
  predicate ZerosThenIncreasing(vs: seq<int>)
  {
    exists z :: 0 <= z <= |vs| && ZeroRun(vs, z)
  }

  /** `vs[..z]` is all zeros and `vs[z..]` strictly increasing and positive. */
  predicate ZeroRun(vs: seq<int>, z: int)
    requires 0 <= z <= |vs|
  {
    && (forall i :: 0 <= i < z ==> vs[i] == 0)
    && (forall i :: z <= i < |vs| ==> vs[i] > 0)
    && (forall i, j :: z <= i < j < |vs| ==> vs[i] < vs[j])
  }

  /** The value the Go loop compares position `i` with (`lastIndex`). */
  function Last(vs: seq<int>, i: nat): int
    requires i <= |vs|
  {
    if i == 0 then 0 else vs[i - 1]
  }

  /** The test the Go loop applies at position `i`. */
  predicate StepOk(vs: seq<int>, i: nat)
    requires i < |vs|
  {
    Last(vs, i) < vs[i] || (Last(vs, i) == 0 && vs[i] == 0)
  }

  /** The loop's pairwise test over a prefix is the reference ordering. */
  lemma StepsAreOrdering(vs: seq<int>, n: nat)
    requires n <= |vs|
    ensures (forall i :: 0 <= i < n ==> StepOk(vs, i)) <==> ZerosThenIncreasing(vs[..n])
  {
    if forall i :: 0 <= i < n ==> StepOk(vs, i) {
      StepsImplyOrdering(vs, n);
    }
    if ZerosThenIncreasing(vs[..n]) {
      OrderingImpliesSteps(vs, n);
    }
  }

  lemma {:induction false} StepsImplyOrdering(vs: seq<int>, n: nat)
    requires n <= |vs|
    requires forall i :: 0 <= i < n ==> StepOk(vs, i)
    ensures ZerosThenIncreasing(vs[..n])
  {
    if n == 0 {
      assert ZeroRun(vs[..0], 0);
    } else {
      StepsImplyOrdering(vs, n - 1);
      var z :| 0 <= z <= n - 1 && ZeroRun(vs[..n - 1], z);
      assert StepOk(vs, n - 1);
      if vs[n - 1] == 0 && Last(vs, n - 1) == 0 {
        ZeroExtends(vs, n, z);
      } else {
        IncreaseExtends(vs, n, z);
      }
    }
  }

  /** A zero after a zero (or at the start) extends the run of zeros. */
  lemma ZeroExtends(vs: seq<int>, n: nat, z: nat)
    requires 1 <= n <= |vs| && z <= n - 1 && ZeroRun(vs[..n - 1], z)
    requires vs[n - 1] == 0 && Last(vs, n - 1) == 0
    ensures ZeroRun(vs[..n], n)
  {
    var p := vs[..n - 1];
    var q := vs[..n];
    assert z == n - 1;
    assert forall i :: 0 <= i < n - 1 ==> q[i] == p[i];
  }

  /** A value above the previous one extends the increasing part. */
  lemma IncreaseExtends(vs: seq<int>, n: nat, z: nat)
    requires 1 <= n <= |vs| && z <= n - 1 && ZeroRun(vs[..n - 1], z)
    requires Last(vs, n - 1) < vs[n - 1]
    ensures ZeroRun(vs[..n], z)
  {
    var p := vs[..n - 1];
    assert forall i :: z <= i < n - 1 ==> p[i] <= Last(vs, n - 1) by {
      forall i | z <= i < n - 1 ensures p[i] <= Last(vs, n - 1) {
        if i < n - 2 {
          assert p[i] < p[n - 2];
        }
      }
    }
    assert z < n - 1 ==> Last(vs, n - 1) > 0;
  }

  lemma {:induction false} OrderingImpliesSteps(vs: seq<int>, n: nat)
    requires n <= |vs|
    requires ZerosThenIncreasing(vs[..n])
    ensures forall i :: 0 <= i < n ==> StepOk(vs, i)
  {
    var q := vs[..n];
    var z :| 0 <= z <= |q| && ZeroRun(q, z);
    forall i | 0 <= i < n ensures StepOk(vs, i) {
      assert vs[i] == q[i];
      if i > 0 {
        assert vs[i - 1] == q[i - 1];
      }
    }
  }

  /** A failed step at any position rules the ordering out. */
  lemma StepFails(vs: seq<int>, i: nat)
    requires i < |vs| && !StepOk(vs, i)
    ensures !ZerosThenIncreasing(vs)
  {
    StepsAreOrdering(vs, |vs|);
    assert vs[..|vs|] == vs;
  }

  /** Passing every step is the ordering. */
  lemma StepsPass(vs: seq<int>)
    requires forall i :: 0 <= i < |vs| ==> StepOk(vs, i)
    ensures ZerosThenIncreasing(vs)
  {
    StepsAreOrdering(vs, |vs|);
    assert vs[..|vs|] == vs;
  }

  /** `keysAreSequential`: the keys parse as integers in the reference order. */
  method KeysAreSequential(fs: seq<Field>) returns (ok: bool)
    ensures ok <==> AllParse(Keys(fs)) && ZerosThenIncreasing(Values(Keys(fs)))
  {
    var ks := Keys(fs);
    ghost var vs := Values(ks);
    ghost var oks := Oks(ks);
    var lastIndex := 0;
    var i := 0;
    while i < |ks|
      invariant 0 <= i <= |ks| == |vs|
      invariant forall j :: 0 <= j < i ==> oks[j]
      invariant forall j :: 0 <= j < i ==> StepOk(vs, j)
      invariant lastIndex == Last(vs, i)
    {
      var p := Atoi(ks[i]);
      ValuesAt(ks, i);
      if !p.ok {
        AllParseOks(ks);
        return false;
      }
      if lastIndex < p.n || (lastIndex == 0 && p.n == 0) {
        assert StepOk(vs, i);
        lastIndex := p.n;
      } else {
        StepFails(vs, i);
        return false;
      }
      i := i + 1;
    }
    StepsPass(vs);
    AllParseOks(ks);
    return true;
  }

  /** Examples: an empty list, a gap, and a run of zeros pass; a repeat, a
      descent and a non-number fail. */
  lemma SequentialExamples()
    ensures ZerosThenIncreasing(Values([]))
    ensures ZerosThenIncreasing([0, 2])
    ensures ZerosThenIncreasing([0, 0, 1])
    ensures !ZerosThenIncreasing([1, 1])
    ensures !ZerosThenIncreasing([2, 1])
    ensures !AllParse(["a"])
  {
    assert !Atoi(["a"][0]).ok;
    assert ZeroRun(Values([]), 0);
    assert ZeroRun([0, 2], 1);
    assert ZeroRun([0, 0, 1], 2);
    StepsAreOrdering([1, 1], 2);
    assert !StepOk([1, 1], 1);
    assert [1, 1][..2] == [1, 1];
    StepsAreOrdering([2, 1], 2);
    assert !StepOk([2, 1], 1);
    assert [2, 1][..2] == [2, 1];
    assert !Atoi("a").ok;
  }

  /** `getLargestKey`: the largest parsed key, and never below zero; a key that
      does not parse counts as 0 and an out-of-range one as its bound. */
  method GetLargestKey(fs: seq<Field>) returns (largest: int)
    ensures largest >= 0
    ensures forall i :: 0 <= i < |fs| ==> Atoi(fs[i].key).n <= largest
    ensures largest == 0 || exists i :: 0 <= i < |fs| && Atoi(fs[i].key).n == largest
  {
    largest := 0;
    var i := 0;
    while i < |fs|
      invariant 0 <= i <= |fs|
      invariant largest >= 0
      invariant forall j :: 0 <= j < i ==> Atoi(fs[j].key).n <= largest
      invariant largest == 0 || exists j :: 0 <= j < i && Atoi(fs[j].key).n == largest
    {
      var arrayIndex := Atoi(fs[i].key).n;
      if arrayIndex > largest {
        largest := arrayIndex;
      }
      i := i + 1;
    }
  }

  // ---------------------------------------------------------------------------
  // fieldsToArrays
  // ---------------------------------------------------------------------------

  /** `Value.fieldsToArrays`: a map is rebuilt field by field; any other value
      is returned as it is. */
  function CopyValue(v: Value): Value
    decreases ValueSize(v), 0
  {
    if IsMap(v) then VMap(CopyFields(v.fields)) else v
  }

  function CopyFields(fs: seq<Field>): (r: seq<Field>)
    ensures |r| == |fs|
    decreases FieldsSize(fs), 2
  {
    if fs == [] then [] else [CopyField(fs[0])] + CopyFields(fs[1..])
  }

  /** `Field.fieldsToArrays`: a bare key (or dotted key) is returned as it is;
      a field with a value is rebuilt without its child link. */
  function CopyField(f: Field): Field
    decreases FieldSize(f), 1
  {
    match f.value
    case None => f
    case Some(v) =>
      assert ValueSize(v) < FieldSize(f);
      Field(f.key, None, Some(CopyValue(v)))
  }

  /** `FigureConfig.fieldsToArrays`: every top-level field copied. */
  function FieldsToArrays(fs: seq<Field>): (r: seq<Field>)
    ensures |r| == |fs| && Keys(r) == Keys(fs)
  {
    CopyKeys(fs);
    CopyFields(fs)
  }

  lemma {:induction false} CopyKeys(fs: seq<Field>)
    ensures Keys(CopyFields(fs)) == Keys(fs)
    decreases |fs|
  {
    if fs != [] {
      CopyKeys(fs[1..]);
      assert CopyField(fs[0]).key == fs[0].key;
    }
  }

  /** The parser's shape: no field, at any depth, has both a child link and a
      value. */
  predicate WellShapedValue(v: Value)
    decreases ValueSize(v), 0
  {
    match v
    case VMap(fs) => WellShapedFields(fs)
    case _ => true
  }

  predicate WellShapedFields(fs: seq<Field>)
    decreases FieldsSize(fs), 2
  {
    fs == [] || (WellShapedField(fs[0]) && WellShapedFields(fs[1..]))
  }

  predicate WellShapedField(f: Field)
    decreases FieldSize(f), 1
  {
    match f.value
    case None => true
    case Some(v) =>
      assert ValueSize(v) < FieldSize(f);
      f.child.None? && WellShapedValue(v)
  }

  /** The copy pass is the identity on parser-shaped fields. */
  lemma {:induction false} CopyFieldsIdentity(fs: seq<Field>)
    requires WellShapedFields(fs)
    ensures CopyFields(fs) == fs
    decreases FieldsSize(fs), 2
  {
    if fs != [] {
      CopyFieldIdentity(fs[0]);
      CopyFieldsIdentity(fs[1..]);
    }
  }

  lemma {:induction false} CopyFieldIdentity(f: Field)
    requires WellShapedField(f)
    ensures CopyField(f) == f
    decreases FieldSize(f), 1
  {
    match f.value
    case None =>
    case Some(v) =>
      assert ValueSize(v) < FieldSize(f);
      if IsMap(v) {
        assert FieldsSize(v.fields) < ValueSize(v);
        CopyFieldsIdentity(v.fields);
      }
  }

  // ---------------------------------------------------------------------------
  // mergeValues
  // ---------------------------------------------------------------------------

  /** The first field of `fs` called `k`, if any. */
  function FirstWithKey(fs: seq<Field>, k: string): (r: Option<Field>)
    ensures r.Some? <==> HasKey(fs, k)
    ensures r.Some? ==> r.value.key == k && r.value in fs
    ensures forall j :: IsFirstKey(fs, k, j) ==> r == Some(fs[j])
  {
    if fs == [] then None
    else if fs[0].key == k then Some(fs[0])
    else
      assert forall j :: IsFirstKey(fs, k, j) ==> IsFirstKey(fs[1..], k, j - 1);
      assert HasKey(fs[1..], k) ==> HasKey(fs, k) by {
        if HasKey(fs[1..], k) {
          var j :| 0 <= j < |fs[1..]| && fs[1..][j].key == k;
          assert fs[j + 1].key == k;
        }
      }
      FirstWithKey(fs[1..], k)
  }

  /** `sub`'s fields in order, each replaced by `dom`'s first field with the same
      key if there is one. */
  function Overlay(dom: seq<Field>, sub: seq<Field>): (r: seq<Field>)
    ensures |r| == |sub| && Keys(r) == Keys(sub)
    ensures forall i :: 0 <= i < |sub| ==> r[i] == FirstWithKey(dom, sub[i].key).GetOr(sub[i])
  {
    var r := seq(|sub|, i requires 0 <= i < |sub| => FirstWithKey(dom, sub[i].key).GetOr(sub[i]));
    assert forall i :: 0 <= i < |sub| ==> Keys(r)[i] == Keys(sub)[i];
    r
  }

  /** `acc` followed by every field of `dom` whose key is not yet present, in
      `dom`'s order. */
  function AppendMissing(acc: seq<Field>, dom: seq<Field>): (r: seq<Field>)
    ensures |r| >= |acc| && r[..|acc|] == acc
    ensures forall i :: |acc| <= i < |r| ==> !HasKey(acc, r[i].key)
    ensures forall i :: |acc| <= i < |r| ==> IsFirstOf(dom, r[i])
    ensures InFirstOrder(dom, r, |acc|)
    ensures forall i :: 0 <= i < |dom| ==> HasKey(r, dom[i].key)
    decreases |dom|
  {
    if dom == [] then acc
    else if HasKey(acc, dom[0].key) then
      var r := AppendMissing(acc, dom[1..]);
      SkipPresent(acc, dom, r);
      r
    else
      var r := AppendMissing(acc + [dom[0]], dom[1..]);
      TakeMissing(acc, dom, r);
      r
  }

  /** What `AppendMissing(acc, dom)` promises of `r`, as one predicate. */
  predicate AppendsMissing(acc: seq<Field>, dom: seq<Field>, r: seq<Field>)
  {
    && |r| >= |acc| && r[..|acc|] == acc
    && (forall i :: |acc| <= i < |r| ==> !HasKey(acc, r[i].key))
    && (forall i :: |acc| <= i < |r| ==> IsFirstOf(dom, r[i]))
    && InFirstOrder(dom, r, |acc|)
    && (forall i :: 0 <= i < |dom| ==> HasKey(r, dom[i].key))
  }

  /** A first field whose key is already present is skipped. */
  lemma SkipPresent(acc: seq<Field>, dom: seq<Field>, r: seq<Field>)
    requires dom != [] && HasKey(acc, dom[0].key)
    requires AppendsMissing(acc, dom[1..], r)
    ensures AppendsMissing(acc, dom, r)
  {
    HasKeyPrefix(acc, r);
    forall i | |acc| <= i < |r| ensures r[i].key != dom[0].key {
    }
    AppendedFromTail(dom, r, |acc|);
  }

  /** A first field whose key is missing is appended. */
  lemma TakeMissing(acc: seq<Field>, dom: seq<Field>, r: seq<Field>)
    requires dom != [] && !HasKey(acc, dom[0].key)
    requires AppendsMissing(acc + [dom[0]], dom[1..], r)
    ensures AppendsMissing(acc, dom, r)
  {
    var acc' := acc + [dom[0]];
    assert HasKey(acc', dom[0].key) by { assert acc'[|acc|].key == dom[0].key; }
    HasKeyPrefix(acc', r);
    assert r[..|acc|] == acc'[..|acc|];
    assert r[|acc|] == dom[0];
    forall i | |acc| < i < |r| ensures !HasKey(acc, r[i].key) && r[i].key != dom[0].key {
      assert !HasKey(acc', r[i].key);
    }
    AppendedHead(dom, r, |acc|);
  }

  /** `f` is the first field of `dom` with its key. */
  predicate IsFirstOf(dom: seq<Field>, f: Field)
  {
    HasKey(dom, f.key) && f == dom[FirstIndex(dom, f.key)]
  }

  /** From `from` on, the keys of `r` are keys of `dom`, in the order of their
      first occurrences there (so no key repeats). */
  predicate InFirstOrder(dom: seq<Field>, r: seq<Field>, from: nat)
  {
    forall i, j {:trigger FirstIndex(dom, r[i].key), FirstIndex(dom, r[j].key)} :: from <= i < j < |r| ==>
      HasKey(dom, r[i].key) && HasKey(dom, r[j].key) && FirstIndex(dom, r[i].key) < FirstIndex(dom, r[j].key)
  }

  /** Fields taken from `dom[1..]` whose keys differ from `dom[0]`'s keep their
      first-occurrence order in `dom`, one position later. */
  lemma AppendedFromTail(dom: seq<Field>, r: seq<Field>, from: nat)
    requires dom != [] && from <= |r|
    requires forall i :: from <= i < |r| ==> r[i].key != dom[0].key
    requires forall i :: from <= i < |r| ==> IsFirstOf(dom[1..], r[i])
    requires InFirstOrder(dom[1..], r, from)
    ensures forall i :: from <= i < |r| ==> IsFirstOf(dom, r[i])
    ensures InFirstOrder(dom, r, from)
  {
    forall i | from <= i < |r| ensures IsFirstOf(dom, r[i]) && FirstIndex(dom, r[i].key) == 1 + FirstIndex(dom[1..], r[i].key) {
      FirstIndexTail(dom, r[i].key);
    }
  }

  /** The same, with `dom[0]` itself taken first at `from`. */
  lemma AppendedHead(dom: seq<Field>, r: seq<Field>, from: nat)
    requires dom != [] && from < |r| && r[from] == dom[0]
    requires forall i :: from < i < |r| ==> r[i].key != dom[0].key
    requires forall i :: from + 1 <= i < |r| ==> IsFirstOf(dom[1..], r[i])
    requires InFirstOrder(dom[1..], r, from + 1)
    ensures forall i :: from <= i < |r| ==> IsFirstOf(dom, r[i])
    ensures InFirstOrder(dom, r, from)
  {
    AppendedFromTail(dom, r, from + 1);
    assert FirstIndex(dom, dom[0].key) == 0;
  }

  /** Past a first field with another key, the first position moves by one. */
  lemma FirstIndexTail(dom: seq<Field>, k: string)
    requires dom != [] && dom[0].key != k && HasKey(dom[1..], k)
    ensures HasKey(dom, k) && FirstIndex(dom, k) == 1 + FirstIndex(dom[1..], k)
  {
    var j := FirstIndex(dom[1..], k);
    assert dom[j + 1].key == k;
  }

  /** A key of a prefix is a key of the whole. */
  lemma HasKeyPrefix(a: seq<Field>, r: seq<Field>)
    requires |r| >= |a| && r[..|a|] == a
    ensures forall k :: HasKey(a, k) ==> HasKey(r, k)
  {
    forall k | HasKey(a, k) ensures HasKey(r, k) {
      var j :| 0 <= j < |a| && a[j].key == k;
      assert r[j] == a[j];
    }
  }

  /** `mergeValues`: when both are (non-empty) maps, `sub`'s keys first in
      `sub`'s order taking `dom`'s field for a shared key, then `dom`'s
      remaining keys; otherwise `dom` itself. */
  function MergeValues(dom: Value, sub: Value): (r: Value)
    ensures !(IsMap(dom) && IsMap(sub)) ==> r == dom
    ensures IsMap(dom) && IsMap(sub) ==>
      && r.VMap? && |r.fields| >= |sub.fields|
      && Keys(r.fields)[..|sub.fields|] == Keys(sub.fields)
      && (forall i :: 0 <= i < |sub.fields| ==>
            r.fields[i] == FirstWithKey(dom.fields, sub.fields[i].key).GetOr(sub.fields[i]))
      && (forall i :: |sub.fields| <= i < |r.fields| ==>
            IsFirstOf(dom.fields, r.fields[i]) && !HasKey(sub.fields, r.fields[i].key))
      && InFirstOrder(dom.fields, r.fields, |sub.fields|)
      && (forall i :: 0 <= i < |dom.fields| ==> HasKey(r.fields, dom.fields[i].key))
  {
    if IsMap(dom) && IsMap(sub) then
      var front := Overlay(dom.fields, sub.fields);
      var r := AppendMissing(front, dom.fields);
      OverlayTail(sub.fields, front, r);
      VMap(r)
    else dom
  }

  /** After a front with `sub`'s keys, the keys start as `sub`'s, and a field
      whose key the front lacks has a key `sub` lacks. */
  lemma OverlayTail(sub: seq<Field>, front: seq<Field>, r: seq<Field>)
    requires Keys(front) == Keys(sub)
    requires |r| >= |front| && r[..|front|] == front
    requires forall i :: |front| <= i < |r| ==> !HasKey(front, r[i].key)
    ensures Keys(r)[..|front|] == Keys(sub)
    ensures forall i :: |front| <= i < |r| ==> !HasKey(sub, r[i].key)
  {
    KeysPrefix(r, |front|);
    forall i | |front| <= i < |r|
      ensures !HasKey(sub, r[i].key)
    {
      SameKeysHasKey(front, sub, r[i].key);
    }
  }

  /** The keys of a prefix are the prefix of the keys. */
  lemma KeysPrefix(r: seq<Field>, n: nat)
    requires n <= |r|
    ensures Keys(r)[..n] == Keys(r[..n])
  {
  }

  /** Lists with the same keys have the same keys present. */
  lemma SameKeysHasKey(a: seq<Field>, b: seq<Field>, k: string)
    requires Keys(a) == Keys(b)
    ensures HasKey(a, k) <==> HasKey(b, k)
  {
    if HasKey(b, k) {
      var j :| 0 <= j < |b| && b[j].key == k;
      assert Keys(a)[j] == Keys(b)[j];
    }
    if HasKey(a, k) {
      var j :| 0 <= j < |a| && a[j].key == k;
      assert Keys(a)[j] == Keys(b)[j];
    }
  }

  /** Looked up by first match, the merged map is `dom` overriding `sub`: a key
      of `dom` finds `dom`'s field, any other key finds `sub`'s. */
  lemma MergeValuesLookup(dom: Value, sub: Value, k: string)
    requires IsMap(dom) && IsMap(sub)
    ensures HasKey(dom.fields, k) ==> FirstWithKey(MergeValues(dom, sub).fields, k) == FirstWithKey(dom.fields, k)
    ensures !HasKey(dom.fields, k) ==> FirstWithKey(MergeValues(dom, sub).fields, k) == FirstWithKey(sub.fields, k)
  {
    if HasKey(sub.fields, k) {
      LookupSubKey(dom, sub, k);
    } else if HasKey(dom.fields, k) {
      LookupDomOnlyKey(dom, sub, k);
    } else {
      LookupAbsentKey(dom, sub, k);
    }
  }

  /** A key of `sub` is found at its first position in `sub`. */
  lemma LookupSubKey(dom: Value, sub: Value, k: string)
    requires IsMap(dom) && IsMap(sub) && HasKey(sub.fields, k)
    ensures HasKey(dom.fields, k) ==> FirstWithKey(MergeValues(dom, sub).fields, k) == FirstWithKey(dom.fields, k)
    ensures !HasKey(dom.fields, k) ==> FirstWithKey(MergeValues(dom, sub).fields, k) == FirstWithKey(sub.fields, k)
  {
    var r := MergeValues(dom, sub).fields;
    var j := FirstIndex(sub.fields, k);
    forall i | 0 <= i <= j ensures r[i].key == sub.fields[i].key {
      assert Keys(r)[i] == Keys(sub.fields)[i];
    }
    assert IsFirstKey(r, k, j);
  }

  /** A key only `dom` has is found among the appended fields. */
  lemma LookupDomOnlyKey(dom: Value, sub: Value, k: string)
    requires IsMap(dom) && IsMap(sub) && !HasKey(sub.fields, k) && HasKey(dom.fields, k)
    ensures FirstWithKey(MergeValues(dom, sub).fields, k) == FirstWithKey(dom.fields, k)
  {
    var r := MergeValues(dom, sub).fields;
    assert HasKey(r, k);
    var j := FirstIndex(r, k);
    assert IsFirstOf(dom.fields, r[j]);
    assert IsFirstKey(dom.fields, k, FirstIndex(dom.fields, k));
  }

  /** A key neither map has is not found. */
  lemma LookupAbsentKey(dom: Value, sub: Value, k: string)
    requires IsMap(dom) && IsMap(sub) && !HasKey(sub.fields, k) && !HasKey(dom.fields, k)
    ensures FirstWithKey(MergeValues(dom, sub).fields, k) == None
  {
    var r := MergeValues(dom, sub).fields;
    forall i | 0 <= i < |r| ensures r[i].key != k {
      if i < |sub.fields| {
        assert Keys(r)[i] == Keys(sub.fields)[i];
        assert sub.fields[i].key == r[i].key;
      } else {
        assert IsFirstOf(dom.fields, r[i]);
      }
    }
  }

  /** The first position of a present key. */
  function FirstIndex(fs: seq<Field>, k: string): (j: nat)
    requires HasKey(fs, k)
    ensures IsFirstKey(fs, k, j)
  {
    if fs[0].key == k then 0
    else
      assert HasKey(fs[1..], k) by {
        var j :| 0 <= j < |fs| && fs[j].key == k;
        assert fs[1..][j - 1].key == k;
      }
      1 + FirstIndex(fs[1..], k)
  }
}
