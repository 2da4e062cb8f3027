/** The string helpers of parser.go: splitting dotted identifiers and the
    `%{a,b,…}` expansion macro. */
module Identifiers {
  import opened Strings

  /** The identifier with at most one leading `.` removed. */
  function DropLeadingDot(s: string): string
  {
    if |s| > 0 && s[0] == '.' then s[1..] else s
  }

  /** `splitIdentifiers`: drop one leading dot, then split on dots. */
  function SplitIdentifiers(s: string): (parts: seq<string>)
    ensures |parts| >= 1
    ensures forall i :: 0 <= i < |parts| ==> '.' !in parts[i]
    ensures |parts| == Count(DropLeadingDot(s), '.') + 1
  {
    Split(DropLeadingDot(s), '.')
  }

  /** Joining the parts with dots rebuilds the identifier without its leading dot. */
  lemma SplitIdentifiersRoundTrip(s: string)
    ensures Join(SplitIdentifiers(s), '.') == DropLeadingDot(s)
  {
    JoinSplit(DropLeadingDot(s), '.');
  }

  /** Dot-free parts joined with dots split back into the same parts. */
  lemma SplitIdentifiersOfJoin(parts: seq<string>)
    requires |parts| >= 1 && |parts[0]| > 0
    requires forall i :: 0 <= i < |parts| ==> '.' !in parts[i]
    ensures SplitIdentifiers(Join(parts, '.')) == parts
  {
    var j := Join(parts, '.');
    SplitJoin(parts, '.');
    assert |parts| == 1 ==> j == parts[0];
    assert |parts| > 1 ==> j == parts[0] + ['.'] + Join(parts[1..], '.');
    assert j[0] == parts[0][0];
  }

  /** A character of the regular-expression class `[\w_]` (ASCII letters, digits, underscore). */
  predicate IsWordChar(c: char)
  {
    ('a' <= c <= 'z') || ('A' <= c <= 'Z') || ('0' <= c <= '9') || c == '_'
  }

  /** A non-empty run of word characters. */
  predicate IsWord(w: string)
  {
    |w| > 0 && forall i :: 0 <= i < |w| ==> IsWordChar(w[i])
  }

  /** The language of `[\w_]+(,[\w_]+)*`: words separated by single commas. */
  predicate IsWordList(body: string)
  {
    var parts := Split(body, ',');
    forall i :: 0 <= i < |parts| ==> IsWord(parts[i])
  }

  /** `s` matches `%{body}` with `pre` (0 or 1) characters before it and `post`
      (0 or 1) characters after it, those characters being anything but a
      newline (the regular expression's `.`). */
  predicate MacroShape(s: string, pre: nat, post: nat)
    requires pre <= 1 && post <= 1
  {
    && |s| >= pre + post + 3
    && (pre == 1 ==> s[0] != '\n')
    && (post == 1 ==> s[|s| - 1] != '\n')
    && s[pre] == '%' && s[pre + 1] == '{'
    && s[|s| - 1 - post] == '}'
    && IsWordList(s[pre + 2 .. |s| - 1 - post])
  }

  /** `isValidExpansionMacro`: whether the whole string matches
      `^.?%{[\w_]+(,[\w_]+)*?}.?$`. Both anchors make any match span the whole
      string, so the check on the match indices adds nothing. */
  function IsValidExpansionMacro(s: string): (ok: bool)
    ensures ok ==> |s| >= 4
    ensures ok ==> s[0] == '%' || s[1] == '%'
    ensures ok ==> s[|s| - 1] == '}' || s[|s| - 2] == '}'
    ensures ok ==> exists pre, post :: 0 <= pre <= 1 && 0 <= post <= 1 && MacroShape(s, pre, post)
  {
    var ok := MacroShape(s, 0, 0) || MacroShape(s, 0, 1) || MacroShape(s, 1, 0) || MacroShape(s, 1, 1);
    if ok then
      BodyNonEmpty(s);
      ok
    else ok
  }

  /** A matching string has a non-empty body. */
  lemma BodyNonEmpty(s: string)
    requires MacroShape(s, 0, 0) || MacroShape(s, 0, 1) || MacroShape(s, 1, 0) || MacroShape(s, 1, 1)
    ensures |s| >= 4
  {
    forall pre: nat, post: nat | pre <= 1 && post <= 1 && MacroShape(s, pre, post)
      ensures |s| >= 4
    {
      var body := s[pre + 2 .. |s| - 1 - post];
      if body == [] {
        assert Split(body, ',')[0] == "";
      }
    }
  }

  /** `splitExpansionMacro`: the names between `%{` and `}` when the string is a
      valid macro; otherwise the string itself. The Go code cuts two
      characters off the front and one off the back whatever the match shape. */
  function SplitExpansionMacro(s: string): (names: seq<string>)
    ensures !IsValidExpansionMacro(s) ==> names == [s]
    ensures |names| >= 1
  {
    if IsValidExpansionMacro(s) then Split(s[2 .. |s| - 1], ',') else [s]
  }

  /** The macro text `%{w1,…,wn}` for a list of names. */
  function Macro(names: seq<string>): string
  {
    "%{" + Join(names, ',') + "}"
  }

  /** `%{w1,…,wn}` with word names is a valid macro and splits back into
      `w1,…,wn`: one name more than there are commas. */
  lemma {:induction false} MacroRoundTrip(names: seq<string>)
    requires |names| >= 1
    requires forall i :: 0 <= i < |names| ==> IsWord(names[i])
    ensures IsValidExpansionMacro(Macro(names))
    ensures SplitExpansionMacro(Macro(names)) == names
    ensures |names| == Count(Macro(names), ',') + 1
  {
    var body := Join(names, ',');
    var s := Macro(names);
    assert forall i :: 0 <= i < |names| ==> ',' !in names[i];
    SplitJoin(names, ',');
    assert s[2 .. |s| - 1] == body;
    assert MacroShape(s, 0, 0);
    assert s == "%{" + (body + "}");
    CountAppend("%{", body + "}", ',');
    CountAppend(body, "}", ',');
    assert Count("%{", ',') == 0 by {
      assert "%{"[1..] == "{";
      assert "{"[1..] == "";
    }
    assert Count("}", ',') == 0 by {
      assert "}"[1..] == "";
    }
  }

  /** Occurrences add up over a concatenation. */
  lemma {:induction false} CountAppend(a: string, b: string, c: char)
    ensures Count(a + b, c) == Count(a, c) + Count(b, c)
  {
    if a != [] {
      assert (a + b)[1..] == a[1..] + b;
      CountAppend(a[1..], b, c);
    } else {
      assert a + b == b;
    }
  }

  /** A valid macro without extra characters around it is exactly `%{…}` of its
      own split, and every name is a word. */
  lemma ExactMacroSplits(s: string)
    requires MacroShape(s, 0, 0)
    ensures IsValidExpansionMacro(s)
    ensures Macro(SplitExpansionMacro(s)) == s
    ensures forall i :: 0 <= i < |SplitExpansionMacro(s)| ==> IsWord(SplitExpansionMacro(s)[i])
  {
    var body := s[2 .. |s| - 1];
    JoinSplit(body, ',');
    assert s == "%{" + body + "}";
  }

  /** Empty braces and a trailing comma are rejected: each name needs a word character. */
  lemma RejectsEmptyNames()
    ensures !IsValidExpansionMacro("%{}")
    ensures !IsValidExpansionMacro("%{a,}")
  {
    assert Split("", ',') == [""];
    assert !IsWord("");
    assert Split("a", ',') == ["a"] by { SplitNoSeparator("a", ','); }
    assert ","[1..] == "";
    assert Split(",", ',') == [""] + Split("", ',');
    assert "a,"[1..] == ",";
    assert Split("a,", ',') == [['a'] + ""] + [""];
    assert Split("a,", ',')[1] == "";
    assert "%{a,}"[2..4] == "a,";
  }

  /** One arbitrary character is tolerated on each side, and then the fixed
      two-and-one character cut leaves the stray characters in the names. */
  lemma ToleratesOneCharacterEachSide()
    ensures IsValidExpansionMacro("x%{ab}y")
    ensures SplitExpansionMacro("x%{ab}y") == ["{ab}"]
  {
    var s := "x%{ab}y";
    assert s[3..5] == "ab";
    assert Split("ab", ',') == ["ab"] by { SplitNoSeparator("ab", ','); }
    assert MacroShape(s, 1, 1);
    assert s[2..6] == "{ab}";
    SplitNoSeparator("{ab}", ',');
  }
}
