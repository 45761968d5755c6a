/** How a text is resolved against the tables, and which untranslated texts the dump writes. */
module Resolution {
  import opened Wrappers
  import opened Strings
  import opened Tables
  import opened Registry

  /** The exact lookup: the key is the input with surrounding white space trimmed. */
  function ExactLookup(exact: map<string, Line>, input: string): Option<string> {
    var k := Trim(input);
    if k in exact then Some(exact[k].translated) else None
  }

  /** The pattern lookup: the first pattern that matches the (untrimmed) input rewrites it,
      every match of that pattern being replaced. */
  function PatternLookup(patterns: seq<Line>, input: string, re: RegexEngine): Option<string>
    decreases |patterns|
  {
    if patterns == [] then None
    else if re.matches(patterns[0].original, input) then
      Some(re.replace(patterns[0].original, input, patterns[0].translated))
    else PatternLookup(patterns[1..], input, re)
  }

  /** Pattern `i` matches the input and no earlier pattern does. */
  predicate FirstMatch(patterns: seq<Line>, input: string, re: RegexEngine, i: int) {
    0 <= i < |patterns| && re.matches(patterns[i].original, input) &&
    forall j :: 0 <= j < i ==> !re.matches(patterns[j].original, input)
  }

  /** The pattern lookup fails exactly when no pattern matches, and otherwise answers with the
      rewrite of the first pattern that matches. */
  lemma {:induction false} PatternLookupFirstMatch(patterns: seq<Line>, input: string, re: RegexEngine)
    ensures PatternLookup(patterns, input, re).None? <==>
      forall i :: 0 <= i < |patterns| ==> !re.matches(patterns[i].original, input)
    ensures PatternLookup(patterns, input, re).Some? ==>
      exists i :: FirstMatch(patterns, input, re, i) &&
        PatternLookup(patterns, input, re).value == re.replace(patterns[i].original, input, patterns[i].translated)
    decreases |patterns|
  {
    if patterns != [] {
      if re.matches(patterns[0].original, input) {
        assert FirstMatch(patterns, input, re, 0);
      } else {
        var rest := patterns[1..];
        PatternLookupFirstMatch(rest, input, re);
        forall i | 0 < i < |patterns| ensures patterns[i] == rest[i - 1] { }
        if PatternLookup(rest, input, re).Some? {
          var i :| FirstMatch(rest, input, re, i) &&
            PatternLookup(rest, input, re).value == re.replace(rest[i].original, input, rest[i].translated);
          assert FirstMatch(patterns, input, re, i + 1);
        }
      }
    }
  }

  /** How a request was answered. */
  datatype Outcome = EmptyInput | ExactHit(text: string) | PatternHit(text: string) | HookHit(text: string) | NoMatch

  /** The resolution order: an empty input is returned as it is; otherwise the exact entry for the
      trimmed input, then the first matching pattern, then the answer of the unable-to-translate
      hook, if any; otherwise there is no translation. */
  function Resolve(exact: map<string, Line>, patterns: seq<Line>, input: string,
                   hook: Option<string>, re: RegexEngine): Outcome
  {
    if input == "" then EmptyInput
    else if ExactLookup(exact, input).Some? then ExactHit(ExactLookup(exact, input).value)
    else if PatternLookup(patterns, input, re).Some? then PatternHit(PatternLookup(patterns, input, re).value)
    else if hook.Some? then HookHit(hook.value)
    else NoMatch
  }

  /** The text returned to the caller: the translation, or the input itself. */
  function Output(o: Outcome, input: string): string {
    match o
    case ExactHit(t) => t
    case PatternHit(t) => t
    case HookHit(t) => t
    case _ => input
  }

  /** The two unable-to-translate events, as partial functions of the widget and the text. */
  datatype Hooks = Hooks(ugui: (Widget, string) -> Option<string>, tmp: (Widget, string) -> Option<string>)

  /** The hook consulted for a widget: the uGUI one for a uGUI Text, the TextMeshPro one for a
      TextMeshPro text, and none for any other object. */
  function HookAnswer(hooks: Hooks, w: Widget, input: string): Option<string> {
    match w.kind
    case UguiText => hooks.ugui(w, input)
    case TmpText => hooks.tmp(w, input)
    case OtherObject => None
  }

  /** Every kind of outcome happens exactly under its own condition, in priority order. */
  lemma ResolveCases(exact: map<string, Line>, patterns: seq<Line>, input: string,
                     hook: Option<string>, re: RegexEngine)
    ensures Resolve(exact, patterns, input, hook, re) == EmptyInput <==> input == ""
    ensures input == "" ==> Output(Resolve(exact, patterns, input, hook, re), input) == input
    ensures Resolve(exact, patterns, input, hook, re).ExactHit? <==> input != "" && Trim(input) in exact
    ensures Resolve(exact, patterns, input, hook, re).ExactHit? ==>
      Resolve(exact, patterns, input, hook, re).text == exact[Trim(input)].translated
    ensures Resolve(exact, patterns, input, hook, re).PatternHit? <==>
      input != "" && Trim(input) !in exact && exists i :: FirstMatch(patterns, input, re, i)
    ensures Resolve(exact, patterns, input, hook, re).PatternHit? ==>
      exists i :: FirstMatch(patterns, input, re, i) &&
        Resolve(exact, patterns, input, hook, re).text == re.replace(patterns[i].original, input, patterns[i].translated)
    ensures Resolve(exact, patterns, input, hook, re).HookHit? <==>
      input != "" && Trim(input) !in exact &&
      (forall i :: 0 <= i < |patterns| ==> !re.matches(patterns[i].original, input)) && hook.Some?
    ensures Resolve(exact, patterns, input, hook, re).HookHit? ==> Resolve(exact, patterns, input, hook, re).text == hook.value
    ensures Resolve(exact, patterns, input, hook, re) == NoMatch <==>
      input != "" && Trim(input) !in exact &&
      (forall i :: 0 <= i < |patterns| ==> !re.matches(patterns[i].original, input)) && hook == None
  {
    PatternLookupFirstMatch(patterns, input, re);
    if exists i :: FirstMatch(patterns, input, re, i) {
      var i :| FirstMatch(patterns, input, re, i);
      assert re.matches(patterns[i].original, input);
    }
    if PatternLookup(patterns, input, re).Some? {
      var i :| FirstMatch(patterns, input, re, i) &&
        PatternLookup(patterns, input, re).value == re.replace(patterns[i].original, input, patterns[i].translated);
    }
  }

  /** Characters Trim removes, added around an input, never change an exact hit: a padded input finds the same entry. */
  lemma ExactHitIgnoresPadding(exact: map<string, Line>, patterns: seq<Line>, p: string, input: string, q: string,
                               hook: Option<string>, hook': Option<string>, re: RegexEngine)
    requires AllTrimChars(p) && AllTrimChars(q)
    requires input != "" && Trim(input) in exact
    ensures Resolve(exact, patterns, p + input + q, hook', re) == Resolve(exact, patterns, input, hook, re)
    ensures Resolve(exact, patterns, input, hook, re) == ExactHit(exact[Trim(input)].translated)
  {
    TrimIgnoresPadding(p, input, q);
    assert |p + input + q| > 0;
  }

  /** A key that is not already trimmed is never found: removing it changes no lookup. Loaders
      store keys as written, while lookups always use a trimmed key. */
  lemma UntrimmedKeyUnreachable(exact: map<string, Line>, k: string, input: string)
    requires !IsTrimmed(k)
    ensures ExactLookup(exact, input) == ExactLookup(exact - {k}, input)
  {
    assert IsTrimmed(Trim(input));
  }

  /** The simpler lookup: the pattern table is consulted only while its key is held, and no hook
      is consulted. */
  function Alternate(exact: map<string, Line>, patterns: seq<Line>, input: string, keyHeld: bool, re: RegexEngine): (r: string)
  {
    Output(Resolve(exact, if keyHeld then patterns else [], input, None, re), input)
  }

  /** Without the key the patterns play no part; with it the answer is the full lookup's answer
      for a widget that has no hook. */
  lemma AlternateCases(exact: map<string, Line>, patterns: seq<Line>, input: string, re: RegexEngine)
    ensures Alternate(exact, patterns, input, false, re) ==
      if input != "" && Trim(input) in exact then exact[Trim(input)].translated else input
    ensures Alternate(exact, patterns, input, true, re) == Output(Resolve(exact, patterns, input, None, re), input)
  {
  }

  // ---------------------------------------------------------------------------
  // The untranslated set, kept as a duplicate-free sequence in insertion order.

  predicate NoDuplicates(ts: seq<string>) {
    forall i, j :: 0 <= i < j < |ts| ==> ts[i] != ts[j]
  }

  /** HashSet.Add after a Contains check. */
  function AddOnce(ts: seq<string>, t: string): seq<string> {
    if t in ts then ts else ts + [t]
  }

  lemma AddOnceKeepsNoDuplicates(ts: seq<string>, t: string)
    requires NoDuplicates(ts)
    ensures NoDuplicates(AddOnce(ts, t))
  {
  }

  /** Adding behaves as set insertion: the set gains exactly `t`, stays duplicate-free, and adding twice is adding once. */
  lemma AddOnceIsSetInsert(ts: seq<string>, t: string)
    requires NoDuplicates(ts)
    ensures NoDuplicates(AddOnce(ts, t))
    ensures forall u :: u in AddOnce(ts, t) <==> u in ts || u == t
    ensures AddOnce(AddOnce(ts, t), t) == AddOnce(ts, t)
    ensures ts <= AddOnce(ts, t)
  {
  }

  // ---------------------------------------------------------------------------
  // The dump of untranslated texts.

  /** A text is dumped when something other than digits, hyphens and white space is left after
      removing digits and hyphens, and it does not contain "Reset". */
  predicate Dumped(t: string) {
    !AllWhite(StripDigitsAndDashes(t)) && !Contains(t, "Reset")
  }

  /** The line written for a dumped text. */
  function Entry(t: string): string {
    Trim(t) + "=\r\n"
  }

  /** What one text contributes to the dump. */
  function DumpLine(t: string): string {
    if Dumped(t) then Entry(t) else ""
  }

  /** The pieces `f` gives for `ts`, concatenated in order. */
  function Concat(f: string -> string, ts: seq<string>): string
    decreases |ts|
  {
    if ts == [] then "" else Concat(f, ts[..|ts| - 1]) + f(ts[|ts| - 1])
  }

  /** The output accumulated over `ts` in order. */
  function DumpOutput(ts: seq<string>): string {
    Concat(DumpLine, ts)
  }

  lemma ConcatStep(f: string -> string, ts: seq<string>, i: nat)
    requires i < |ts|
    ensures Concat(f, ts[..i + 1]) == Concat(f, ts[..i]) + f(ts[i])
  {
    assert ts[..i + 1][..i] == ts[..i];
  }

  lemma DumpOutputStep(ts: seq<string>, i: nat)
    requires i < |ts|
    ensures DumpOutput(ts[..i + 1]) == DumpOutput(ts[..i]) + DumpLine(ts[i])
  {
    ConcatStep(DumpLine, ts, i);
  }

  /** The dump filter in plain terms: some character is neither a digit, a hyphen nor white
      space, and "Reset" occurs nowhere. */
  lemma DumpedIff(t: string)
    ensures Dumped(t) <==>
      (exists i :: 0 <= i < |t| && Significant(t[i])) && !(exists i :: OccursAt(t, "Reset", i))
  {
    StripBlankIff(t);
    ContainsIff(t, "Reset");
  }

  lemma ConcatSnoc(f: string -> string, ts: seq<string>, t: string)
    ensures Concat(f, ts + [t]) == Concat(f, ts) + f(t)
  {
    assert (ts + [t])[..|ts|] == ts;
  }

  lemma {:induction false} ConcatAppend(f: string -> string, a: seq<string>, b: seq<string>)
    ensures Concat(f, a + b) == Concat(f, a) + Concat(f, b)
    decreases |b|
  {
    if b == [] {
      assert a + b == a;
    } else {
      var c, t := b[..|b| - 1], b[|b| - 1];
      assert b == c + [t];
      assert a + b == (a + c) + [t];
      ConcatAppend(f, a, c);
      ConcatSnoc(f, a + c, t);
      ConcatSnoc(f, c, t);
      Associative(Concat(f, a), Concat(f, c), f(t));
    }
  }

  lemma {:induction false} ConcatEmptyIff(f: string -> string, ts: seq<string>)
    ensures Concat(f, ts) == "" <==> forall i :: 0 <= i < |ts| ==> f(ts[i]) == ""
    decreases |ts|
  {
    if ts != [] {
      var init := ts[..|ts| - 1];
      ConcatEmptyIff(f, init);
      assert forall i :: 0 <= i < |init| ==> init[i] == ts[i];
      assert |Concat(f, ts)| == |Concat(f, init)| + |f(ts[|ts| - 1])|;
    }
  }

  /** The dump of two runs is the dump of the first followed by the dump of the second. */
  lemma DumpOutputAppend(a: seq<string>, b: seq<string>)
    ensures DumpOutput(a + b) == DumpOutput(a) + DumpOutput(b)
  {
    ConcatAppend(DumpLine, a, b);
  }

  /** The output is empty exactly when no text passes the filter. */
  lemma DumpOutputEmptyIff(ts: seq<string>)
    ensures DumpOutput(ts) == "" <==> forall i :: 0 <= i < |ts| ==> !Dumped(ts[i])
  {
    ConcatEmptyIff(DumpLine, ts);
    forall i | 0 <= i < |ts| ensures DumpLine(ts[i]) == "" <==> !Dumped(ts[i]) {
      assert Dumped(ts[i]) ==> |DumpLine(ts[i])| >= 3;
    }
  }

  /** A single text is written as its trimmed form followed by "=\r\n", or not at all. */
  lemma DumpOne(t: string)
    ensures DumpOutput([t]) == if Dumped(t) then Trim(t) + "=\r\n" else ""
  {
    DumpOutputStep([t], 0);
    assert [t][..1] == [t] && [t][..0] == [];
  }

  /** Only digits and a hyphen: left out. */
  lemma DumpSkipsNumbers()
    ensures !Dumped("42-7")
  {
    DumpedIff("42-7");
  }

  /** A text that starts with a character other than a digit, a hyphen or white space, and
      has no 'R' anywhere, is written. */
  lemma SignificantStartDumped(t: string)
    requires t != [] && Significant(t[0])
    requires forall i :: 0 <= i < |t| ==> t[i] != 'R'
    ensures Dumped(t)
  {
    var r := StripDigitsAndDashes(t);
    assert r == [t[0]] + StripDigitsAndDashes(t[1..]);
    assert r[0] == t[0];
    MissingFirstChar(t, "Reset");
  }

  /** A word with a number: written. */
  lemma DumpKeepsWords()
    ensures Dumped("Level 42")
  {
    SignificantStartDumped("Level 42");
  }

  /** Anything containing "Reset": left out. */
  lemma DumpSkipsReset()
    ensures !Dumped("Reset all")
  {
    DumpedIff("Reset all");
    assert OccursAt("Reset all", "Reset", 0);
  }
}
