/** Compiled translation archives and the two lookup tables the loaders fill from them. */
module Tables {
  import opened Strings
  import opened Wrappers

  /** An unsigned 8-bit value. */
  type Byte = x: int | 0 <= x < 256

  /** A compiled line: the text to recognise, its replacement, whether the original is a
      regular expression, and the level (scene) numbers it is meant for; level 255 means every scene. */
  datatype Line = Line(original: string, translated: string, isRegex: bool, levels: seq<Byte>)

  /** A section of an archive, tagged with the executable it applies to ("all" for every one). */
  datatype Section = Section(exe: string, lines: seq<Line>)

  datatype Archive = Archive(sections: seq<Section>)

  /** The parts of the regular-expression engine the translator touches: whether constructing a
      Regex from a pattern succeeds, whether a pattern matches somewhere in an input, and
      Regex.Replace(input, replacement), which substitutes every match. */
  datatype RegexEngine = RegexEngine(
    valid: string -> bool,
    matches: (string, string) -> bool,
    replace: (string, string, string) -> string)

  /** An exact table keyed by the untrimmed original text, and a pattern table in insertion
      order. A pattern entry is keyed by a freshly built Regex object, so no entry ever replaces
      another; its pattern is the line's original text. */
  datatype Tables = Tables(exact: map<string, Line>, patterns: seq<Line>)

  const Empty := Tables(map[], [])

  /** The outcome of a load: the tables as filled, and whether every line was inserted. */
  datatype Loaded = Loaded(tables: Tables, complete: bool)

  /** One line inserted into the tables: a pattern is appended, a plain line overwrites its key. */
  function Insert(t: Tables, l: Line): Tables {
    if l.isRegex then t.(patterns := t.patterns + [l])
    else t.(exact := t.exact[l.original := l])
  }

  /** A pattern line whose Regex constructor throws. */
  predicate Rejected(l: Line, re: RegexEngine) {
    l.isRegex && !re.valid(l.original)
  }

  /** Inserting `ls` in order. The first rejected pattern raises an exception that ends the
      load, leaving what was inserted before it. */
  function Fill(t: Tables, ls: seq<Line>, re: RegexEngine): Loaded
    decreases |ls|
  {
    if ls == [] then Loaded(t, true)
    else if Rejected(ls[0], re) then Loaded(t, false)
    else Fill(Insert(t, ls[0]), ls[1..], re)
  }

  /** Inserting every line of `ls` in order, with no exception. */
  function Build(t: Tables, ls: seq<Line>): Tables
    decreases |ls|
  {
    if ls == [] then t else Build(Insert(t, ls[0]), ls[1..])
  }

  /** The number of lines before the first rejected pattern. */
  function ValidPrefix(ls: seq<Line>, re: RegexEngine): (n: nat)
    ensures n <= |ls|
    ensures forall i :: 0 <= i < n ==> !Rejected(ls[i], re)
    ensures n < |ls| ==> Rejected(ls[n], re)
    decreases |ls|
  {
    if ls == [] || Rejected(ls[0], re) then 0 else 1 + ValidPrefix(ls[1..], re)
  }

  /** The pattern lines of `ls`, in order. */
  function PatternLines(ls: seq<Line>): seq<Line>
    decreases |ls|
  {
    if ls == [] then []
    else (if ls[0].isRegex then [ls[0]] else []) + PatternLines(ls[1..])
  }

  /** Line `l` is a plain line with key `k`. */
  predicate PlainFor(l: Line, k: string) {
    !l.isRegex && l.original == k
  }

  // ---------------------------------------------------------------------------
  // Which lines each loader inserts.

  /** The section's exe is "all" or the running executable's name, ignoring case. */
  predicate SectionApplies(sec: Section, exe: string) {
    EqualsIgnoreCase(sec.exe, "all") || EqualsIgnoreCase(sec.exe, exe)
  }

  /** (byte)sceneIndex: the low eight bits of a two's-complement int. */
  function SceneByte(sceneIndex: int): Byte {
    sceneIndex % 256
  }

  /** Some level of the line is the scene's byte or 255. */
  predicate InScene(l: Line, sceneIndex: int) {
    exists i :: 0 <= i < |l.levels| && (l.levels[i] == SceneByte(sceneIndex) || l.levels[i] == 255)
  }

  /** The lines of one section meant for the scene, in order. */
  function LevelLines(ls: seq<Line>, sceneIndex: int): seq<Line>
    decreases |ls|
  {
    if ls == [] then []
    else (if InScene(ls[0], sceneIndex) then [ls[0]] else []) + LevelLines(ls[1..], sceneIndex)
  }

  /** The lines of a run of sections that a scene load inserts, in order. */
  function SectionLines(ss: seq<Section>, exe: string, sceneIndex: int): seq<Line>
    decreases |ss|
  {
    if ss == [] then []
    else (if SectionApplies(ss[0], exe) then LevelLines(ss[0].lines, sceneIndex) else [])
         + SectionLines(ss[1..], exe, sceneIndex)
  }

  /** The lines a scene load inserts from `arcs`, in order. */
  function SceneLines(arcs: seq<Archive>, exe: string, sceneIndex: int): seq<Line>
    decreases |arcs|
  {
    if arcs == [] then []
    else SectionLines(arcs[0].sections, exe, sceneIndex) + SceneLines(arcs[1..], exe, sceneIndex)
  }

  /** Every line of a run of sections, in order. */
  function AllLines(ss: seq<Section>): seq<Line>
    decreases |ss|
  {
    if ss == [] then [] else ss[0].lines + AllLines(ss[1..])
  }

  /** The lines a folder load inserts: all of them, or none if the folder is missing or fails to compile. */
  function FolderLines(content: Option<Archive>): seq<Line> {
    if content.Some? then AllLines(content.value.sections) else []
  }

  /** The tables a folder load leaves. */
  function FolderTables(content: Option<Archive>, re: RegexEngine): Tables {
    Fill(Empty, FolderLines(content), re).tables
  }

  // ---------------------------------------------------------------------------
  // What a fill leaves in the tables.

  /** A fill inserts exactly the lines before the first rejected pattern, and completes exactly
      when there is none. */
  lemma {:induction false} FillIsBuildOfValidPrefix(t: Tables, ls: seq<Line>, re: RegexEngine)
    ensures Fill(t, ls, re) == Loaded(Build(t, ls[..ValidPrefix(ls, re)]), ValidPrefix(ls, re) == |ls|)
    decreases |ls|
  {
    if ls != [] && !Rejected(ls[0], re) {
      var n := ValidPrefix(ls, re);
      FillIsBuildOfValidPrefix(Insert(t, ls[0]), ls[1..], re);
      assert ls[..n][0] == ls[0];
      assert ls[..n][1..] == ls[1..][..n - 1];
    }
  }

  /** A fill completes exactly when no line is a rejected pattern. */
  lemma FillCompleteIff(t: Tables, ls: seq<Line>, re: RegexEngine)
    ensures Fill(t, ls, re).complete <==> forall i :: 0 <= i < |ls| ==> !Rejected(ls[i], re)
  {
    FillIsBuildOfValidPrefix(t, ls, re);
  }

  /** The pattern table gains the pattern lines, all of them and in order, even repeated ones. */
  lemma {:induction false} BuildPatterns(t: Tables, ls: seq<Line>)
    ensures Build(t, ls).patterns == t.patterns + PatternLines(ls)
    decreases |ls|
  {
    if ls != [] {
      BuildPatterns(Insert(t, ls[0]), ls[1..]);
      assert t.patterns + (if ls[0].isRegex then [ls[0]] else []) + PatternLines(ls[1..])
          == t.patterns + PatternLines(ls);
    }
  }

  /** Line `i` is the last plain line of `ls` with key `k`. */
  predicate LastPlain(ls: seq<Line>, k: string, i: int) {
    0 <= i < |ls| && PlainFor(ls[i], k) && forall j :: i < j < |ls| ==> !PlainFor(ls[j], k)
  }

  /** A key with no plain line in `ls` keeps whatever entry it had. */
  lemma {:induction false} BuildKeepsOtherKeys(t: Tables, ls: seq<Line>, k: string)
    requires forall i :: 0 <= i < |ls| ==> !PlainFor(ls[i], k)
    ensures k in Build(t, ls).exact <==> k in t.exact
    ensures k in t.exact ==> Build(t, ls).exact[k] == t.exact[k]
    decreases |ls|
  {
    if ls != [] {
      assert !PlainFor(ls[0], k);
      BuildKeepsOtherKeys(Insert(t, ls[0]), ls[1..], k);
    }
  }

  /** Among plain lines with the same key, the last one inserted is the entry. */
  lemma {:induction false} BuildLastWins(t: Tables, ls: seq<Line>, k: string, i: int)
    requires LastPlain(ls, k, i)
    ensures k in Build(t, ls).exact && Build(t, ls).exact[k] == ls[i]
    decreases |ls|
  {
    var t' := Insert(t, ls[0]);
    if i == 0 {
      assert t'.exact[k] == ls[0];
      BuildKeepsOtherKeys(t', ls[1..], k);
    } else {
      assert LastPlain(ls[1..], k, i - 1);
      BuildLastWins(t', ls[1..], k, i - 1);
    }
  }

  /** Starting from empty tables, a key is present exactly when some plain line has it, and its
      entry is the last such line. */
  lemma BuildExact(ls: seq<Line>, k: string)
    ensures k in Build(Empty, ls).exact <==> exists i :: 0 <= i < |ls| && PlainFor(ls[i], k)
    ensures k in Build(Empty, ls).exact ==> exists i :: LastPlain(ls, k, i) && Build(Empty, ls).exact[k] == ls[i]
  {
    if exists i :: 0 <= i < |ls| && PlainFor(ls[i], k) {
      var i := LastPlainIndex(ls, k);
      BuildLastWins(Empty, ls, k, i);
    } else {
      BuildKeepsOtherKeys(Empty, ls, k);
    }
  }

  /** The index of the last plain line with key `k`. */
  lemma {:induction false} LastPlainIndex(ls: seq<Line>, k: string) returns (i: int)
    requires exists i :: 0 <= i < |ls| && PlainFor(ls[i], k)
    ensures LastPlain(ls, k, i)
    decreases |ls|
  {
    if PlainFor(ls[|ls| - 1], k) {
      i := |ls| - 1;
    } else {
      var j :| 0 <= j < |ls| && PlainFor(ls[j], k);
      assert ls[..|ls| - 1][j] == ls[j];
      i := LastPlainIndex(ls[..|ls| - 1], k);
      assert ls[..|ls| - 1][i] == ls[i];
      forall j | i < j < |ls| ensures !PlainFor(ls[j], k) {
        if j < |ls| - 1 { assert ls[..|ls| - 1][j] == ls[j]; }
      }
    }
  }

  // ---------------------------------------------------------------------------
  // Which lines the filters select.

  lemma {:induction false} LevelLinesMembership(ls: seq<Line>, s: int, l: Line)
    ensures l in LevelLines(ls, s) <==> l in ls && InScene(l, s)
    decreases |ls|
  {
    if ls != [] {
      LevelLinesMembership(ls[1..], s, l);
      assert l in ls <==> l == ls[0] || l in ls[1..];
    }
  }

  lemma {:induction false} SectionLinesMembership(ss: seq<Section>, exe: string, s: int, l: Line)
    ensures l in SectionLines(ss, exe, s) <==>
      exists k :: 0 <= k < |ss| && SectionApplies(ss[k], exe) && l in ss[k].lines && InScene(l, s)
    decreases |ss|
  {
    if ss != [] {
      SectionLinesMembership(ss[1..], exe, s, l);
      LevelLinesMembership(ss[0].lines, s, l);
      if exists k :: 0 <= k < |ss| && SectionApplies(ss[k], exe) && l in ss[k].lines && InScene(l, s) {
        var k :| 0 <= k < |ss| && SectionApplies(ss[k], exe) && l in ss[k].lines && InScene(l, s);
        if k > 0 { assert ss[1..][k - 1] == ss[k]; }
      }
      if exists k :: 0 <= k < |ss[1..]| && SectionApplies(ss[1..][k], exe) && l in ss[1..][k].lines && InScene(l, s) {
        var k :| 0 <= k < |ss[1..]| && SectionApplies(ss[1..][k], exe) && l in ss[1..][k].lines && InScene(l, s);
        assert ss[k + 1] == ss[1..][k];
      }
    }
  }

  /** `l` is a line of a section of one of `arcs` that applies to the executable, and one of its
      levels is the scene's byte or 255. */
  predicate Selected(arcs: seq<Archive>, exe: string, s: int, l: Line) {
    exists a, k :: 0 <= a < |arcs| && 0 <= k < |arcs[a].sections| &&
      SectionApplies(arcs[a].sections[k], exe) && l in arcs[a].sections[k].lines && InScene(l, s)
  }

  /** After a scene load's filter, a line is inserted exactly when its section applies to the
      running executable and one of its levels is the scene's byte or 255. */
  lemma {:induction false} SceneLinesMembership(arcs: seq<Archive>, exe: string, s: int, l: Line)
    ensures l in SceneLines(arcs, exe, s) <==> Selected(arcs, exe, s, l)
    decreases |arcs|
  {
    if arcs != [] {
      SceneLinesMembership(arcs[1..], exe, s, l);
      SectionLinesMembership(arcs[0].sections, exe, s, l);
      if exists a, k :: 0 <= a < |arcs| && 0 <= k < |arcs[a].sections| &&
          SectionApplies(arcs[a].sections[k], exe) && l in arcs[a].sections[k].lines && InScene(l, s) {
        var a, k :| 0 <= a < |arcs| && 0 <= k < |arcs[a].sections| &&
          SectionApplies(arcs[a].sections[k], exe) && l in arcs[a].sections[k].lines && InScene(l, s);
        if a > 0 { assert arcs[1..][a - 1] == arcs[a]; }
      }
      if exists a, k :: 0 <= a < |arcs[1..]| && 0 <= k < |arcs[1..][a].sections| &&
          SectionApplies(arcs[1..][a].sections[k], exe) && l in arcs[1..][a].sections[k].lines && InScene(l, s) {
        var a, k :| 0 <= a < |arcs[1..]| && 0 <= k < |arcs[1..][a].sections| &&
          SectionApplies(arcs[1..][a].sections[k], exe) && l in arcs[1..][a].sections[k].lines && InScene(l, s);
        assert arcs[a + 1] == arcs[1..][a];
      }
    }
  }

  /** A folder load takes every line of every section, whatever its exe and levels. */
  lemma {:induction false} AllLinesMembership(ss: seq<Section>, l: Line)
    ensures l in AllLines(ss) <==> exists k :: 0 <= k < |ss| && l in ss[k].lines
    decreases |ss|
  {
    if ss != [] {
      AllLinesMembership(ss[1..], l);
      if exists k :: 0 <= k < |ss| && l in ss[k].lines {
        var k :| 0 <= k < |ss| && l in ss[k].lines;
        if k > 0 { assert ss[1..][k - 1] == ss[k]; }
      }
      if exists k :: 0 <= k < |ss[1..]| && l in ss[1..][k].lines {
        var k :| 0 <= k < |ss[1..]| && l in ss[1..][k].lines;
        assert ss[k + 1] == ss[1..][k];
      }
    }
  }

  /** (byte) keeps the low eight bits: -1 is 255 and 256 is 0. */
  lemma SceneByteExamples()
    ensures SceneByte(-1) == 255 && SceneByte(256) == 0 && SceneByte(3) == 3
  {
  }

  /** After a complete scene load, a key is in the exact table exactly when a plain line with that
      key sits in a section that applies to the executable and is meant for the scene. */
  lemma SceneLoadExactKeys(arcs: seq<Archive>, exe: string, s: int, re: RegexEngine, key: string)
    requires Fill(Empty, SceneLines(arcs, exe, s), re).complete
    ensures key in Fill(Empty, SceneLines(arcs, exe, s), re).tables.exact <==>
      exists l :: Selected(arcs, exe, s, l) && PlainFor(l, key)
  {
    var ls := SceneLines(arcs, exe, s);
    FillIsBuildOfValidPrefix(Empty, ls, re);
    assert ls[..|ls|] == ls;
    BuildExact(ls, key);
    if exists i :: 0 <= i < |ls| && PlainFor(ls[i], key) {
      var i :| 0 <= i < |ls| && PlainFor(ls[i], key);
      SceneLinesMembership(arcs, exe, s, ls[i]);
    }
    if exists l :: Selected(arcs, exe, s, l) && PlainFor(l, key) {
      var l :| Selected(arcs, exe, s, l) && PlainFor(l, key);
      SceneLinesMembership(arcs, exe, s, l);
      var i :| 0 <= i < |ls| && ls[i] == l;
    }
  }

  /** A line is among the pattern lines exactly when it is one of the lines and a pattern. */
  lemma {:induction false} PatternLinesMembership(ls: seq<Line>, l: Line)
    ensures l in PatternLines(ls) <==> l in ls && l.isRegex
    decreases |ls|
  {
    if ls != [] {
      PatternLinesMembership(ls[1..], l);
      assert l in ls <==> l == ls[0] || l in ls[1..];
    }
  }

  /** After a complete scene load, a pattern line is in the pattern table exactly when it sits in
      a section that applies to the executable and is meant for the scene. */
  lemma SceneLoadPatterns(arcs: seq<Archive>, exe: string, s: int, re: RegexEngine, l: Line)
    requires Fill(Empty, SceneLines(arcs, exe, s), re).complete
    ensures l in Fill(Empty, SceneLines(arcs, exe, s), re).tables.patterns <==> l.isRegex && Selected(arcs, exe, s, l)
  {
    var ls := SceneLines(arcs, exe, s);
    FillIsBuildOfValidPrefix(Empty, ls, re);
    assert ls[..|ls|] == ls;
    BuildPatterns(Empty, ls);
    assert Empty.patterns + PatternLines(ls) == PatternLines(ls);
    PatternLinesMembership(ls, l);
    SceneLinesMembership(arcs, exe, s, l);
  }

  // ---------------------------------------------------------------------------
  // One step of the loaders' loops.

  lemma FillCons(t: Tables, x: Line, rest: seq<Line>, re: RegexEngine)
    ensures Fill(t, [x] + rest, re) ==
      if Rejected(x, re) then Loaded(t, false) else Fill(Insert(t, x), rest, re)
  {
    assert ([x] + rest)[0] == x;
    assert ([x] + rest)[1..] == rest;
  }

  lemma LevelLinesStep(ls: seq<Line>, j: nat, s: int)
    requires j < |ls|
    ensures LevelLines(ls[j..], s) == (if InScene(ls[j], s) then [ls[j]] else []) + LevelLines(ls[j + 1..], s)
  {
    assert ls[j..][0] == ls[j];
    assert ls[j..][1..] == ls[j + 1..];
  }

  lemma SectionLinesStep(ss: seq<Section>, k: nat, exe: string, s: int)
    requires k < |ss|
    ensures SectionLines(ss[k..], exe, s) ==
      (if SectionApplies(ss[k], exe) then LevelLines(ss[k].lines, s) else []) + SectionLines(ss[k + 1..], exe, s)
  {
    assert ss[k..][0] == ss[k];
    assert ss[k..][1..] == ss[k + 1..];
  }

  lemma SceneLinesStep(arcs: seq<Archive>, a: nat, exe: string, s: int)
    requires a < |arcs|
    ensures SceneLines(arcs[a..], exe, s) == SectionLines(arcs[a].sections, exe, s) + SceneLines(arcs[a + 1..], exe, s)
  {
    assert arcs[a..][0] == arcs[a];
    assert arcs[a..][1..] == arcs[a + 1..];
  }

  lemma AllLinesStep(ss: seq<Section>, k: nat)
    requires k < |ss|
    ensures AllLines(ss[k..]) == ss[k].lines + AllLines(ss[k + 1..])
  {
    assert ss[k..][0] == ss[k];
    assert ss[k..][1..] == ss[k + 1..];
  }
  /** One iteration of the innermost scene loop, stated on the remaining fill. */
  lemma FillLevelStep(t: Tables, ls: seq<Line>, j: nat, s: int, after: seq<Line>, re: RegexEngine)
    requires j < |ls|
    ensures Fill(t, LevelLines(ls[j..], s) + after, re) ==
      if !InScene(ls[j], s) then Fill(t, LevelLines(ls[j + 1..], s) + after, re)
      else if Rejected(ls[j], re) then Loaded(t, false)
      else Fill(Insert(t, ls[j]), LevelLines(ls[j + 1..], s) + after, re)
  {
    LevelLinesStep(ls, j, s);
    if InScene(ls[j], s) {
      assert LevelLines(ls[j..], s) + after == [ls[j]] + (LevelLines(ls[j + 1..], s) + after);
      FillCons(t, ls[j], LevelLines(ls[j + 1..], s) + after, re);
    } else {
      assert LevelLines(ls[j..], s) == LevelLines(ls[j + 1..], s);
    }
  }

  /** One iteration of the section loop of a scene load, stated on the remaining fill. */
  lemma FillSectionStep(t: Tables, ss: seq<Section>, k: nat, exe: string, s: int, rest: seq<Line>, re: RegexEngine)
    requires k < |ss|
    ensures Fill(t, SectionLines(ss[k..], exe, s) + rest, re) ==
      if SectionApplies(ss[k], exe)
      then Fill(t, LevelLines(ss[k].lines[0..], s) + (SectionLines(ss[k + 1..], exe, s) + rest), re)
      else Fill(t, SectionLines(ss[k + 1..], exe, s) + rest, re)
  {
    SectionLinesStep(ss, k, exe, s);
    assert ss[k].lines[0..] == ss[k].lines;
    if SectionApplies(ss[k], exe) {
      assert SectionLines(ss[k..], exe, s) + rest ==
        LevelLines(ss[k].lines, s) + (SectionLines(ss[k + 1..], exe, s) + rest);
    } else {
      assert SectionLines(ss[k..], exe, s) + rest == SectionLines(ss[k + 1..], exe, s) + rest;
    }
  }

  /** One iteration of the archive loop of a scene load, stated on the remaining fill. */
  lemma FillArchiveStep(t: Tables, arcs: seq<Archive>, a: nat, exe: string, s: int, re: RegexEngine)
    requires a < |arcs|
    ensures Fill(t, SceneLines(arcs[a..], exe, s), re) ==
      Fill(t, SectionLines(arcs[a].sections[0..], exe, s) + SceneLines(arcs[a + 1..], exe, s), re)
  {
    SceneLinesStep(arcs, a, exe, s);
    assert arcs[a].sections[0..] == arcs[a].sections;
  }

  /** Nothing remains of a run once it is exhausted. */
  lemma ExhaustedRuns(ls: seq<Line>, ss: seq<Section>, exe: string, s: int, rest: seq<Line>)
    ensures LevelLines(ls[|ls|..], s) + rest == rest
    ensures SectionLines(ss[|ss|..], exe, s) + rest == rest
    ensures ls[|ls|..] + rest == rest
    ensures AllLines(ss[|ss|..]) == []
  {
    assert ls[|ls|..] == [];
    assert ss[|ss|..] == [];
  }

  /** One iteration of the inner folder loop, stated on the remaining fill. */
  lemma FillLineStep(t: Tables, ls: seq<Line>, j: nat, after: seq<Line>, re: RegexEngine)
    requires j < |ls|
    ensures Fill(t, ls[j..] + after, re) ==
      if Rejected(ls[j], re) then Loaded(t, false) else Fill(Insert(t, ls[j]), ls[j + 1..] + after, re)
  {
    assert ls[j..] + after == [ls[j]] + (ls[j + 1..] + after) by {
      assert ls[j..] == [ls[j]] + ls[j + 1..];
    }
    FillCons(t, ls[j], ls[j + 1..] + after, re);
  }

  /** One iteration of the section loop of a folder load, stated on the remaining fill. */
  lemma FillAllStep(t: Tables, ss: seq<Section>, k: nat, re: RegexEngine)
    requires k < |ss|
    ensures Fill(t, AllLines(ss[k..]), re) == Fill(t, ss[k].lines[0..] + AllLines(ss[k + 1..]), re)
  {
    AllLinesStep(ss, k);
    assert ss[k].lines[0..] == ss[k].lines;
  }
}
