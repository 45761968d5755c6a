/** The translator's static state and its operations: loading the tables, translating a text,
    reverting every widget, and dumping the untranslated texts. */
module Translator {
  import opened Wrappers
  import opened Strings
  import opened Tables
  import opened Registry
  import opened Resolution

  class TextTranslator {
    /** The running executable's name, to which sections may be restricted. */
    const currentExe: string
    /** The regular-expression engine. */
    const re: RegexEngine

    /** The compiled archives. */
    var archives: seq<Archive>
    /** The scene tables. */
    var translations: map<string, Line>
    var regexTranslations: seq<Line>
    /** The folder whose tables are loaded (None before the first folder request), and its tables. */
    var currentFolder: Option<string>
    var folderTranslations: map<string, Line>
    var regexFolderTranslations: seq<Line>
    /** The first text seen for each widget. */
    var originals: seq<Registration>
    /** Texts nothing could translate, without repetition, in the order first seen. */
    var untranslated: seq<string>
    /** Whether the text hooks call back into the translator. */
    var hooksEnabled: bool
    /** How many times a folder has been loaded. */
    ghost var folderLoads: nat

    ghost predicate Valid()
      reads this`untranslated, this`originals
    {
      NoDuplicates(untranslated) && UniqueTargets(originals)
    }

    constructor(exe: string, engine: RegexEngine, hooks: bool)
      ensures Valid()
      ensures currentExe == exe && re == engine && hooksEnabled == hooks
      ensures archives == [] && translations == map[] && regexTranslations == []
      ensures currentFolder == None && folderTranslations == map[] && regexFolderTranslations == []
      ensures originals == [] && untranslated == [] && folderLoads == 0
    {
      currentExe := exe;
      re := engine;
      archives := [];
      translations := map[];
      regexTranslations := [];
      currentFolder := None;
      folderTranslations := map[];
      regexFolderTranslations := [];
      originals := [];
      untranslated := [];
      hooksEnabled := hooks;
      folderLoads := 0;
    }

    /** Replaces the archives by the compiled text folder, or by none if compilation throws. */
    method LoadTextTranslations(compiled: Option<Archive>)
      modifies this`archives
      ensures archives == if compiled.Some? then [compiled.value] else []
    {
      archives := [];
      if compiled.Some? {
        archives := archives + [compiled.value];
      }
    }

    /** Walks the scene or the folder pattern table and rewrites the input with the first
        pattern that matches (PatternLookupFirstMatch states what that answer is). */
    method TryGetRegex(input: string, folderTable: bool) returns (line: Option<string>)
      ensures line == PatternLookup(if folderTable then regexFolderTranslations else regexTranslations, input, re)
    {
      var table := if folderTable then regexFolderTranslations else regexTranslations;
      var i := 0;
      while i < |table|
        invariant 0 <= i <= |table|
        invariant PatternLookup(table[i..], input, re) == PatternLookup(table, input, re)
      {
        assert table[i..][0] == table[i] && table[i..][1..] == table[i + 1..];
        if re.matches(table[i].original, input) {
          return Some(re.replace(table[i].original, input, table[i].translated));
        }
        i := i + 1;
      }
      return None;
    }

    /** Stores the widget's text unless an entry already targets the widget. */
    method RegisterOriginal(obj: Widget, input: string)
      requires UniqueTargets(originals)
      modifies this`originals
      ensures UniqueTargets(originals)
      ensures originals == Register(old(originals), obj, input)
    {
      RegisterKeepsUnique(originals, obj, input);
      if !Registered(originals, obj) {
        originals := originals + [Registration(obj, input)];
      }
    }

    /** Adds a text nothing could translate to the untranslated texts, unless it is there already. */
    method RecordUntranslated(input: string)
      requires NoDuplicates(untranslated)
      modifies this`untranslated
      ensures NoDuplicates(untranslated)
      ensures untranslated == AddOnce(old(untranslated), input)
    {
      AddOnceKeepsNoDuplicates(untranslated, input);
      if input !in untranslated {
        untranslated := untranslated + [input];
      }
    }

    /** Translates a widget's text: registers the widget's first text, then answers from the
        exact table, the pattern table or the widget's hook, and otherwise records the text as untranslated. */
    method TranslateText(input: string, obj: Widget, hooks: Hooks) returns (r: string)
      requires Valid()
      modifies this`originals, this`untranslated
      ensures Valid()
      ensures var o := Resolve(translations, regexTranslations, input, HookAnswer(hooks, obj, input), re);
        r == Output(o, input) &&
        untranslated == (if o == NoMatch then AddOnce(old(untranslated), input) else old(untranslated))
      ensures originals == if input == "" then old(originals) else Register(old(originals), obj, input)
    {
      if input == "" {
        return input;
      }
      ghost var o := Resolve(translations, regexTranslations, input, HookAnswer(hooks, obj, input), re);
      RegisterOriginal(obj, input);
      var key := Trim(input);
      if key in translations {
        assert o == ExactHit(translations[key].translated);
        return translations[key].translated;
      }
      var regexTranslation := TryGetRegex(input, false);
      if regexTranslation.Some? {
        assert o == PatternHit(regexTranslation.value);
        return regexTranslation.value;
      }
      match obj.kind {
        case UguiText =>
          var immediate := hooks.ugui(obj, input);
          if immediate.Some? {
            assert o == HookHit(immediate.value);
            return immediate.value;
          }
        case TmpText =>
          var immediate := hooks.tmp(obj, input);
          if immediate.Some? {
            assert o == HookHit(immediate.value);
            return immediate.value;
          }
        case OtherObject =>
      }
      assert o == NoMatch;
      RecordUntranslated(input);
      return input;
    }

    /** The simpler translation: no registry, no untranslated set, no hooks, and patterns only while the key is held. */
    method TranslateTextAlternate(input: string, keyHeld: bool) returns (r: string)
      ensures r == Alternate(translations, regexTranslations, input, keyHeld, re)
    {
      if input == "" {
        return input;
      }
      var key := Trim(input);
      if key in translations {
        return translations[key].translated;
      }
      if keyHeld {
        var regexTranslation := TryGetRegex(input, false);
        if regexTranslation.Some? {
          return regexTranslation.value;
        }
      }
      return input;
    }

    /** Clears both folder tables and fills them with every line of the folder's archive. A
        missing folder or a failed compilation leaves them empty; a rejected pattern ends the
        fill, and the exception is caught. */
    method LoadTranslationsFromFolder(content: Option<Archive>)
      modifies this`folderTranslations, this`regexFolderTranslations, this`folderLoads
      ensures Tables(folderTranslations, regexFolderTranslations) == FolderTables(content, re)
      ensures folderLoads == old(folderLoads) + 1
    {
      folderLoads := folderLoads + 1;
      folderTranslations := map[];
      regexFolderTranslations := [];
      if content.None? {
        return;
      }
      ghost var goal := Fill(Empty, FolderLines(content), re);
      var sections := content.value.sections;
      assert sections[0..] == sections;
      var k := 0;
      while k < |sections|
        invariant 0 <= k <= |sections|
        invariant Fill(Tables(folderTranslations, regexFolderTranslations), AllLines(sections[k..]), re) == goal
        invariant folderLoads == old(folderLoads) + 1
      {
        FillAllStep(Tables(folderTranslations, regexFolderTranslations), sections, k, re);
        var lines := sections[k].lines;
        ghost var after := AllLines(sections[k + 1..]);
        var j := 0;
        while j < |lines|
          invariant 0 <= j <= |lines|
          invariant Fill(Tables(folderTranslations, regexFolderTranslations), lines[j..] + after, re) == goal
          invariant folderLoads == old(folderLoads) + 1
        {
          var line := lines[j];
          FillLineStep(Tables(folderTranslations, regexFolderTranslations), lines, j, after, re);
          if line.isRegex {
            if !re.valid(line.original) {
              return;
            }
            regexFolderTranslations := regexFolderTranslations + [line];
          } else {
            folderTranslations := folderTranslations[line.original := line];
          }
          j := j + 1;
        }
        ExhaustedRuns(lines, [], currentExe, 0, after);
        k := k + 1;
      }
      ExhaustedRuns([], sections, currentExe, 0, []);
    }

    /** Makes `folder` the current folder, loading its tables only when it differs from the
        current one. */
    method SwitchFolder(folder: string, content: Option<Archive>)
      modifies this`currentFolder, this`folderTranslations, this`regexFolderTranslations, this`folderLoads
      ensures currentFolder == Some(folder)
      ensures old(currentFolder) == Some(folder) ==>
        folderTranslations == old(folderTranslations) && regexFolderTranslations == old(regexFolderTranslations) &&
        folderLoads == old(folderLoads)
      ensures old(currentFolder) != Some(folder) ==>
        Tables(folderTranslations, regexFolderTranslations) == FolderTables(content, re) &&
        folderLoads == old(folderLoads) + 1
    {
      if currentFolder != Some(folder) {
        LoadTranslationsFromFolder(content);
        currentFolder := Some(folder);
      }
    }

    /** Translates from a folder's tables, loading the folder only when it differs from the
        current one. The pattern fallback consults the scene pattern table. */
    method TranslateTextFromFolder(input: string, folder: string, content: Option<Archive>) returns (r: string)
      requires Valid()
      modifies this`currentFolder, this`folderTranslations, this`regexFolderTranslations, this`untranslated, this`folderLoads
      ensures Valid()
      ensures currentFolder == Some(folder)
      ensures old(currentFolder) == Some(folder) ==>
        folderTranslations == old(folderTranslations) && regexFolderTranslations == old(regexFolderTranslations) &&
        folderLoads == old(folderLoads)
      ensures old(currentFolder) != Some(folder) ==>
        Tables(folderTranslations, regexFolderTranslations) == FolderTables(content, re) &&
        folderLoads == old(folderLoads) + 1
      ensures var o := Resolve(folderTranslations, regexTranslations, input, None, re);
        r == Output(o, input) &&
        untranslated == (if o == NoMatch then AddOnce(old(untranslated), input) else old(untranslated))
    {
      SwitchFolder(folder, content);
      r := TranslateFromFolderTables(input);
    }

    /** The lookup half of a folder request: the folder's exact table, then the scene pattern
        table; a text neither answers is recorded as untranslated. */
    method TranslateFromFolderTables(input: string) returns (r: string)
      requires NoDuplicates(untranslated)
      modifies this`untranslated
      ensures NoDuplicates(untranslated)
      ensures var o := Resolve(folderTranslations, regexTranslations, input, None, re);
        r == Output(o, input) &&
        untranslated == (if o == NoMatch then AddOnce(old(untranslated), input) else old(untranslated))
    {
      if input == "" {
        return input;
      }
      ghost var o := Resolve(folderTranslations, regexTranslations, input, None, re);
      var key := Trim(input);
      if key in folderTranslations {
        assert o == ExactHit(folderTranslations[key].translated);
        return folderTranslations[key].translated;
      }
      var regexTranslation := TryGetRegex(input, false);
      if regexTranslation.Some? {
        assert o == PatternHit(regexTranslation.value);
        return regexTranslation.value;
      }
      assert o == NoMatch by {
        assert ExactLookup(folderTranslations, input) == None;
        assert PatternLookup(regexTranslations, input, re) == None;
      }
      RecordUntranslated(input);
      return input;
    }

    /** The innermost loop of a scene load: adds the lines of one applicable section that are
        meant for the scene to the tables under construction; `ok` is false when a rejected
        pattern ended the load, and `t'` holds what was inserted up to that point. */
    method LoadLevelLines(t: Tables, lines: seq<Line>, sceneIndex: int, ghost after: seq<Line>)
      returns (t': Tables, ok: bool)
      ensures Fill(t, LevelLines(lines, sceneIndex) + after, re) ==
        if ok then Fill(t', after, re) else Loaded(t', false)
    {
      t' := t;
      ghost var goal := Fill(t, LevelLines(lines, sceneIndex) + after, re);
      assert lines[0..] == lines;
      var j := 0;
      while j < |lines|
        invariant 0 <= j <= |lines|
        invariant Fill(t', LevelLines(lines[j..], sceneIndex) + after, re) == goal
      {
        var line := lines[j];
        FillLevelStep(t', lines, j, sceneIndex, after, re);
        if InScene(line, sceneIndex) {
          if line.isRegex {
            if !re.valid(line.original) {
              return t', false;
            }
            t' := t'.(patterns := t'.patterns + [line]);
          } else {
            t' := t'.(exact := t'.exact[line.original := line]);
          }
        }
        j := j + 1;
      }
      ExhaustedRuns(lines, [], currentExe, sceneIndex, after);
      return t', true;
    }

    /** Clears both scene tables and fills them with the lines of the sections for this
        executable that are meant for the scene. A rejected pattern raises an exception that ends
        the load; `complete` is false then. */
    method LoadSceneTranslations(sceneIndex: int) returns (complete: bool)
      modifies this`translations, this`regexTranslations
      ensures Loaded(Tables(translations, regexTranslations), complete) ==
        Fill(Empty, SceneLines(archives, currentExe, sceneIndex), re)
    {
      var exact: map<string, Line> := map[];
      var patterns: seq<Line> := [];
      ghost var goal := Fill(Empty, SceneLines(archives, currentExe, sceneIndex), re);
      assert archives[0..] == archives;
      var a := 0;
      while a < |archives|
        invariant 0 <= a <= |archives|
        invariant Fill(Tables(exact, patterns), SceneLines(archives[a..], currentExe, sceneIndex), re) == goal
      {
        FillArchiveStep(Tables(exact, patterns), archives, a, currentExe, sceneIndex, re);
        var sections := archives[a].sections;
        ghost var afterArchive := SceneLines(archives[a + 1..], currentExe, sceneIndex);
        var k := 0;
        while k < |sections|
          invariant 0 <= k <= |sections|
          invariant Fill(Tables(exact, patterns),
                         SectionLines(sections[k..], currentExe, sceneIndex) + afterArchive, re) == goal
        {
          FillSectionStep(Tables(exact, patterns), sections, k, currentExe, sceneIndex, afterArchive, re);
          ghost var after := SectionLines(sections[k + 1..], currentExe, sceneIndex) + afterArchive;
          if SectionApplies(sections[k], currentExe) {
            var t, ok := LoadLevelLines(Tables(exact, patterns), sections[k].lines, sceneIndex, after);
            assert sections[k].lines[0..] == sections[k].lines;
            exact, patterns := t.exact, t.patterns;
            if !ok {
              translations, regexTranslations := exact, patterns;
              return false;
            }
          }
          k := k + 1;
        }
        ExhaustedRuns([], sections, currentExe, sceneIndex, afterArchive);
        a := a + 1;
      }
      assert archives[a..] == [];
      translations, regexTranslations := exact, patterns;
      return true;
    }

    /** Reverts every widget: hooks are off while the stored texts are written back, every live
        entry is counted, and hooks are on again at the end. */
    method UntranslateTextAll(texts: map<Widget, string>, alive: Widget -> bool, fails: Widget -> bool)
      returns (restored: map<Widget, string>, aliveCount: nat)
      modifies this`hooksEnabled
      ensures restored == RestoreAll(texts, originals, alive, fails)
      ensures aliveCount == LiveCount(originals, alive)
      ensures hooksEnabled
    {
      hooksEnabled := false;
      aliveCount := 0;
      restored := texts;
      var i := 0;
      assert originals[0..] == originals;
      while i < |originals|
        invariant 0 <= i <= |originals|
        invariant RestoreAll(restored, originals[i..], alive, fails) == RestoreAll(texts, originals, alive, fails)
        invariant aliveCount + LiveCount(originals[i..], alive) == LiveCount(originals, alive)
      {
        var entry := originals[i];
        assert originals[i..][0] == entry && originals[i..][1..] == originals[i + 1..];
        if alive(entry.target) {
          aliveCount := aliveCount + 1;
          if entry.target.kind != OtherObject && !fails(entry.target) {
            restored := restored[entry.target := entry.original];
          }
        }
        i := i + 1;
      }
      hooksEnabled := true;
    }

    /** The text written to the dump file. */
    method DumpText() returns (output: string)
      ensures output == DumpOutput(untranslated)
    {
      output := "";
      var i := 0;
      while i < |untranslated|
        invariant 0 <= i <= |untranslated|
        invariant output == DumpOutput(untranslated[..i])
      {
        var text := untranslated[i];
        DumpOutputStep(untranslated, i);
        if !AllWhite(StripDigitsAndDashes(text)) && !Contains(text, "Reset") {
          output := output + (Trim(text) + "=\r\n");
        }
        i := i + 1;
      }
      assert untranslated[..i] == untranslated;
    }
  }

  /** Repeated requests for the same folder load it at most once. */
  method RepeatedFolderRequests(t: TextTranslator, inputs: seq<string>, folder: string, content: Option<Archive>)
      returns (outputs: seq<string>)
    requires t.Valid()
    modifies t
    ensures t.Valid()
    ensures |outputs| == |inputs|
    ensures t.currentFolder == (if inputs == [] then old(t.currentFolder) else Some(folder))
    ensures t.folderLoads <= old(t.folderLoads) + 1
    ensures old(t.currentFolder) == Some(folder) ==> t.folderLoads == old(t.folderLoads)
  {
    outputs := [];
    var i := 0;
    while i < |inputs|
      invariant 0 <= i <= |inputs|
      invariant t.Valid()
      invariant |outputs| == i
      invariant t.currentFolder == (if i == 0 then old(t.currentFolder) else Some(folder))
      invariant t.folderLoads <= old(t.folderLoads) + 1
      invariant (i > 0 || old(t.currentFolder) == Some(folder)) ==>
        t.folderLoads == old(t.folderLoads) + (if old(t.currentFolder) == Some(folder) then 0 else 1)
      invariant t.folderLoads == old(t.folderLoads) || i > 0
    {
      var r := t.TranslateTextFromFolder(inputs[i], folder, content);
      outputs := outputs + [r];
      i := i + 1;
    }
  }
}
