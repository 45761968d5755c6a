/** The registry of original texts: one entry per widget, written the first time the widget's
    text goes through the translator, and read back when every translation is reverted. */
module Registry {
  import opened Wrappers

  /** The widget classes the translator distinguishes: a uGUI Text, a TextMeshPro text, or anything else. */
  datatype WidgetKind = UguiText | TmpText | OtherObject

  /** A host object, identified by `id`. */
  datatype Widget = Widget(id: nat, kind: WidgetKind)

  /** A weak reference to a widget paired with the text it had when first seen. */
  datatype Registration = Registration(target: Widget, original: string)

  /** Some entry targets `w`. */
  predicate Registered(reg: seq<Registration>, w: Widget) {
    exists i :: 0 <= i < |reg| && reg[i].target == w
  }

  /** An entry is added only when no entry targets the widget yet. A widget that is being
      translated is alive, so an entry that targets it is alive too. */
  function Register(reg: seq<Registration>, w: Widget, text: string): seq<Registration> {
    if Registered(reg, w) then reg else reg + [Registration(w, text)]
  }

  /** The text stored for `w`: that of the first entry targeting it. */
  function OriginalOf(reg: seq<Registration>, w: Widget): Option<string>
    decreases |reg|
  {
    if reg == [] then None
    else if reg[0].target == w then Some(reg[0].original)
    else OriginalOf(reg[1..], w)
  }

  /** No two entries target the same widget. */
  predicate UniqueTargets(reg: seq<Registration>) {
    forall i, j :: 0 <= i < j < |reg| ==> reg[i].target != reg[j].target
  }

  lemma {:induction false} OriginalOfIff(reg: seq<Registration>, w: Widget)
    ensures OriginalOf(reg, w).Some? <==> Registered(reg, w)
    decreases |reg|
  {
    if reg != [] {
      OriginalOfIff(reg[1..], w);
      if Registered(reg, w) && reg[0].target != w {
        var i :| 0 <= i < |reg| && reg[i].target == w;
        assert reg[1..][i - 1] == reg[i];
      }
      if Registered(reg[1..], w) {
        var i :| 0 <= i < |reg[1..]| && reg[1..][i].target == w;
        assert reg[i + 1] == reg[1..][i];
      }
    }
  }

  /** Appending an entry leaves every earlier lookup as it was. */
  lemma {:induction false} OriginalOfAppend(reg: seq<Registration>, e: Registration, w: Widget)
    ensures OriginalOf(reg + [e], w) ==
      if OriginalOf(reg, w).Some? then OriginalOf(reg, w)
      else if e.target == w then Some(e.original) else None
    decreases |reg|
  {
    if reg == [] {
      assert [] + [e] == [e];
    } else {
      assert (reg + [e])[1..] == reg[1..] + [e];
      OriginalOfAppend(reg[1..], e, w);
    }
  }

  /** The first text registered for a widget is never overwritten; an unregistered widget gets the given text. */
  lemma RegisterFirstWins(reg: seq<Registration>, w: Widget, text: string)
    ensures OriginalOf(Register(reg, w, text), w) ==
      if Registered(reg, w) then OriginalOf(reg, w) else Some(text)
  {
    OriginalOfIff(reg, w);
    if !Registered(reg, w) {
      OriginalOfAppend(reg, Registration(w, text), w);
    }
  }

  /** Registering one widget changes no other widget's stored text. */
  lemma RegisterKeepsOthers(reg: seq<Registration>, w: Widget, v: Widget, text: string)
    requires v != w
    ensures OriginalOf(Register(reg, w, text), v) == OriginalOf(reg, v)
  {
    OriginalOfIff(reg, v);
    if !Registered(reg, w) {
      OriginalOfAppend(reg, Registration(w, text), v);
    }
  }

  /** Registration keeps one entry per widget. */
  lemma RegisterKeepsUnique(reg: seq<Registration>, w: Widget, text: string)
    requires UniqueTargets(reg)
    ensures UniqueTargets(Register(reg, w, text))
  {
  }

  // ---------------------------------------------------------------------------
  // Reverting: every entry whose target is still alive gets its stored text back.

  /** Setting the text succeeds: the target is alive, is a text widget, and the setter does not throw. */
  predicate Restorable(w: Widget, alive: Widget -> bool, fails: Widget -> bool) {
    alive(w) && w.kind != OtherObject && !fails(w)
  }

  function Restore(texts: map<Widget, string>, e: Registration, alive: Widget -> bool, fails: Widget -> bool): map<Widget, string> {
    if Restorable(e.target, alive, fails) then texts[e.target := e.original] else texts
  }

  /** The widget texts after visiting every entry in order. */
  function RestoreAll(texts: map<Widget, string>, reg: seq<Registration>, alive: Widget -> bool, fails: Widget -> bool): map<Widget, string>
    decreases |reg|
  {
    if reg == [] then texts else RestoreAll(Restore(texts, reg[0], alive, fails), reg[1..], alive, fails)
  }

  /** The number of entries whose target is alive. */
  function LiveCount(reg: seq<Registration>, alive: Widget -> bool): nat
    decreases |reg|
  {
    if reg == [] then 0 else (if alive(reg[0].target) then 1 else 0) + LiveCount(reg[1..], alive)
  }

  /** The text of `w`, if it has one. */
  function TextOf(texts: map<Widget, string>, w: Widget): Option<string> {
    if w in texts then Some(texts[w]) else None
  }

  /** Reverting gives every restorable registered widget its stored text and changes nothing else. */
  lemma {:induction false} RestoreAllEffect(texts: map<Widget, string>, reg: seq<Registration>,
                                           alive: Widget -> bool, fails: Widget -> bool, w: Widget)
    requires UniqueTargets(reg)
    ensures TextOf(RestoreAll(texts, reg, alive, fails), w) ==
      if Restorable(w, alive, fails) && Registered(reg, w) then OriginalOf(reg, w) else TextOf(texts, w)
    decreases |reg|
  {
    if reg != [] {
      RestoreAllEffect(Restore(texts, reg[0], alive, fails), reg[1..], alive, fails, w);
      OriginalOfIff(reg[1..], w);
      if reg[0].target == w {
        forall i | 0 <= i < |reg[1..]| ensures reg[1..][i].target != w {
          assert reg[1..][i] == reg[i + 1];
        }
      } else {
        assert Registered(reg, w) <==> Registered(reg[1..], w) by {
          if Registered(reg, w) {
            var i :| 0 <= i < |reg| && reg[i].target == w;
            assert reg[1..][i - 1] == reg[i];
          }
          if Registered(reg[1..], w) {
            var i :| 0 <= i < |reg[1..]| && reg[1..][i].target == w;
            assert reg[i + 1] == reg[1..][i];
          }
        }
      }
    }
  }

  /** The widgets some entry targets that are alive. */
  function LiveTargets(reg: seq<Registration>, alive: Widget -> bool): set<Widget> {
    set e | e in reg && alive(e.target) :: e.target
  }

  lemma LiveTargetsCons(reg: seq<Registration>, alive: Widget -> bool)
    requires reg != []
    ensures LiveTargets(reg, alive) ==
      (if alive(reg[0].target) then {reg[0].target} else {}) + LiveTargets(reg[1..], alive)
  {
    forall e | e in reg ensures e == reg[0] || e in reg[1..] {
      var i :| 0 <= i < |reg| && reg[i] == e;
      if i > 0 { assert reg[1..][i - 1] == e; }
    }
  }

  /** With one entry per widget, the count of live entries is the number of distinct live widgets. */
  lemma {:induction false} LiveCountIsLiveWidgets(reg: seq<Registration>, alive: Widget -> bool)
    requires UniqueTargets(reg)
    ensures LiveCount(reg, alive) == |LiveTargets(reg, alive)|
    decreases |reg|
  {
    if reg == [] {
      assert LiveTargets(reg, alive) == {};
    } else {
      var rest := reg[1..];
      LiveCountIsLiveWidgets(rest, alive);
      LiveTargetsCons(reg, alive);
      forall e | e in rest ensures e.target != reg[0].target {
        var i :| 0 <= i < |rest| && rest[i] == e;
        assert reg[i + 1] == e;
      }
      assert reg[0].target !in LiveTargets(rest, alive);
    }
  }
}
