/** Properties of `Tm2Handler.SetTheme`: the (found, success) outcome space,
    which catalogue index is applied and how often, and the containment of
    every native failure. */
module Tm2Properties {
  import opened Wrappers
  import opened Tm2Handler

  /** The indices passed to SetCurrentTheme, in call order. */
  function AppliedIndices(calls: seq<NativeCall>): seq<int>
    decreases |calls|
  {
    if |calls| == 0 then []
    else
      var rest := AppliedIndices(calls[1..]);
      if calls[0].SetCurrentTheme? then [calls[0].index] + rest else rest
  }

  /** Some catalogue entry is named exactly `name`. */
  predicate Matches(m: Manager, name: string)
  {
    exists i :: 0 <= i < LoopBound(m) && ThemeAt(m, i) == Some(name)
  }

  /** `k` is the least catalogue index whose entry is named exactly `name`. */
  predicate FirstMatchAt(m: Manager, name: string, k: int)
  {
    && 0 <= k < LoopBound(m)
    && ThemeAt(m, k) == Some(name)
    && forall j :: 0 <= j < k ==> ThemeAt(m, j) != Some(name)
  }

  lemma {:induction false} AppliedIndicesAppend(a: seq<NativeCall>, b: seq<NativeCall>)
    ensures AppliedIndices(a + b) == AppliedIndices(a) + AppliedIndices(b)
    decreases |a|
  {
    if |a| > 0 {
      assert (a + b)[1..] == a[1..] + b;
      AppliedIndicesAppend(a[1..], b);
    } else {
      assert a + b == b;
    }
  }

  /** Native calls that are not SetCurrentTheme apply nothing. */
  lemma {:induction false} AppliedIndicesNone(calls: seq<NativeCall>)
    requires forall c :: c in calls ==> !c.SetCurrentTheme?
    ensures AppliedIndices(calls) == []
    decreases |calls|
  {
    if |calls| > 0 {
      assert forall c :: c in calls[1..] ==> c in calls;
      AppliedIndicesNone(calls[1..]);
    }
  }

  /** The calls made before any apply: creating the manager and enumerating. */
  lemma SetupAppliesNothing(m: Manager)
    ensures AppliedIndices(InitManager(m).calls + GetThemeList(m).calls) == []
  {
    AppliedIndicesNone(InitManager(m).calls + GetThemeList(m).calls);
  }

  /** On a readable catalogue the enumerated list matches `name` at position
      `k` exactly when catalogue index `k` is the first one named `name`. */
  lemma ListMatchIsCatalogueMatch(m: Manager, name: string)
    requires Readable(m)
    ensures GetThemeList(m).result.Success?
    ensures FirstMatch(GetThemeList(m).result.value, name).None? <==> !Matches(m, name)
    ensures FirstMatch(GetThemeList(m).result.value, name).Some? ==>
      FirstMatchAt(m, name, FirstMatch(GetThemeList(m).result.value, name).value)
  {
  }

  /** `found` holds exactly when the manager is created, the whole catalogue
      is enumerated, and an entry carries the (learned-substituted) name. */
  lemma SetThemeFoundIff(displayName: string, path: string, learned: map<string, string>, m: Manager)
    ensures SetTheme(Some(displayName), path, learned, m).found <==>
      m.created && Readable(m) && Matches(m, LearnedName(learned, displayName))
  {
  }

  /** On a match, the first matching index is applied by exactly one
      SetCurrentTheme call after the enumeration, `found` is set, and
      `success` reports whether that native call returned 0. */
  lemma SetThemeAppliesFirstMatch(displayName: string, path: string, learned: map<string, string>,
                                  m: Manager, k: int)
    requires m.created && Readable(m)
    requires FirstMatchAt(m, LearnedName(learned, displayName), k)
    ensures var r := SetTheme(Some(displayName), path, learned, m);
      && r.found
      && (r.success <==> m.setStatus == 0)
      && r.logged == (if m.setStatus == 0 then None else Some(SetViaIdxFailed(m.setStatus)))
      && AppliedIndices(r.calls) == [k]
      && r.calls == InitManager(m).calls + GetThemeList(m).calls + [SetCurrentTheme(k)]
  {
    var name := LearnedName(learned, displayName);
    var themes := GetThemeList(m).result.value;
    ListMatchIsCatalogueMatch(m, name);
    var j := FirstMatch(themes, name).value;
    assert j == k;
    var setup := InitManager(m).calls + GetThemeList(m).calls;
    SetupAppliesNothing(m);
    AppliedIndicesAppend(setup, [SetCurrentTheme(k)]);
    assert AppliedIndices([SetCurrentTheme(k)]) == [k];
  }

  /** A readable, non-empty catalogue without the name: nothing is applied,
      and the call still reports success. */
  lemma SetThemeNoMatch(displayName: string, path: string, learned: map<string, string>, m: Manager)
    requires m.created && Readable(m) && LoopBound(m) > 0
    requires !Matches(m, LearnedName(learned, displayName))
    ensures var r := SetTheme(Some(displayName), path, learned, m);
      && !r.found && r.success && r.logged.None?
      && AppliedIndices(r.calls) == []
  {
    ListMatchIsCatalogueMatch(m, LearnedName(learned, displayName));
    SetupAppliesNothing(m);
  }

  /** An empty catalogue: neither found nor successful, and after creating the
      manager and asking for the count no further native call is made. */
  lemma SetThemeEmptyCatalogue(displayName: string, path: string, learned: map<string, string>, m: Manager)
    requires m.created && m.countStatus == 0 && m.count <= 0
    ensures SetTheme(Some(displayName), path, learned, m) ==
      ThemeResult(false, false, [CoCreateInstance, Init, GetThemeCount], None)
  {
  }

  /** A failed creation or enumeration is caught and logged: neither found
      nor successful, and nothing is applied. */
  lemma SetThemeContained(displayName: string, path: string, learned: map<string, string>, m: Manager)
    requires !m.created || !Readable(m)
    ensures var r := SetTheme(Some(displayName), path, learned, m);
      && !r.found && !r.success
      && r.logged.Some?
      && (!m.created ==> r.logged == Some(CannotCreate(m.createStatus)))
      && (m.created && m.countStatus != 0 ==> r.logged == Some(CountFailed(m.countStatus)))
      && AppliedIndices(r.calls) == []
  {
    if !m.created {
      AppliedIndicesNone(InitManager(m).calls);
    } else {
      SetupAppliesNothing(m);
    }
  }

  /** The 2x2 outcome space: each combination of (found, success) and the
      catalogue states that produce it. */
  lemma SetThemeOutcomeSpace(displayName: string, path: string, learned: map<string, string>, m: Manager)
    ensures var r := SetTheme(Some(displayName), path, learned, m);
      var name := LearnedName(learned, displayName);
      && (r.found && r.success <==> m.created && Readable(m) && Matches(m, name) && m.setStatus == 0)
      && (r.found && !r.success <==> m.created && Readable(m) && Matches(m, name) && m.setStatus != 0)
      && (!r.found && r.success <==> m.created && Readable(m) && LoopBound(m) > 0 && !Matches(m, name))
      && (!r.found && !r.success <==> !m.created || !Readable(m) || LoopBound(m) == 0)
  {
  }

  /** SetCurrentTheme is called at most once, and exactly once when a theme
      was found. */
  lemma SetThemeAppliesAtMostOnce(displayName: Option<string>, path: string,
                                  learned: map<string, string>, m: Manager)
    ensures var r := SetTheme(displayName, path, learned, m);
      && |AppliedIndices(r.calls)| <= 1
      && (r.found <==> |AppliedIndices(r.calls)| == 1)
  {
    if displayName.Some? {
      var name := LearnedName(learned, displayName.value);
      if m.created && Readable(m) {
        ListMatchIsCatalogueMatch(m, name);
        if LoopBound(m) > 0 && !Matches(m, name) {
          SetThemeNoMatch(displayName.value, path, learned, m);
        } else if Matches(m, name) {
          SetThemeAppliesFirstMatch(displayName.value, path, learned, m,
                                    FirstMatch(GetThemeList(m).result.value, name).value);
        } else {
          SetupAppliesNothing(m);
        }
      } else {
        SetThemeContained(displayName.value, path, learned, m);
      }
    }
  }

  /** The learned-name table is consulted once: asking for `displayName`
      behaves exactly like asking for its learned name with an empty table,
      so a learned name is never itself substituted again. */
  lemma SetThemeSubstitutesOnce(displayName: string, path: string, learned: map<string, string>, m: Manager)
    ensures SetTheme(Some(displayName), path, learned, m) ==
      SetTheme(Some(LearnedName(learned, displayName)), path, map[], m)
  {
  }

  /** The substitution is not transitive: with a -> b and b -> c learned
      (b != c), a resolves to b and not to c. So against a catalogue that
      holds c but not b, asking for a finds nothing. */
  lemma LearnedNameNotTransitive(learned: map<string, string>, a: string, b: string, c: string,
                                 path: string, m: Manager)
    requires a in learned && learned[a] == b
    requires b in learned && learned[b] == c
    requires b != c
    ensures LearnedName(learned, a) == b && LearnedName(learned, a) != c
    ensures m.created && Readable(m) && Matches(m, c) && !Matches(m, b) ==>
      !SetTheme(Some(a), path, learned, m).found
  {
    SetThemeFoundIff(a, path, learned, m);
  }

  /** A manager whose creation and enumeration succeed, over these names. */
  function Catalogue(names: seq<string>, setStatus: int): (m: Manager)
    ensures m.created && Readable(m) && LoopBound(m) == |names|
    ensures forall i :: 0 <= i < |names| ==> ThemeAt(m, i) == Some(names[i])
  {
    Manager(true, 0, 0, |names|, seq(|names|, i requires 0 <= i < |names| => Some(names[i])), setStatus, 0)
  }

  /** Catalogue [Light Classic, Aqua Dark], request "Aqua Dark": index 1 is
      applied once and the result is (true, true). */
  lemma ScenarioAquaDark(path: string)
    ensures var r := SetTheme(Some("Aqua Dark"), path, map[], Catalogue(["Light Classic", "Aqua Dark"], 0));
      r.found && r.success && AppliedIndices(r.calls) == [1]
  {
    var m := Catalogue(["Light Classic", "Aqua Dark"], 0);
    assert ThemeAt(m, 0) == Some("Light Classic");
    assert "Light Classic" != "Aqua Dark" by {
      assert "Light Classic"[0] != "Aqua Dark"[0];
    }
    SetThemeAppliesFirstMatch("Aqua Dark", path, map[], m, 1);
  }

  /** Catalogue [Light Classic], request "Missing Theme": nothing is applied
      and the result is (false, true). */
  lemma ScenarioMissingTheme(path: string)
    ensures var r := SetTheme(Some("Missing Theme"), path, map[], Catalogue(["Light Classic"], 0));
      !r.found && r.success && AppliedIndices(r.calls) == []
  {
    var m := Catalogue(["Light Classic"], 0);
    assert "Light Classic" != "Missing Theme" by {
      assert "Light Classic"[0] != "Missing Theme"[0];
    }
    assert !Matches(m, "Missing Theme") by {
      forall i | 0 <= i < LoopBound(m)
        ensures ThemeAt(m, i) != Some("Missing Theme")
      {
        assert i == 0;
      }
    }
    SetThemeNoMatch("Missing Theme", path, map[], m);
  }
}
