/** The IThemeManager2 theme handler of the service: enumerating the native
    theme catalogue and applying a theme, given by its display name, by its
    catalogue index.

    The native COM theme manager is replaced by an immutable `Manager` value
    that fixes what every native call reports, and each native step returns a
    `Run`: the value it returns or the exception it throws, together with the
    native calls it made, in order. The dedicated STA thread and its `Join`
    run synchronously, so `SetTheme` is ordinary sequential evaluation. */
module Tm2Handler {
  import opened Wrappers

  /** What the native theme manager reports, call by call. */
  datatype Manager = Manager(
    created: bool,                 // CoCreateInstance handed back an object
    createStatus: int,             // the HRESULT of CoCreateInstance
    countStatus: int,              // status returned by GetThemeCount
    count: int,                    // the count GetThemeCount writes out
    themes: seq<Option<string>>,   // GetTheme(i): the display name, or None when the call throws
    setStatus: int,                // status returned by SetCurrentTheme
    openStatus: int)               // status returned by OpenTheme

  /** The native calls the handler can make. */
  datatype NativeCall =
    | CoCreateInstance
    | Init
    | GetThemeCount
    | GetTheme(index: int)
    | SetCurrentTheme(index: int)
    | OpenTheme(path: string)

  /** The exceptions the handler's native steps throw. */
  datatype NativeError =
    | CannotCreate(hr: int)          // no IThemeManager2 instance
    | CountFailed(status: int)       // GetThemeCount returned a non-zero status
    | ThemeFailed(index: int)        // GetTheme threw at this index
    | SetViaIdxFailed(status: int)   // SetCurrentTheme returned a non-zero status
    | SetViaPathFailed(status: int)  // OpenTheme returned a non-zero status

  /** One catalogue entry: a display name and its position in the enumeration. */
  datatype Theme2Wrapper = Theme2Wrapper(themeName: string, idx: int)

  /** A native step: what it returned or threw, and the native calls it made. */
  datatype Run<+T> = Run(result: Result<T, NativeError>, calls: seq<NativeCall>)

  /** The result of `SetTheme`: whether a catalogue entry matched, whether
      switching succeeded, the native calls made, and the exception that was
      caught and logged, if any. */
  datatype ThemeResult = ThemeResult(
    found: bool,
    success: bool,
    calls: seq<NativeCall>,
    logged: Option<NativeError>)

  /** What `GetTheme(i)` reports; an index the manager has no theme for throws. */
  function ThemeAt(m: Manager, i: int): Option<string>
  {
    if 0 <= i < |m.themes| then m.themes[i] else None
  }

  /** How many times the enumeration loop `for (i = 0; i < count; i++)` runs. */
  function LoopBound(m: Manager): nat
  {
    if m.count < 0 then 0 else m.count
  }

  /** The catalogue can be read in full: GetThemeCount succeeds and no GetTheme throws. */
  predicate Readable(m: Manager)
  {
    && m.countStatus == 0
    && forall i :: 0 <= i < LoopBound(m) ==> ThemeAt(m, i).Some?
  }

  /** `calls` is exactly GetTheme(0), GetTheme(1), ..., GetTheme(n - 1). */
  predicate Probes(calls: seq<NativeCall>, n: nat)
  {
    |calls| == n && forall i :: 0 <= i < n ==> calls[i] == GetTheme(i)
  }

  /** The least index below `n` at which GetTheme throws is `k`. */
  predicate FirstFailureAt(m: Manager, n: nat, k: int)
  {
    && 0 <= k < n
    && ThemeAt(m, k).None?
    && forall j :: 0 <= j < k ==> ThemeAt(m, j).Some?
  }

  /** Creating and initialising the manager: throws when no object comes back. */
  function InitManager(m: Manager): (r: Run<()>)
    ensures r.result.Success? <==> m.created
    ensures r.result.Failure? ==> r.result.error == CannotCreate(m.createStatus)
    ensures |r.calls| > 0 && r.calls[0] == CoCreateInstance
    ensures forall c :: c in r.calls ==> c == CoCreateInstance || c == Init
  {
    if m.created then Run(Success(()), [CoCreateInstance, Init])
    else Run(Failure(CannotCreate(m.createStatus)), [CoCreateInstance])
  }

  /** Applying a catalogue entry by its index: one SetCurrentTheme call, and an
      exception unless the native status is 0. */
  function SetThemeViaIdx(theme: Theme2Wrapper, m: Manager): (r: Run<bool>)
    ensures r.calls == [SetCurrentTheme(theme.idx)]
    ensures r.result.Success? <==> m.setStatus == 0
    ensures r.result.Success? ==> r.result.value
    ensures r.result.Failure? ==> r.result.error == SetViaIdxFailed(m.setStatus)
  {
    if m.setStatus != 0 then Run(Failure(SetViaIdxFailed(m.setStatus)), [SetCurrentTheme(theme.idx)])
    else Run(Success(true), [SetCurrentTheme(theme.idx)])
  }

  /** Applying a theme file silently by its path: one OpenTheme call, and an
      exception unless the native status is 0. */
  function SetThemeViaPath(path: string, m: Manager): (r: Run<bool>)
    ensures r.calls == [OpenTheme(path)]
    ensures r.result.Success? <==> m.openStatus == 0
    ensures r.result.Success? ==> r.result.value
    ensures r.result.Failure? ==> r.result.error == SetViaPathFailed(m.openStatus)
  {
    if m.openStatus != 0 then Run(Failure(SetViaPathFailed(m.openStatus)), [OpenTheme(path)])
    else Run(Success(true), [OpenTheme(path)])
  }

  /** The first `n` rounds of the enumeration loop: entry `i` carries index `i`
      and GetTheme(i)'s display name; the first GetTheme that throws ends the
      loop with that exception. */
  function Enumerate(m: Manager, n: nat): (r: Run<seq<Theme2Wrapper>>)
    ensures r.result.Success? <==> forall i :: 0 <= i < n ==> ThemeAt(m, i).Some?
    ensures r.result.Success? ==>
      && |r.result.value| == n
      && (forall i :: 0 <= i < n ==> r.result.value[i] == Theme2Wrapper(ThemeAt(m, i).value, i))
      && Probes(r.calls, n)
    ensures r.result.Failure? ==>
      && r.result.error.ThemeFailed?
      && FirstFailureAt(m, n, r.result.error.index)
      && Probes(r.calls, r.result.error.index + 1)
    decreases n
  {
    if n == 0 then Run(Success([]), [])
    else
      var prefix := Enumerate(m, n - 1);
      match prefix.result
      case Failure(e) => prefix
      case Success(list) =>
        match ThemeAt(m, n - 1)
        case None => Run(Failure(ThemeFailed(n - 1)), prefix.calls + [GetTheme(n - 1)])
        case Some(name) => Run(Success(list + [Theme2Wrapper(name, n - 1)]), prefix.calls + [GetTheme(n - 1)])
  }

  /** The catalogue in enumeration order, or the exception that stopped the
      enumeration. */
  function GetThemeList(m: Manager): (r: Run<seq<Theme2Wrapper>>)
    ensures r.result.Success? <==> Readable(m)
    ensures r.result.Success? ==>
      && |r.result.value| == LoopBound(m)
      && (forall i :: 0 <= i < LoopBound(m) ==> r.result.value[i] == Theme2Wrapper(ThemeAt(m, i).value, i))
    ensures m.countStatus != 0 ==> r.result == Failure(CountFailed(m.countStatus)) && r.calls == [GetThemeCount]
    ensures m.countStatus == 0 && r.result.Failure? ==>
      r.result.error.ThemeFailed? && FirstFailureAt(m, LoopBound(m), r.result.error.index)
    ensures |r.calls| > 0 && r.calls[0] == GetThemeCount
    ensures forall c :: c in r.calls ==> c == GetThemeCount || c.GetTheme?
  {
    if m.countStatus != 0 then Run(Failure(CountFailed(m.countStatus)), [GetThemeCount])
    else
      var e := Enumerate(m, LoopBound(m));
      Run(e.result, [GetThemeCount] + e.calls)
  }

  /** The enumeration loop written as the source's `for` loop, computing the
      same run as `GetThemeList`. */
  method GetThemeListIterative(m: Manager) returns (r: Run<seq<Theme2Wrapper>>)
    ensures r == GetThemeList(m)
  {
    if m.countStatus != 0 {
      return Run(Failure(CountFailed(m.countStatus)), [GetThemeCount]);
    }
    var list: seq<Theme2Wrapper> := [];
    var calls: seq<NativeCall> := [GetThemeCount];
    var i := 0;
    while i < m.count
      invariant 0 <= i <= LoopBound(m)
      invariant |calls| > 0 && calls[0] == GetThemeCount
      invariant Enumerate(m, i) == Run(Success(list), calls[1..])
    {
      var theme := ThemeAt(m, i);
      calls := calls + [GetTheme(i)];
      if theme.None? {
        assert Enumerate(m, i + 1) == Run(Failure(ThemeFailed(i)), calls[1..]);
        assert Enumerate(m, LoopBound(m)) == Enumerate(m, i + 1) by {
          EnumerateStopsAtFailure(m, i + 1, LoopBound(m));
        }
        return Run(Failure(ThemeFailed(i)), calls);
      }
      list := list + [Theme2Wrapper(theme.value, i)];
      i := i + 1;
    }
    assert [GetThemeCount] + calls[1..] == calls;
    r := Run(Success(list), calls);
  }

  /** Once the enumeration has thrown, further rounds do not change its run. */
  lemma {:induction false} EnumerateStopsAtFailure(m: Manager, n: nat, n': nat)
    requires n <= n'
    requires Enumerate(m, n).result.Failure?
    ensures Enumerate(m, n') == Enumerate(m, n)
    decreases n' - n
  {
    if n < n' {
      EnumerateStopsAtFailure(m, n, n' - 1);
    }
  }

  /** The position of the first entry whose display name equals `name`
      exactly, as LINQ's `Where(...).FirstOrDefault()` picks it. */
  function FirstMatch(themes: seq<Theme2Wrapper>, name: string): (r: Option<nat>)
    ensures r.None? <==> forall j :: 0 <= j < |themes| ==> themes[j].themeName != name
    ensures r.Some? ==>
      && r.value < |themes|
      && themes[r.value].themeName == name
      && forall j :: 0 <= j < r.value ==> themes[j].themeName != name
    decreases |themes|
  {
    if |themes| == 0 then None
    else if themes[0].themeName == name then Some(0)
    else
      match FirstMatch(themes[1..], name)
      case None => None
      case Some(k) => Some(k + 1)
  }

  /** The learned-name substitution: the learned name when one is recorded
      for `name`, otherwise `name` itself. */
  function LearnedName(learned: map<string, string>, name: string): string
  {
    if name in learned then learned[name] else name
  }

  /** Applying the theme whose display name is `displayName` (null is `None`).
      On the worker thread: create the manager, substitute the learned name,
      enumerate, pick the first exact match and apply it by index. Every
      exception is caught and logged, and `found` keeps the value it had when
      the exception was thrown. `originalPath` only appears in the log line of
      a successful switch. */
  function SetTheme(displayName: Option<string>, originalPath: string,
                    learned: map<string, string>, m: Manager): (r: ThemeResult)
    ensures displayName.None? ==> !r.found && !r.success && r.calls == [] && r.logged.None?
    ensures displayName.Some? ==> |r.calls| > 0 && r.calls[0] == CoCreateInstance
    ensures r.found ==> displayName.Some? && m.created && Readable(m)
    ensures r.success ==> displayName.Some? && m.created && Readable(m) && LoopBound(m) > 0
    ensures r.logged.Some? ==> !r.success
  {
    if displayName.None? then ThemeResult(false, false, [], None)
    else
      var init := InitManager(m);
      match init.result
      case Failure(e) => ThemeResult(false, false, init.calls, Some(e))
      case Success(_) =>
        var name := LearnedName(learned, displayName.value);
        var list := GetThemeList(m);
        var calls := init.calls + list.calls;
        match list.result
        case Failure(e) => ThemeResult(false, false, calls, Some(e))
        case Success(themes) =>
          if |themes| > 0 then
            match FirstMatch(themes, name)
            case None => ThemeResult(false, true, calls, None)
            case Some(k) =>
              var apply := SetThemeViaIdx(themes[k], m);
              match apply.result
              case Failure(e) => ThemeResult(true, false, calls + apply.calls, Some(e))
              case Success(ok) => ThemeResult(true, ok, calls + apply.calls, None)
          else ThemeResult(false, false, calls, None)
  }
}
