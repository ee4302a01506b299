# Auto Dark Mode: theme application and startup dispatch, in Dafny

This project models two sequential decision procedures of Auto Dark Mode, a
Windows service that keeps the system theme in step with a light/dark
schedule:

- **The IThemeManager2 theme handler** of the service (`Tm2Handler`). Given a
  display name that may be null, a table of learned theme names and the
  native theme manager, `SetTheme` decides the `(found, success)` pair and
  which catalogue index, if any, it applies. The native COM manager is an
  immutable `Manager` value. It fixes whether creation succeeds, the status
  and value of `GetThemeCount`, what each `GetTheme(i)` reports (a display
  name, or a failure), and the statuses of `SetCurrentTheme` and `OpenTheme`.
  Every native step returns a `Run`: its value or the exception it throws,
  plus the native calls it made, in order. That call trace is what lets the
  model state "no native call is made" and "SetCurrentTheme is called exactly
  once". The dedicated STA thread and its `Join` run synchronously here, so
  the thread body is ordinary sequential evaluation. Its catch-all becomes a
  `logged` exception in the result.
- **The front-end's startup handler** (`AppStartup`). From the command-line
  arguments and the configuration as read, `ApplicationStartup` decides
  whether the service process is launched and produces the trace of actions
  that follows. Those actions are messages sent to the service, local actions
  (update check, location lookup, task and autostart removal), and the
  per-argument tail of an optional Shutdown message, messaging cleanup and
  application shutdown. When no arguments remain, the trace is the main
  window alone.

Files:

- `wrappers.dfy`: `Option` (a nullable value) and `Result` (returns or throws).
- `seqs.dfy`: first index of an element, and `List<T>.Remove` as "drop the first occurrence".
- `tm2_handler.dfy`: the manager, the native steps, `GetThemeList`, `FirstMatch`, the learned-name substitution and `SetTheme`.
- `tm2_properties.dfy`: the `(found, success)` outcome space, the applied index, and the containment of failures.
- `app_startup.dfy`: the action trace of the startup handler.
- `app_startup_properties.dfy`: the launch and `/debug` rule, the dispatch table, and the trace's per-argument segments, their order, length and counts.

The model follows the code as written; in particular:

- Only a null display name short-circuits. An empty string goes through creation, enumeration and matching like any other name.
- An empty catalogue (a count of 0, or a negative count, which runs the enumeration loop zero times) gives `(false, false)`. It does not give the `(false, true)` of a catalogue without the name.
- When several entries carry the name, the first one in enumeration order is applied.
- The learned-name table is a plain map. Nothing in the handler stops it from mapping a name to itself, and the substitution is then the identity.
- `SetThemeViaPath` is modelled, but as in the source nothing calls it: `SetTheme` applies by index only and has no fallback to applying by path.

The per-argument tail (Shutdown in classic mode, messaging cleanup, application shutdown) sits inside the argument loop in the source. So with several arguments, later arguments are handled after the first cleanup and shutdown request. The trace records that order as written.

## Model

| member | source | states |
|---|---|---|
| Tm2Handler.InitManager | AutoDarkModeSvc/Handlers/IThemeManager2/Tm2Handler.cs:49-64 | creation succeeds exactly when the manager hands back an object; otherwise it throws carrying the creation HRESULT; the first native call is always CoCreateInstance |
| Tm2Handler.SetThemeViaIdx | AutoDarkModeSvc/Handlers/IThemeManager2/Tm2Handler.cs:67-76 | one SetCurrentTheme call with the entry's index; returns true exactly when the native status is 0, and throws with that status otherwise |
| Tm2Handler.SetThemeViaPath | AutoDarkModeSvc/Handlers/IThemeManager2/Tm2Handler.cs:78-86 | one OpenTheme call with the path; returns true exactly when the native status is 0, and throws with that status otherwise |
| Tm2Handler.Enumerate | AutoDarkModeSvc/Handlers/IThemeManager2/Tm2Handler.cs:178-195 | n rounds of the loop succeed iff every GetTheme(i), i < n, succeeds; entry i then has index i and that theme's display name; otherwise the error names the first failing index, and the calls are GetTheme(0..k) up to and including that index |
| Tm2Handler.GetThemeList | AutoDarkModeSvc/Handlers/IThemeManager2/Tm2Handler.cs:159-198 | on success, exactly max(count, 0) entries, entry i with index i and that theme's name, in order; success iff the count status is 0 and no GetTheme fails; a non-zero count status throws after that single call and yields no list |
| Tm2Handler.GetThemeListIterative | AutoDarkModeSvc/Handlers/IThemeManager2/Tm2Handler.cs:159-198 | the source's `for` loop with early exit on a failing GetTheme computes the same run, list and call trace as the recursive definition |
| Tm2Handler.FirstMatch | AutoDarkModeSvc/Handlers/IThemeManager2/Tm2Handler.cs:119 | picks the least position whose name equals the requested name exactly; none iff no entry has that name |
| Tm2Handler.SetTheme | AutoDarkModeSvc/Handlers/IThemeManager2/Tm2Handler.cs:93-157 | a null name gives (false, false) with no native call and nothing logged; found or success implies creation and full enumeration succeeded; success implies a non-empty catalogue; a logged exception implies no success |
| Tm2Properties.ListMatchIsCatalogueMatch | AutoDarkModeSvc/Handlers/IThemeManager2/Tm2Handler.cs:115-120 | on a readable catalogue, the list's first match is the least catalogue index carrying the name, and there is none iff no index carries it |
| Tm2Properties.SetThemeFoundIff | AutoDarkModeSvc/Handlers/IThemeManager2/Tm2Handler.cs:107-133 | found holds iff the manager is created, the catalogue is fully enumerated, and some entry equals the learned-substituted name |
| Tm2Properties.SetThemeAppliesFirstMatch | AutoDarkModeSvc/Handlers/IThemeManager2/Tm2Handler.cs:115-128 | on a match, the least matching index is applied by exactly one SetCurrentTheme after creation and enumeration; found is true; success iff the apply status is 0, else the apply failure is logged |
| Tm2Properties.SetThemeNoMatch | AutoDarkModeSvc/Handlers/IThemeManager2/Tm2Handler.cs:117-132 | a readable non-empty catalogue without the name gives (false, true), nothing logged, no apply call |
| Tm2Properties.SetThemeEmptyCatalogue | AutoDarkModeSvc/Handlers/IThemeManager2/Tm2Handler.cs:115-133 | a count of 0 or less gives (false, false) after exactly CoCreateInstance, Init and GetThemeCount |
| Tm2Properties.SetThemeContained | AutoDarkModeSvc/Handlers/IThemeManager2/Tm2Handler.cs:105-139 | a creation failure or an enumeration failure is caught and logged (with its HRESULT or status), gives (false, false), and applies nothing |
| Tm2Properties.SetThemeOutcomeSpace | AutoDarkModeSvc/Handlers/IThemeManager2/Tm2Handler.cs:93-157 | each of the four (found, success) pairs holds iff its catalogue condition holds: match and apply status 0; match and non-zero status; readable non-empty without match; creation or enumeration failure or empty catalogue |
| Tm2Properties.SetThemeAppliesAtMostOnce | AutoDarkModeSvc/Handlers/IThemeManager2/Tm2Handler.cs:119-123 | SetCurrentTheme is called at most once per SetTheme, and exactly once iff found |
| Tm2Properties.SetThemeSubstitutesOnce | AutoDarkModeSvc/Handlers/IThemeManager2/Tm2Handler.cs:109-113 | asking for a name behaves exactly like asking for its learned name with an empty table, so the substitution is applied once and not chained |
| Tm2Handler.LearnedName | AutoDarkModeSvc/Handlers/IThemeManager2/Tm2Handler.cs:109-113 | the learned name when the table has an entry for the name, otherwise the name itself; its properties are stated by SetThemeSubstitutesOnce and LearnedNameNotTransitive |
| Tm2Properties.LearnedNameNotTransitive | AutoDarkModeSvc/Handlers/IThemeManager2/Tm2Handler.cs:109-113 | with a -> b and b -> c learned and b != c, a resolves to b and not c; so against a readable catalogue holding c but not b, asking for a is not found |
| Tm2Properties.ScenarioAquaDark | AutoDarkModeSvc/Handlers/IThemeManager2/Tm2Handler.cs:115-128 | catalogue [Light Classic, Aqua Dark] and request Aqua Dark: index 1 is applied once, result (true, true) |
| Tm2Properties.ScenarioMissingTheme | AutoDarkModeSvc/Handlers/IThemeManager2/Tm2Handler.cs:117-132 | catalogue [Light Classic] and request Missing Theme: nothing is applied, result (false, true) |
| Seqs.RemoveFirst | AutoDarkModeApp/App.xaml.cs:50 | the list without the first occurrence of the element, or unchanged when it does not occur |
| Seqs.RemoveFirstMultiset | AutoDarkModeApp/App.xaml.cs:50 | removal drops exactly one copy of the element when present and keeps every other element |
| AppStartup.ClassicMode | AutoDarkModeApp/App.xaml.cs:19-27 | classic mode is on exactly when the configuration was read and says so; a configuration that cannot be read counts as off (see UnreadableConfigSendsNoShutdown) |
| AppStartup.LaunchesService | AutoDarkModeApp/App.xaml.cs:41 | the service is launched unless the first argument is /debug; stated as the first ensures of ApplicationStartup |
| AppStartup.RemainingArgs | AutoDarkModeApp/App.xaml.cs:41-51 | when the service is launched all arguments remain; when the first argument is /debug, removing its first occurrence leaves exactly the tail, later /debug tokens included |
| AppStartup.CommandActions | AutoDarkModeApp/App.xaml.cs:59-98 | an argument yields at most one command action, none iff it is not one of the nine tokens (exact, case-sensitive match); a command action is never Shutdown, cleanup, application shutdown or the main window |
| AppStartup.ArgumentTail | AutoDarkModeApp/App.xaml.cs:100-102 | the per-argument tail: a Shutdown message in classic mode only, then cleanup, then application shutdown (see ArgumentSegmentShape and SegmentCounts) |
| AppStartup.ArgumentActions | AutoDarkModeApp/App.xaml.cs:57-102 | one argument's segment: its command action, if any, followed by the tail (see ArgumentSegmentShape) |
| AppStartup.DispatchAll | AutoDarkModeApp/App.xaml.cs:57-103 | a non-empty argument list produces a trace that ends with application shutdown and never shows the main window |
| AppStartup.ApplicationStartup | AutoDarkModeApp/App.xaml.cs:17-110 | the service is launched iff there are no arguments or the first is not /debug; the main window is shown iff no argument remains |
| AppStartupProperties.ForwardedVerbatim | AutoDarkModeApp/App.xaml.cs:59-74 | an argument is sent as itself iff it is /switch, /swap, /dark or /light, and no other token is ever sent as a command |
| AppStartupProperties.LocalCommandsSendNothing | AutoDarkModeApp/App.xaml.cs:75-98 | /pipeclienttest sends TestError; /update, /location, /removeTask and /removeAutostart take their local action and send nothing |
| AppStartupProperties.ArgumentSegmentShape | AutoDarkModeApp/App.xaml.cs:100-102 | each argument's segment is its command action followed by the tail, whose last two actions are cleanup and application shutdown; it holds a Shutdown message iff classic mode is on |
| AppStartupProperties.SegmentsOfDispatch | AutoDarkModeApp/App.xaml.cs:57-103 | splitting the trace after each application shutdown recovers the per-argument segments, one per argument, in argument order |
| AppStartupProperties.DispatchAppend | AutoDarkModeApp/App.xaml.cs:57-103 | dispatching two argument lists one after the other gives their traces one after the other |
| AppStartupProperties.DispatchLength | AutoDarkModeApp/App.xaml.cs:57-103 | the trace length is between t and t + 1 actions per argument, where the tail length t is 3 in classic mode and 2 otherwise |
| AppStartupProperties.SegmentCounts | AutoDarkModeApp/App.xaml.cs:100-102 | one argument's segment holds exactly one cleanup and one application shutdown, and one Shutdown message iff classic mode is on |
| AppStartupProperties.DispatchCounts | AutoDarkModeApp/App.xaml.cs:100-102 | the trace holds exactly one cleanup and one application shutdown per argument, and one Shutdown message per argument in classic mode and none otherwise |
| AppStartupProperties.NoArgumentsShowsWindow | AutoDarkModeApp/App.xaml.cs:105-109 | with no arguments, or /debug alone, the only action is showing the main window; the service is launched only in the first case |
| AppStartupProperties.DebugFirstDropsOnlyHead | AutoDarkModeApp/App.xaml.cs:41-57 | with /debug first and more arguments, the service is not launched and the trace is the dispatch of the remaining arguments, segment by segment |
| AppStartupProperties.UnreadableConfigSendsNoShutdown | AutoDarkModeApp/App.xaml.cs:19-27 | when the configuration cannot be read, classic mode is off and no Shutdown message appears in the trace |

## Left out

- COM interop: CoCreateInstance's class and interface GUIDs, the 0x17 context flag, and the exact arguments of `Init`, `SetCurrentTheme` and `OpenTheme`. They become fields of the abstract `Manager`. The status `Init` returns is ignored by the source, and it is not modelled as a failure.
- `SetCurrentTheme` and `OpenTheme` report one status per manager rather than one per index or path. The source only compares that status with 0.
- A theme whose display name is itself null is not modelled: names are strings. A failing `GetTheme` stands for the exception that reading a missing theme's name throws.
- Threading: the STA worker thread, `Join`, and the catch for an interrupted join. The model evaluates the thread body synchronously, so an interrupted wait and the race it allows on `(found, success)` are not represented.
- Logging (NLog) and the `GlobalState` singleton: the learned-name table is a map parameter. Recording new learned names happens outside this handler and is not part of this model.
- The front-end's external effects (process launch and its path, the ZeroMQ/NetMQ transport, the WPF main window and `Shutdown`, `Updater`, `LocationHandler`, `TaskSchdHandler`, `RegeditHandler`) are opaque trace actions. What they do is not modelled. The awaited location lookup is one sequential step.
- ApplicationStartup: assumes that every opaque action returns normally: the service launch (App.xaml.cs:46), each `SendMessage`, `CheckNewVersion`, `SetLocationSilent`, `RemoveTask`, `RemoveAutoStart` and `NetMQConfig.Cleanup`. In the source an exception from any of them escapes the `async void` handler and nothing after it runs: a failed launch would leave no dispatch and no main window, and a later failure would cut the trace off at that action. Those truncated traces are not modelled, and neither are delivery failures of a send.
- The string values of `PipeMessage.TestError` and `PipeMessage.Shutdown` are not part of this model. They are the `TestError` and `Shutdown` messages, kept distinct from forwarded tokens.
- The service's entry point (AutoDarkModeSvc/Program.cs): the single-instance mutex, logger setup, configuration read and message loop. The timer default there depends on `Int32.TryParse`, whose parsing rules are not part of this model.
