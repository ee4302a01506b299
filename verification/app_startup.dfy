/** The front-end's startup handler: whether it launches the background
    service, and which commands it sends or local actions it takes for each
    command-line argument, as a trace of actions.

    Launching the service, the ZeroMQ client, the updater, the location
    lookup, the scheduled-task and autostart handlers and the WPF calls are
    opaque trace actions; the awaited location lookup is one sequential step. */
module AppStartup {
  import opened Wrappers
  import Seqs

  /** A message sent to the service: a command-line token forwarded as is, or
      one of the two fixed pipe messages. */
  datatype Message = Command(token: string) | TestError | Shutdown

  /** One observable step of the startup handler. */
  datatype Action =
    | Send(msg: Message)     // the command client sends a message to the service
    | CheckUpdate            // the updater checks for a new version
    | LocationSilent         // the location handler updates the location silently
    | RemoveTask             // the scheduled task is removed
    | RemoveAutostart        // the autostart registry entry is removed
    | NetMQCleanup           // the messaging library is cleaned up
    | AppShutdown            // the application is asked to shut down
    | ShowMainWindow         // the main window is created and shown

  /** What startup does: whether the service process is launched, and the
      actions that follow, in order. */
  datatype Startup = Startup(startSvc: bool, actions: seq<Action>)

  /** The four tokens forwarded to the service verbatim. */
  const ForwardedTokens: set<string> := {"/switch", "/swap", "/dark", "/light"}

  /** The tokens that map to a command action. */
  const KnownTokens: set<string> :=
    ForwardedTokens + {"/update", "/location", "/removeTask", "/removeAutostart", "/pipeclienttest"}

  /** Classic mode as read from the configuration; `None` is a configuration
      that could not be read, which counts as not classic. */
  function ClassicMode(config: Option<bool>): (classic: bool)
    ensures classic <==> config == Some(true)
  {
    match config
    case Some(classic) => classic
    case None => false
  }

  /** The service is launched unless the first argument is `/debug`. */
  predicate LaunchesService(args: seq<string>)
  {
    |args| == 0 || args[0] != "/debug"
  }

  /** The arguments left to process: when the service is not launched, the
      first `/debug` is removed from the list; since it is the first argument,
      that is exactly the head, and later `/debug`s stay. */
  function RemainingArgs(args: seq<string>): (rest: seq<string>)
    ensures LaunchesService(args) ==> rest == args
    ensures !LaunchesService(args) ==> rest == args[1..]
  {
    if LaunchesService(args) then args
    else
      assert Seqs.FirstIndex(args, "/debug") == 0;
      Seqs.RemoveFirst(args, "/debug")
  }

  /** The command action of one argument (matching is exact and case-sensitive);
      an unrecognised token has none. */
  function CommandActions(value: string): (r: seq<Action>)
    ensures |r| <= 1
    ensures r == [] <==> value !in KnownTokens
    ensures Send(Shutdown) !in r && NetMQCleanup !in r && AppShutdown !in r && ShowMainWindow !in r
  {
    if value == "/switch" then [Send(Command(value))]
    else if value == "/swap" then [Send(Command(value))]
    else if value == "/dark" then [Send(Command(value))]
    else if value == "/light" then [Send(Command(value))]
    else if value == "/update" then [CheckUpdate]
    else if value == "/location" then [LocationSilent]
    else if value == "/removeTask" then [RemoveTask]
    else if value == "/removeAutostart" then [RemoveAutostart]
    else if value == "/pipeclienttest" then [Send(TestError)]
    else []
  }

  /** What follows every argument: a Shutdown message in classic mode, then
      messaging cleanup and application shutdown. */
  function ArgumentTail(classic: bool): seq<Action>
  {
    (if classic then [Send(Shutdown)] else []) + [NetMQCleanup, AppShutdown]
  }

  /** The segment of the trace one argument produces. */
  function ArgumentActions(value: string, classic: bool): seq<Action>
  {
    CommandActions(value) + ArgumentTail(classic)
  }

  /** The per-argument loop: each argument's segment, in argument order. */
  function DispatchAll(args: seq<string>, classic: bool): (r: seq<Action>)
    ensures |args| > 0 ==> |r| > 0 && r[|r| - 1] == AppShutdown
    ensures ShowMainWindow !in r
    decreases |args|
  {
    if |args| == 0 then []
    else ArgumentActions(args[0], classic) + DispatchAll(args[1..], classic)
  }

  /** The whole startup handler, from the command-line arguments and the
      configuration as read. */
  function ApplicationStartup(args: seq<string>, config: Option<bool>): (r: Startup)
    ensures r.startSvc <==> |args| == 0 || args[0] != "/debug"
    ensures ShowMainWindow in r.actions <==> |RemainingArgs(args)| == 0
    ensures |r.actions| > 0
  {
    var rest := RemainingArgs(args);
    var actions := if |rest| > 0 then DispatchAll(rest, ClassicMode(config)) else [ShowMainWindow];
    Startup(LaunchesService(args), actions)
  }
}
