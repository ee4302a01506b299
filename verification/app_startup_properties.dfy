/** Properties of the front-end startup handler: the service launch and the
    `/debug` removal, the per-token dispatch table, and the shape of the action
    trace: one segment per argument, in argument order, each ending with the
    per-argument tail. */
module AppStartupProperties {
  import opened Wrappers
  import opened AppStartup
  import Seqs

  /** Splits a trace after every AppShutdown; a trailing part without one
      forms a last, unterminated segment. */
  function Segments(t: seq<Action>): seq<seq<Action>>
    decreases |t|
  {
    if AppShutdown !in t then (if |t| == 0 then [] else [t])
    else
      var k := Seqs.FirstIndex(t, AppShutdown);
      [t[..k + 1]] + Segments(t[k + 1..])
  }

  /** The segment each argument produces, one per argument. */
  function PerArgument(args: seq<string>, classic: bool): (segs: seq<seq<Action>>)
    ensures |segs| == |args|
  {
    seq(|args|, i requires 0 <= i < |args| => ArgumentActions(args[i], classic))
  }

  /** Exactly the four theme tokens are forwarded as themselves. */
  lemma ForwardedVerbatim(value: string)
    ensures CommandActions(value) == [Send(Command(value))] <==> value in ForwardedTokens
    ensures forall t :: Send(Command(t)) in CommandActions(value) ==> t == value
  {
  }

  /** `/pipeclienttest` sends the TestError message rather than its token, and
      the four local commands act locally without sending anything. */
  lemma LocalCommandsSendNothing()
    ensures CommandActions("/pipeclienttest") == [Send(TestError)]
    ensures CommandActions("/update") == [CheckUpdate]
    ensures CommandActions("/location") == [LocationSilent]
    ensures CommandActions("/removeTask") == [RemoveTask]
    ensures CommandActions("/removeAutostart") == [RemoveAutostart]
  {
  }

  /** One argument's segment: its command action, if any, then Shutdown in
      classic mode only, then cleanup and application shutdown last. */
  lemma ArgumentSegmentShape(value: string, classic: bool)
    ensures var seg := ArgumentActions(value, classic);
      && |seg| >= 2
      && seg[|seg| - 2] == NetMQCleanup && seg[|seg| - 1] == AppShutdown
      && AppShutdown !in seg[..|seg| - 1]
      && (Send(Shutdown) in seg <==> classic)
      && seg[..|seg| - |ArgumentTail(classic)|] == CommandActions(value)
  {
  }

  /** A segment closed by its only AppShutdown is split off as it is. */
  lemma SegmentsCons(seg: seq<Action>, rest: seq<Action>)
    requires |seg| > 0 && seg[|seg| - 1] == AppShutdown && AppShutdown !in seg[..|seg| - 1]
    ensures Segments(seg + rest) == [seg] + Segments(rest)
  {
    var t := seg + rest;
    assert t[|seg| - 1] == AppShutdown;
    var k := Seqs.FirstIndex(t, AppShutdown);
    assert k == |seg| - 1;
    assert t[..k + 1] == seg;
    assert t[k + 1..] == rest;
  }

  lemma PerArgumentCons(args: seq<string>, classic: bool)
    requires |args| > 0
    ensures PerArgument(args, classic) == [ArgumentActions(args[0], classic)] + PerArgument(args[1..], classic)
  {
  }

  /** Splitting the dispatch trace after each AppShutdown recovers the
      per-argument segments, one per argument and in argument order. */
  lemma {:induction false} SegmentsOfDispatch(args: seq<string>, classic: bool)
    ensures Segments(DispatchAll(args, classic)) == PerArgument(args, classic)
    decreases |args|
  {
    if |args| > 0 {
      var head := ArgumentActions(args[0], classic);
      var rest := DispatchAll(args[1..], classic);
      assert DispatchAll(args, classic) == head + rest;
      ArgumentSegmentShape(args[0], classic);
      SegmentsCons(head, rest);
      SegmentsOfDispatch(args[1..], classic);
      PerArgumentCons(args, classic);
    } else {
      assert DispatchAll(args, classic) == [];
    }
  }

  /** Dispatching a list in two parts gives the two traces one after the other. */
  lemma {:induction false} DispatchAppend(a: seq<string>, b: seq<string>, classic: bool)
    ensures DispatchAll(a + b, classic) == DispatchAll(a, classic) + DispatchAll(b, classic)
    decreases |a|
  {
    if |a| == 0 {
      assert a + b == b;
    } else {
      assert (a + b)[1..] == a[1..] + b;
      DispatchAppend(a[1..], b, classic);
    }
  }

  /** The trace length is linear in the number of arguments: each argument
      contributes its tail and at most one command action. */
  lemma {:induction false} DispatchLength(args: seq<string>, classic: bool)
    ensures |ArgumentTail(classic)| * |args| <= |DispatchAll(args, classic)|
    ensures |DispatchAll(args, classic)| <= (|ArgumentTail(classic)| + 1) * |args|
    ensures |ArgumentTail(classic)| == if classic then 3 else 2
    decreases |args|
  {
    if |args| > 0 {
      var t := |ArgumentTail(classic)|;
      var head := ArgumentActions(args[0], classic);
      var rest := DispatchAll(args[1..], classic);
      DispatchLength(args[1..], classic);
      assert DispatchAll(args, classic) == head + rest;
      assert t <= |head| <= t + 1;
      assert t * |args| == t * |args[1..]| + t;
      assert (t + 1) * |args| == (t + 1) * |args[1..]| + t + 1;
    }
  }

  /** One argument's segment holds one cleanup and one application shutdown,
      and one Shutdown message exactly in classic mode. */
  lemma SegmentCounts(value: string, classic: bool)
    ensures multiset(ArgumentActions(value, classic))[AppShutdown] == 1
    ensures multiset(ArgumentActions(value, classic))[NetMQCleanup] == 1
    ensures multiset(ArgumentActions(value, classic))[Send(Shutdown)] == if classic then 1 else 0
  {
    var cmd, tail := CommandActions(value), ArgumentTail(classic);
    assert multiset(cmd + tail) == multiset(cmd) + multiset(tail);
    assert multiset(cmd)[AppShutdown] == 0 && multiset(cmd)[Send(Shutdown)] == 0;
    assert multiset(cmd)[NetMQCleanup] == 0;
  }

  /** Every argument ends in exactly one AppShutdown, and in classic mode in
      exactly one Shutdown message; without classic mode no Shutdown is sent. */
  lemma {:induction false} DispatchCounts(args: seq<string>, classic: bool)
    ensures multiset(DispatchAll(args, classic))[AppShutdown] == |args|
    ensures multiset(DispatchAll(args, classic))[NetMQCleanup] == |args|
    ensures multiset(DispatchAll(args, classic))[Send(Shutdown)] == if classic then |args| else 0
    decreases |args|
  {
    if |args| > 0 {
      var head := ArgumentActions(args[0], classic);
      var rest := DispatchAll(args[1..], classic);
      assert DispatchAll(args, classic) == head + rest;
      assert multiset(head + rest) == multiset(head) + multiset(rest);
      SegmentCounts(args[0], classic);
      DispatchCounts(args[1..], classic);
    }
  }

  /** With no argument left after the `/debug` step, the main window is the
      only action and no message is sent. */
  lemma NoArgumentsShowsWindow(args: seq<string>, config: Option<bool>)
    requires |args| == 0 || args == ["/debug"]
    ensures ApplicationStartup(args, config).actions == [ShowMainWindow]
    ensures ApplicationStartup(args, config).startSvc <==> |args| == 0
  {
  }

  /** `/debug` first: the service is not launched, only that first `/debug` is
      dropped, and the rest (later `/debug`s included) is processed unchanged. */
  lemma DebugFirstDropsOnlyHead(args: seq<string>, config: Option<bool>)
    requires |args| > 1 && args[0] == "/debug"
    ensures var r := ApplicationStartup(args, config);
      && !r.startSvc
      && r.actions == DispatchAll(args[1..], ClassicMode(config))
      && Segments(r.actions) == PerArgument(args[1..], ClassicMode(config))
  {
    SegmentsOfDispatch(args[1..], ClassicMode(config));
  }

  /** When the configuration cannot be read, classic mode is off, so no
      Shutdown message is ever sent. */
  lemma UnreadableConfigSendsNoShutdown(args: seq<string>)
    ensures Send(Shutdown) !in ApplicationStartup(args, None).actions
  {
    var rest := RemainingArgs(args);
    if |rest| > 0 {
      DispatchCounts(rest, false);
      assert multiset(DispatchAll(rest, false))[Send(Shutdown)] == 0;
    }
  }
}
