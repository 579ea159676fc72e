// The reallocation handshake of src/main.c, src/client.c and src/server.c: three threads, each
// mutex-protected section one step.
module Handshake {
  import opened ChannelInfo

  /** What the main thread does next. */
  datatype MainPc = Poll | CopyInfo | TellServer | Join | Dealloc | Alloc | Finish | ResetServer | StartServer

  /** The client thread, in CLI_STATE_GET_DATA: about to sample the flag, inside check_data,
      or about to publish. */
  datatype ClientPc = Sample | Check | Publish

  /** The server thread: not running, at the top of its loop, in a pass over the connections,
      some of which it has yet to read a packet for, or closing down. */
  datatype ServerPc = Dead | Top | Serving(left: nat) | Closing

  const MAXCLIENTCONNECTIONS: nat := 10

  datatype State = State(
    main: MainPc, client: ClientPc, server: ServerPc,
    chanChange: bool,          // client_comm.flags & CHANCHANGE
    published: ChannelInfo,    // client_comm.chan_info
    chanInfo: ChannelInfo,     // chan_info_g
    closeCmd: bool,            // server_comm.flags & SRV_CLOSECMD
    serverRunning: bool,       // main's server_running
    hasSlots: bool,            // the packet cache has its slots
    inhibitAdc: bool,          // the client's sample of the flag
    oldInfo: ChannelInfo,      // the client's old_chan_info
    newInfo: ChannelInfo)      // and new_chan_info

  /** main has allocated the cache and started the client. */
  const START := State(Poll, Sample, Dead, false, NOINFO, NOINFO, false, false, true, false, NOINFO, NOINFO)

  datatype Step =
    | MainStep
    | SampleFlag | StorePacket | ReceiveInfo(info: ChannelInfo) | EndCheck | PublishInfo
    | ReadCommand | RetrPacket | EndServe | Terminate

  predicate SameRate(a: ChannelInfo, b: ChannelInfo) {
    a.sps == b.sps && a.numChannels == b.numChannels
  }

  /** Which steps a state allows. The client stores only in a pass that sampled the flag
      clear; pthread_join waits for the server to have returned. */
  predicate Enabled(s: State, step: Step) {
    match step
    case MainStep => s.main == Join ==> s.server == Dead
    case SampleFlag => s.client == Sample
    case StorePacket => s.client == Check && !s.inhibitAdc
    case ReceiveInfo(info) => s.client == Check && Accepted(info)
    case EndCheck => s.client == Check
    case PublishInfo => s.client == Publish
    case ReadCommand => s.server == Top
    case RetrPacket => s.server.Serving? && s.server.left > 0
    case EndServe => s.server.Serving?
    case Terminate => s.server == Closing
  }

  function MainNext(s: State): State {
    match s.main
    case Poll => s.(main := if s.chanChange then CopyInfo else Poll)
    case CopyInfo => s.(chanInfo := s.published, main := if s.serverRunning then TellServer else Dealloc)
    case TellServer => s.(closeCmd := true, main := Join)
    case Join => s.(serverRunning := false, main := Dealloc)
    case Dealloc => s.(hasSlots := false, main := Alloc)
    case Alloc => s.(hasSlots := true, main := Finish)
    case Finish => s.(chanInfo := s.published, chanChange := false, main := ResetServer)
    case ResetServer => s.(closeCmd := false, main := StartServer)
    case StartServer => s.(server := Top, serverRunning := true, main := Poll)
  }

  function Next(s: State, step: Step): State {
    match step
    case MainStep => MainNext(s)
    case SampleFlag => s.(inhibitAdc := s.chanChange, newInfo := s.oldInfo, client := Check)
    case StorePacket => s
    case ReceiveInfo(info) => s.(newInfo := info)
    case EndCheck => s.(client := if SameRate(s.oldInfo, s.newInfo) then Sample else Publish)
    case PublishInfo => s.(chanChange := true, oldInfo := s.published, published := s.newInfo, client := Sample)
    case ReadCommand => s.(server := if s.closeCmd then Closing else Serving(MAXCLIENTCONNECTIONS))
    case RetrPacket => if s.server.Serving? && s.server.left > 0 then s.(server := Serving(s.server.left - 1)) else s
    case EndServe => s.(server := Top)
    case Terminate => s.(closeCmd := false, server := Dead)
  }

  function Run(steps: seq<Step>): State {
    if steps == [] then START else Next(Run(steps[..|steps| - 1]), steps[|steps| - 1])
  }

  /** A schedule: every step is enabled when it is taken. */
  predicate Schedule(steps: seq<Step>) {
    steps == [] || (Schedule(steps[..|steps| - 1]) && Enabled(Run(steps[..|steps| - 1]), steps[|steps| - 1]))
  }

  predicate Reallocating(m: MainPc) {
    m in {CopyInfo, TellServer, Join, Dealloc, Alloc, Finish}
  }

  ghost predicate Inv(s: State) {
    && (Reallocating(s.main) ==> s.chanChange)
    && (s.client == Check && !s.inhibitAdc ==> !s.chanChange)
    && (s.main in {Dealloc, Alloc, Finish, ResetServer, StartServer} ==> s.server == Dead && !s.serverRunning)
    && (s.server != Dead ==> s.serverRunning)
    && (s.main in {TellServer, Join} ==> s.serverRunning)
    && (s.closeCmd <==> s.main == Join && s.server != Dead)
    && (s.server == Closing ==> s.main == Join)
    && (s.main in {Poll, CopyInfo, TellServer} && s.serverRunning ==> s.server != Dead)
    && (s.hasSlots <==> s.main != Alloc)
    && (!s.chanChange ==> s.chanInfo == s.published)
    && (Accepted(s.published) || (s.published == NOINFO && s.oldInfo == NOINFO))
    && (Accepted(s.newInfo) || s.newInfo == s.oldInfo)
    && (s.client == Publish ==> !SameRate(s.oldInfo, s.newInfo))
    && (s.oldInfo == NOINFO || Accepted(s.oldInfo))
    && (s.chanChange ==> Accepted(s.published))
    && (s.server != Dead || s.main !in {Poll, CopyInfo} ==> Accepted(s.chanInfo))
  }

  lemma MainKeeps(s: State)
    requires Inv(s) && Enabled(s, MainStep)
    ensures Inv(MainNext(s))
  {
  }

  predicate ServerMoves(step: Step) {
    step == ReadCommand || step == RetrPacket || step == EndServe || step == Terminate
  }

  lemma ServerKeeps(s: State, step: Step)
    requires Inv(s) && Enabled(s, step) && ServerMoves(step)
    ensures Inv(Next(s, step))
  {
  }

  lemma ClientKeeps(s: State, step: Step)
    requires Inv(s) && Enabled(s, step) && !ServerMoves(step) && step != MainStep
    ensures Inv(Next(s, step))
  {
  }

  lemma StepKeeps(s: State, step: Step)
    requires Inv(s) && Enabled(s, step)
    ensures Inv(Next(s, step))
  {
    if step == MainStep {
      MainKeeps(s);
    } else if ServerMoves(step) {
      ServerKeeps(s, step);
    } else {
      ClientKeeps(s, step);
    }
  }

  lemma {:induction false} ReachableInv(steps: seq<Step>)
    requires Schedule(steps)
    ensures Inv(Run(steps))
  {
    if steps != [] {
      ReachableInv(steps[..|steps| - 1]);
      StepKeeps(Run(steps[..|steps| - 1]), steps[|steps| - 1]);
    }
  }

  predicate TouchesCache(step: Step) {
    step == StorePacket || step == RetrPacket
  }

  /** In every interleaving, no STORE and no RETR comes between DEALLOC and ALLOC; and main
      frees or makes slots only while the flag is set and the server is gone. */
  lemma CacheSafe(steps: seq<Step>, s: State, step: Step)
    requires Schedule(steps) && s == Run(steps) && Enabled(s, step)
    ensures TouchesCache(step) ==> s.hasSlots
    ensures s.main in {Dealloc, Alloc} ==> s.chanChange && s.server == Dead
  {
    ReachableInv(steps);
  }

  /** CHANCHANGE clear means that main has taken over the client's last publication, even
      when the client published again during a reallocation. */
  lemma ClearMeansCurrent(steps: seq<Step>, s: State)
    requires Schedule(steps) && s == Run(steps) && !s.chanChange
    ensures s.chanInfo == s.published
  {
    ReachableInv(steps);
  }

  /** A server that serves, which is when it prints the channel information, prints one that
      was accepted. */
  lemma ServesAccepted(steps: seq<Step>, s: State)
    requires Schedule(steps) && s == Run(steps) && s.server.Serving?
    ensures Accepted(s.chanInfo)
  {
    ReachableInv(steps);
  }

  /** A command to close is pending exactly while main waits for a server that has not
      returned: the server clears it when it returns, and no later server finds it. */
  lemma CommandPendingIff(steps: seq<Step>, s: State)
    requires Schedule(steps) && s == Run(steps)
    ensures s.closeCmd <==> s.main == Join && s.server != Dead
  {
    ReachableInv(steps);
  }

  // ----- the join ends -----

  /** How many of its own steps the server still takes before it returns. */
  function StepsToReturn(p: ServerPc): nat {
    match p
    case Dead => 0
    case Closing => 1
    case Top => 2
    case Serving(left) => 3 + left
  }

  /** While main waits in pthread_join the server never restarts, every move brings it nearer
      to its return, and one of its moves is always possible until it has returned. */
  lemma JoinEnds(steps: seq<Step>, s: State, step: Step)
    requires Schedule(steps) && s == Run(steps) && Enabled(s, step)
    requires s.main == Join && step != MainStep
    ensures var t := Next(s, step);
      && t.main == Join
      && StepsToReturn(t.server) <= StepsToReturn(s.server)
      && (ServerMoves(step) ==> StepsToReturn(t.server) < StepsToReturn(s.server))
    ensures s.server == Dead || exists m :: ServerMoves(m) && Enabled(s, m)
  {
    ReachableInv(steps);
    match s.server
    case Dead =>
    case Top => assert ServerMoves(ReadCommand) && Enabled(s, ReadCommand);
    case Serving(_) => assert ServerMoves(EndServe) && Enabled(s, EndServe);
    case Closing => assert ServerMoves(Terminate) && Enabled(s, Terminate);
  }

  // ----- a reallocation ends -----

  /** A change is pending, or main is in the middle of taking it over. */
  predicate Busy(s: State) {
    s.main != Poll || s.chanChange
  }

  /** How many steps main has yet to take, those of the server it waits for included. */
  function StepsLeft(s: State): nat {
    var perStep := 4 + MAXCLIENTCONNECTIONS;
    match s.main
    case Poll => if s.chanChange then 9 * perStep else 0
    case CopyInfo => 8 * perStep
    case TellServer => 7 * perStep
    case Join => 5 * perStep + 1 + StepsToReturn(s.server)
    case Dealloc => 5 * perStep
    case Alloc => 4 * perStep
    case Finish => 3 * perStep
    case ResetServer => 2 * perStep
    case StartServer => perStep
  }

  /** The server has at most so many reads to make. */
  ghost predicate ReadsBounded(s: State) {
    s.server.Serving? ==> s.server.left <= MAXCLIENTCONNECTIONS
  }

  lemma BoundedKeeps(s: State, step: Step)
    requires ReadsBounded(s)
    ensures ReadsBounded(Next(s, step))
  {
  }

  lemma {:induction false} ReachableBounded(steps: seq<Step>)
    requires Schedule(steps)
    ensures ReadsBounded(Run(steps))
  {
    if steps != [] {
      ReachableBounded(steps[..|steps| - 1]);
      BoundedKeeps(Run(steps[..|steps| - 1]), steps[|steps| - 1]);
    }
  }

  /** A step of main, or of the server while main waits for it. */
  predicate Advances(s: State, step: Step) {
    step == MainStep || (s.main == Join && ServerMoves(step))
  }

  /** The server is running again, with an empty queue of commands and a cache. */
  ghost predicate Restarted(s: State, t: State) {
    && s.main == StartServer && t.main == Poll && t.server == Top && t.serverRunning && !t.closeCmd && t.hasSlots
    && t.chanInfo == s.chanInfo && Accepted(t.chanInfo) && (!t.chanChange ==> t.chanInfo == t.published)
  }

  /** While main is busy it can move, or the server can that it waits for; each such move
      brings the end nearer, and no other one takes it further away. The last one restarts
      the server. */
  lemma BusyStep(steps: seq<Step>, s: State, step: Step)
    requires Schedule(steps) && s == Run(steps) && Busy(s) && Enabled(s, step)
    ensures exists a :: Advances(s, a) && Enabled(s, a)
    ensures var t := Next(s, step);
      || Restarted(s, t)
      || (Busy(t) && StepsLeft(t) + (if Advances(s, step) then 1 else 0) <= StepsLeft(s))
  {
    ReachableInv(steps);
    ReachableBounded(steps);
    StepKeeps(s, step);
    CanAdvance(s);
    if step == MainStep {
      MainAdvances(s);
    } else if ServerMoves(step) {
      ServerAdvances(s, step);
    }
  }

  lemma CanAdvance(s: State)
    ensures exists a :: Advances(s, a) && Enabled(s, a)
  {
    if s.main == Join {
      match s.server
      case Dead => assert Advances(s, MainStep) && Enabled(s, MainStep);
      case Top => assert Advances(s, ReadCommand) && Enabled(s, ReadCommand);
      case Serving(_) => assert Advances(s, EndServe) && Enabled(s, EndServe);
      case Closing => assert Advances(s, Terminate) && Enabled(s, Terminate);
    } else {
      assert Advances(s, MainStep) && Enabled(s, MainStep);
    }
  }

  lemma MainAdvances(s: State)
    requires Inv(s) && ReadsBounded(s) && Busy(s) && Enabled(s, MainStep)
    ensures var t := MainNext(s); Restarted(s, t) || (Busy(t) && StepsLeft(t) < StepsLeft(s))
  {
  }

  lemma ServerAdvances(s: State, step: Step)
    requires Inv(s) && Enabled(s, step) && ServerMoves(step) && Busy(s)
    ensures var t := Next(s, step);
      t.main == s.main && t.chanChange == s.chanChange
      && StepsLeft(t) + (if s.main == Join then 1 else 0) <= StepsLeft(s)
  {
  }

  /** How many of the further steps advance. */
  function Advancing(steps: seq<Step>, more: seq<Step>): nat {
    if more == [] then 0
    else
      var before := more[..|more| - 1];
      Advancing(steps, before) + (if Advances(Run(steps + before), more[|more| - 1]) then 1 else 0)
  }

  /** The k-th of the further steps restarted the server. */
  ghost predicate RestartedAt(steps: seq<Step>, more: seq<Step>, k: nat)
    requires k < |more|
  {
    Restarted(Run(steps + more[..k]), Run(steps + more[..k + 1]))
  }

  ghost predicate RestartedWithin(steps: seq<Step>, more: seq<Step>) {
    exists k :: 0 <= k < |more| && RestartedAt(steps, more, k)
  }

  lemma StaysRestarted(steps: seq<Step>, more: seq<Step>, step: Step)
    requires RestartedWithin(steps, more)
    ensures RestartedWithin(steps, more + [step])
  {
    var k :| 0 <= k < |more| && RestartedAt(steps, more, k);
    var all := more + [step];
    assert all[..k] == more[..k] && all[..k + 1] == more[..k + 1];
    assert RestartedAt(steps, all, k);
  }

  lemma OneStepMore(steps: seq<Step>, more: seq<Step>, step: Step)
    ensures var all := more + [step];
      && all[..|more|] == more && all[..|more| + 1] == all
      && Run(steps + all) == Next(Run(steps + more), step)
      && (Schedule(steps + all) <==> Schedule(steps + more) && Enabled(Run(steps + more), step))
  {
    var all := more + [step];
    assert steps + all == steps + more + [step];
    assert (steps + all)[..|steps + more|] == steps + more;
  }

  /** Every reallocation ends: in any schedule from a state in which main is busy, by the time
      as many steps have advanced as are left, the server has been restarted. */
  lemma {:induction false} ReallocationEnds(steps: seq<Step>, more: seq<Step>)
    requires Schedule(steps + more) && Busy(Run(steps))
    ensures RestartedWithin(steps, more) ||
      (Busy(Run(steps + more)) && StepsLeft(Run(steps + more)) + Advancing(steps, more) <= StepsLeft(Run(steps)))
    ensures Advancing(steps, more) >= StepsLeft(Run(steps)) ==> RestartedWithin(steps, more)
  {
    if more == [] {
      assert steps + more == steps;
      BusyHasSteps(Run(steps));
    } else {
      var before, step := more[..|more| - 1], more[|more| - 1];
      assert more == before + [step];
      OneStepMore(steps, before, step);
      ReallocationEnds(steps, before);
      if RestartedWithin(steps, before) {
        StaysRestarted(steps, before, step);
      } else {
        BusyStep(steps + before, Run(steps + before), step);
        assert more[..|before|] == before && more[..|before| + 1] == more;
        assert Restarted(Run(steps + before), Run(steps + more)) ==> RestartedAt(steps, more, |before|);
        BusyHasSteps(Run(steps + more));
      }
    }
  }

  lemma BusyHasSteps(s: State)
    ensures Busy(s) ==> StepsLeft(s) > 0
  {
  }

  lemma Unfold4(steps: seq<Step>, a: Step, b: Step, c: Step, d: Step)
    ensures var s := Run(steps);
      var t1, t2, t3 := Next(s, a), Next(Next(s, a), b), Next(Next(Next(s, a), b), c);
      && Run(steps + [a, b, c, d]) == Next(t3, d)
      && (Schedule(steps) && Enabled(s, a) && Enabled(t1, b) && Enabled(t2, c) && Enabled(t3, d) ==>
            Schedule(steps + [a, b, c, d]))
  {
    OneStepMore(steps, [], a);
    assert steps + [] == steps && [] + [a] == [a];
    OneStepMore(steps, [a], b);
    assert [a] + [b] == [a, b];
    OneStepMore(steps, [a, b], c);
    assert [a, b] + [c] == [a, b, c];
    OneStepMore(steps, [a, b, c], d);
    assert [a, b, c] + [d] == [a, b, c, d];
  }

  /** The first channel information is published, main takes it over up to new slots, and
      the server starts and reads its first command. */
  function PublishSteps(info: ChannelInfo): seq<Step> {
    [SampleFlag, ReceiveInfo(info), EndCheck, PublishInfo]
  }

  function SlotSteps(info: ChannelInfo): seq<Step> {
    PublishSteps(info) + [MainStep, MainStep, MainStep, MainStep]
  }

  function StartSteps(info: ChannelInfo): seq<Step> {
    SlotSteps(info) + [MainStep, MainStep, MainStep, ReadCommand]
  }

  lemma Publishes(info: ChannelInfo)
    requires Accepted(info)
    ensures Schedule(PublishSteps(info))
    ensures Run(PublishSteps(info)) == START.(chanChange := true, published := info, newInfo := info)
  {
    Unfold4([], SampleFlag, ReceiveInfo(info), EndCheck, PublishInfo);
    assert [] + PublishSteps(info) == PublishSteps(info);
  }

  lemma MakesSlots(info: ChannelInfo)
    requires Accepted(info)
    ensures Schedule(SlotSteps(info))
    ensures Run(SlotSteps(info)) ==
      START.(main := Finish, chanChange := true, published := info, newInfo := info, chanInfo := info)
  {
    Publishes(info);
    Unfold4(PublishSteps(info), MainStep, MainStep, MainStep, MainStep);
  }

  lemma Starts(info: ChannelInfo)
    requires Accepted(info)
    ensures Schedule(StartSteps(info))
    ensures Run(StartSteps(info)) ==
      START.(server := Serving(MAXCLIENTCONNECTIONS), serverRunning := true, published := info, newInfo := info,
             chanInfo := info)
  {
    MakesSlots(info);
    Unfold4(SlotSteps(info), MainStep, MainStep, MainStep, ReadCommand);
  }

  /** The proxy comes up: from the start, the first channel information received leads to a
      server that reads packets and a client that stores them. */
  lemma ComesUp(info: ChannelInfo)
    requires Accepted(info)
    ensures exists steps :: var up := Run(steps);
      && Schedule(steps) && up.chanInfo == up.published == info && !up.chanChange
      && Enabled(up, RetrPacket) && Enabled(up, StorePacket)
  {
    Starts(info);
    OneStepMore(StartSteps(info), [], SampleFlag);
    assert StartSteps(info) + [] == StartSteps(info) && [] + [SampleFlag] == [SampleFlag];
    var steps := StartSteps(info) + [SampleFlag];
    assert Schedule(steps) && Enabled(Run(steps), RetrPacket);
  }

  // ----- which changes are published -----

  datatype Received = Nothing | Info(info: ChannelInfo)

  /** The client's memory between passes: old_chan_info and what it last published. */
  datatype Memory = Memory(oldInfo: ChannelInfo, published: ChannelInfo)

  /** One pass of CLI_STATE_GET_DATA: the memory after it, and whether main was notified. */
  function ClientPass(m: Memory, r: Received): (Memory, bool) {
    var newInfo := if r.Info? then r.info else m.oldInfo;
    if SameRate(m.oldInfo, newInfo) then (m, false) else (Memory(m.published, newInfo), true)
  }

  /** The same pass as steps of the handshake. */
  function PassSteps(s: State, r: Received): State {
    var sampled := Next(s, SampleFlag);
    var checked := Next(if r.Info? then Next(sampled, ReceiveInfo(r.info)) else sampled, EndCheck);
    if checked.client == Publish then Next(checked, PublishInfo) else checked
  }

  lemma PassStepsAreClientPass(s: State, r: Received)
    ensures var t, (m, notified) := PassSteps(s, r), ClientPass(Memory(s.oldInfo, s.published), r);
      t.client == Sample && Memory(t.oldInfo, t.published) == m && t.chanChange == (s.chanChange || notified)
  {
  }

  function Passes(m: Memory, rs: seq<Received>): Memory {
    if rs == [] then m else ClientPass(Passes(m, rs[..|rs| - 1]), rs[|rs| - 1]).0
  }

  /** As far as rate and channel count go, a pass ought to notify main exactly when it
      received others than the published ones. */
  predicate NotifiesRightly(m: Memory, r: Received) {
    ClientPass(m, r).1 <==> r.Info? && !SameRate(m.published, r.info)
  }

  /** The pass compares with the configuration before the published one. So it notifies
      rightly exactly when those two compare alike with what was received. */
  lemma NotifiesRightlyIff(m: Memory, r: Received)
    ensures NotifiesRightly(m, r) <==> r.Nothing? || (SameRate(m.oldInfo, r.info) <==> SameRate(m.published, r.info))
  {
  }

  /** With the type, which sets the width of a sample, a pass ought to notify main exactly
      when it received anything but the published configuration. */
  predicate NotifiesExactly(m: Memory, r: Received) {
    ClientPass(m, r).1 <==> r.Info? && m.published != r.info
  }

  lemma NotifiesExactlyIff(m: Memory, r: Received)
    ensures NotifiesExactly(m, r) <==> r.Nothing? || (SameRate(m.oldInfo, r.info) <==> m.published == r.info)
  {
  }

  /** A reception that check_channel_info lets through. */
  ghost predicate Receivable(r: Received) {
    r.Info? ==> Accepted(r.info)
  }

  /** The memories the client can have. */
  ghost predicate Reachable(m: Memory) {
    && (m.published == NOINFO || Accepted(m.published))
    && (m.oldInfo == NOINFO || (Accepted(m.oldInfo) && Accepted(m.published)))
  }

  lemma {:induction false} PassesReachable(rs: seq<Received>)
    requires forall r :: r in rs ==> Receivable(r)
    ensures Reachable(Passes(Memory(NOINFO, NOINFO), rs))
  {
    if rs != [] {
      PassesReachable(rs[..|rs| - 1]);
      assert rs[|rs| - 1] in rs;
    }
  }

  /** Every reception that can occur is handled exactly only before the first publication.
      Afterwards the published configuration is published again, or, of two types at the
      rate of the older one, both are passed over and one is not published. */
  lemma AlwaysExactIff(m: Memory)
    requires Reachable(m)
    ensures (forall r :: Receivable(r) ==> NotifiesExactly(m, r)) <==> m.published == NOINFO
  {
    if m.published == NOINFO {
    } else if m.oldInfo == NOINFO {
      assert Receivable(Info(m.published)) && !NotifiesExactly(m, Info(m.published));
    } else {
      var a, b := Info(m.oldInfo.(adcType := 2)), Info(m.oldInfo.(adcType := 4));
      assert Receivable(a) && Receivable(b) && (!NotifiesExactly(m, a) || !NotifiesExactly(m, b));
    }
  }

  /** Every possible reception is handled rightly exactly when the last two publications
      agree in rate and channel count. */
  lemma AlwaysRightIff(m: Memory)
    ensures (forall r :: NotifiesRightly(m, r)) <==> SameRate(m.oldInfo, m.published)
    ensures Reachable(m) ==>
      ((forall r :: Receivable(r) ==> NotifiesRightly(m, r)) <==> SameRate(m.oldInfo, m.published))
  {
    if SameRate(m.oldInfo, m.published) {
    } else {
      assert !NotifiesRightly(m, Info(m.published));
      assert Reachable(m) ==> Receivable(Info(m.published));
    }
  }

  /** Going back to the configuration before the published one goes unnoticed. */
  lemma ReturnGoesUnnoticed()
    ensures var a, b := ChannelInfo(100, 4, 2), ChannelInfo(200, 8, 2);
      var m := Passes(Memory(NOINFO, NOINFO), [Info(a), Info(b)]);
      m.published == b && !ClientPass(m, Info(a)).1 && !NotifiesRightly(m, Info(a))
  {
    var a, b := ChannelInfo(100, 4, 2), ChannelInfo(200, 8, 2);
    var rs := [Info(a), Info(b)];
    assert rs[..1] == [Info(a)] && [Info(a)][..0] == [];
    assert Passes(Memory(NOINFO, NOINFO), [Info(a)]) == Memory(NOINFO, a);
  }

  /** The same text received in k passes running. */
  function Announced(x: ChannelInfo, k: nat): seq<Received> {
    if k == 0 then [] else Announced(x, k - 1) + [Info(x)]
  }

  /** However often a configuration is announced, it is the published one at the end exactly
      when it was before or differs in rate or channels from the one before that; and when
      it does not differ, nothing changes. */
  lemma {:induction false} AnnouncedIsPublishedIff(m: Memory, x: ChannelInfo, k: nat)
    requires k > 0
    ensures var n := Passes(m, Announced(x, k));
      && (n.published == x <==>
            m.published == x || m.oldInfo.sps != x.sps || m.oldInfo.numChannels != x.numChannels)
      && (SameRate(m.oldInfo, x) ==> n == m)
  {
    var rs := Announced(x, k);
    assert rs[..|rs| - 1] == Announced(x, k - 1);
    if k > 1 {
      AnnouncedIsPublishedIff(m, x, k - 1);
    }
  }

  /** A change of the type alone is never published once a configuration has settled. */
  lemma TypeChangeUnnoticed(k: nat)
    ensures var a, b := ChannelInfo(100, 4, 2), ChannelInfo(100, 4, 4);
      var m := Passes(Memory(NOINFO, NOINFO), Announced(a, 2));
      Passes(m, Announced(b, k)).published == a != b
  {
    var a, b := ChannelInfo(100, 4, 2), ChannelInfo(100, 4, 4);
    var start := Memory(NOINFO, NOINFO);
    assert Announced(a, 1) == [Info(a)] && [Info(a)][..0] == [];
    assert Announced(a, 2)[..1] == Announced(a, 1);
    assert Passes(start, Announced(a, 1)) == Memory(NOINFO, a);
    assert Passes(start, Announced(a, 2)) == Memory(a, a);
    if k > 0 {
      AnnouncedIsPublishedIff(Memory(a, a), b, k);
    }
  }
}
