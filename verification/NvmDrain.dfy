/** The loop of ns_nvm_operation_end over the pending requests, as it is written: each round notes the next
    entry before it works on this one, and a refused request ends through a nested call of the same function.

    `NvmModel` lets the platform refuse pending requests only where this is harmless. Here it may refuse any,
    so that more than one operation can be outstanding and a round can come upon an entry that is no longer
    in the list. The main result is that `NvmModel` leaves out exactly the refusals that go wrong. */
module NvmDrain {
  import opened Options
  import opened NvmModel

  /** What the code works on; `outstanding` are the stages that the platform owes a callback for, and `lost` the
      requests that it has refused from inside its own callback. */
  datatype Machine = Machine(initialized: bool, inProgress: bool, queue: seq<Req>, outstanding: seq<Phase>,
                             results: seq<ClientStatus>, accepted: seq<Req>, called: seq<Callback>, lost: seq<Req>)

  /** The first stage of a request. */
  function Begun(r: Req): Phase {
    Waiting(Plan(r.kind)[0], r, [])
  }

  /** Fault: the links of an entry are read that has been removed, and so poisoned, before.
      Otherwise the replies that are left over are those that no request was there for. */
  datatype Outcome = Fault | Done(m: Machine, left: seq<Reply>)

  /** How the platform answers to being asked to start a pending request; if it refuses, the request's client is
      told and makes the calls cs. */
  datatype Reply = Taken | Refused(cs: seq<Call>)

  /** Without a reply the request is taken. */
  predicate Takes(replies: seq<Reply>) { replies == [] || replies[0].Taken? }

  /** The refusals before the first request that is taken. */
  function Leading(replies: seq<Reply>): seq<seq<Call>> {
    if Takes(replies) then [] else [replies[0].cs] + Leading(replies[1..])
  }

  function Api(m: Machine, c: Call): Machine {
    var r := Req(|m.results|, c.kind);
    if !c.argsGiven then m.(results := m.results + [NvmError])
    else if !c.memory then m.(results := m.results + [NvmMemory])
    else
      var ok := m.(results := m.results + [NvmOk], accepted := m.accepted + [r]);
      if m.initialized then
        if m.inProgress then ok.(queue := m.queue + [r])
        else if c.started == Ok then ok.(inProgress := true, outstanding := m.outstanding + [Begun(r)])
        else m.(results := m.results + [NvmError])
      else if !c.initMemory then m.(results := m.results + [NvmMemory])
      else if c.started != Ok then m.(results := m.results + [NvmError])
      else
        ok.(initialized := true, inProgress := true, queue := [], outstanding := m.outstanding + [Waiting(Init, r, [])])
  }

  /** Its return value is that of `NvmModel.CallReturns`, whatever else is outstanding. */
  lemma ApiReturns(m: Machine, c: Call)
    ensures var u := Api(m, c);
            && |u.results| == |m.results| + 1 && u.results[..|m.results|] == m.results
            && var ret := u.results[|m.results|];
               && (ret == NvmError <==>
                   !c.argsGiven || (c.memory && (if m.initialized then !m.inProgress else c.initMemory) && c.started != Ok))
               && (ret == NvmMemory <==> c.argsGiven && (!c.memory || (!m.initialized && !c.initMemory)))
               && (ret == NvmOk <==>
                   c.argsGiven && c.memory &&
                   if m.initialized then m.inProgress || c.started == Ok else c.initMemory && c.started == Ok)
               && (ret == NvmOk ==> u.accepted == m.accepted + [Req(|m.results|, c.kind)])
               && (ret != NvmOk ==> u == m.(results := u.results))
  {
  }

  function ApiAll(m: Machine, cs: seq<Call>): Machine
    decreases |cs|
  {
    if cs == [] then m else ApiAll(Api(m, cs[0]), cs[1..])
  }

  function First(queue: seq<Req>): Option<Req> {
    if queue == [] then None else Some(queue[0])
  }

  function IndexOf(queue: seq<Req>, r: Req): (i: nat)
    requires r in queue
    ensures i < |queue| && queue[i] == r
  {
    if queue[0] == r then 0 else 1 + IndexOf(queue[1..], r)
  }

  /** The client is told and makes its calls, and then the flag is cleared (:214-216). */
  function ClientTurn(m: Machine, cb: Callback, cs: seq<Call>): Machine {
    ApiAll(m.(called := m.called + [cb]), cs).(inProgress := false)
  }

  /** ns_nvm_operation_end. `replies` are the platform's, one for each request it is asked to start. */
  function EndOf(m: Machine, cb: Callback, cs: seq<Call>, replies: seq<Reply>): (o: Outcome)
    decreases |replies|, 1
    ensures o.Done? ==> |o.left| <= |replies|
  {
    var u := ClientTurn(m, cb, cs);
    Loop(u, First(u.queue), replies)
  }

  /** The rounds from entry e on (:218-227). */
  function Loop(m: Machine, e: Option<Req>, replies: seq<Reply>): (o: Outcome)
    decreases |replies|, 0
    ensures o.Done? ==> |o.left| <= |replies|
  {
    if e.None? then Done(m, replies)
    else if e.value !in m.queue then Fault
    else
      var i := IndexOf(m.queue, e.value);
      var next := First(m.queue[i + 1..]);
      var u := m.(queue := m.queue[..i] + m.queue[i + 1..]);
      if Takes(replies) then Done(u.(inProgress := true, outstanding := u.outstanding + [Begun(e.value)]), if replies == [] then [] else replies[1..])
      else
        var nested := EndOf(u.(inProgress := false), Callback(e.value, NvmError, []), replies[0].cs, replies[1..]);
        if nested.Fault? then Fault else Loop(nested.m, next, nested.left)
  }

  // ----- What happens to the list

  /** Each pending request is there once, and was numbered when it was accepted. */
  ghost predicate QueueOk(m: Machine) {
    && (!m.initialized ==> m.queue == [])
    && (forall i :: 0 <= i < |m.queue| ==> m.queue[i].id < |m.results|)
    && forall i, j :: 0 <= i < j < |m.queue| ==> m.queue[i] != m.queue[j]
  }

  /** Nothing enters the list but new requests, and what the platform has accepted stays outstanding. */
  ghost predicate Follows(m: Machine, u: Machine) {
    && QueueOk(u)
    && |u.results| >= |m.results|
    && (forall r :: r in u.queue ==> r in m.queue || r.id >= |m.results|)
    && m.outstanding <= u.outstanding
  }

  lemma {:induction false} ApiAllFollows(m: Machine, cs: seq<Call>)
    requires QueueOk(m)
    ensures Follows(m, ApiAll(m, cs))
    decreases |cs|
  {
    if cs != [] {
      ApiAllFollows(Api(m, cs[0]), cs[1..]);
    }
  }

  lemma ClientTurnFollows(m: Machine, cb: Callback, cs: seq<Call>)
    requires QueueOk(m)
    ensures Follows(m, ClientTurn(m, cb, cs))
  {
    ApiAllFollows(m.(called := m.called + [cb]), cs);
  }

  /** One round takes its entry out of the list and hands the rest on. */
  lemma RoundFollows(m: Machine, i: nat) returns (u: Machine)
    requires QueueOk(m) && i < |m.queue|
    ensures u == m.(queue := m.queue[..i] + m.queue[i + 1..]) && Follows(m, u) && m.queue[i] !in u.queue
  {
    u := m.(queue := m.queue[..i] + m.queue[i + 1..]);
  }

  /** An entry that the loop has worked on is not in the list any more. */
  lemma {:induction false} LoopFollows(m: Machine, e: Option<Req>, replies: seq<Reply>)
    requires QueueOk(m) && Loop(m, e, replies).Done?
    ensures Follows(m, Loop(m, e, replies).m)
    ensures e.Some? ==> e.value !in Loop(m, e, replies).m.queue
    decreases |replies|
  {
    if e.Some? {
      var i := IndexOf(m.queue, e.value);
      var u := RoundFollows(m, i);
      if !Takes(replies) {
        var cb := Callback(e.value, NvmError, []);
        var w := u.(inProgress := false);
        var v := ClientTurn(w, cb, replies[0].cs);
        var nested := Loop(v, First(v.queue), replies[1..]);
        ClientTurnFollows(w, cb, replies[0].cs);
        LoopFollows(v, First(v.queue), replies[1..]);
        LoopFollows(nested.m, First(m.queue[i + 1..]), nested.left);
        StaysOut(m, u, v, nested.m, Loop(m, e, replies).m, e.value);
      }
    }
  }

  lemma StaysOut(m: Machine, u: Machine, v: Machine, w: Machine, x: Machine, r: Req)
    requires QueueOk(m) && Follows(m, u) && r in m.queue && r !in u.queue
    requires Follows(u.(inProgress := false), v) && Follows(v, w) && Follows(w, x)
    ensures Follows(m, x) && r !in x.queue
  {
  }

  // ----- When an entry is read that has been removed

  /** The last pending request is refused: its end takes over, and no round follows. */
  lemma LastRefused(m: Machine, replies: seq<Reply>)
    requires |m.queue| == 1 && !Takes(replies)
    ensures Loop(m, First(m.queue), replies) ==
            EndOf(m.(queue := [], inProgress := false), Callback(m.queue[0], NvmError, []), replies[0].cs, replies[1..])
  {
    assert m.queue[..0] + m.queue[1..] == [] && First(m.queue[1..]) == None;
  }

  lemma FirstRefused(m: Machine, replies: seq<Reply>)
    requires |m.queue| >= 2 && !Takes(replies)
    ensures var u := m.(queue := m.queue[1..], inProgress := false);
            var nested := EndOf(u, Callback(m.queue[0], NvmError, []), replies[0].cs, replies[1..]);
            Loop(m, First(m.queue), replies) ==
            if nested.Fault? then Fault else Loop(nested.m, Some(m.queue[1]), nested.left)
  {
    assert m.queue[..0] + m.queue[1..] == m.queue[1..];
  }

  /** The client of a refused request is told; whoever is pending then is still so. */
  lemma RefusedTurn(m: Machine, cs: seq<Call>) returns (v: Machine)
    requires QueueOk(m) && |m.queue| >= 2
    ensures v == ClientTurn(m.(queue := m.queue[1..], inProgress := false), Callback(m.queue[0], NvmError, []), cs)
    ensures QueueOk(v) && First(v.queue) == Some(m.queue[1])
  {
    var u, cb := m.(queue := m.queue[1..], inProgress := false), Callback(m.queue[0], NvmError, []);
    v := ClientTurn(u, cb, cs);
    ClientTurnFollows(u, cb, cs);
    ClientAppends(u, cb, cs);
  }

  /** A refusal while others wait: the nested call takes the entry that the outer one has noted as next. */
  lemma OvertakenAtOnce(m: Machine, replies: seq<Reply>)
    requires QueueOk(m) && |m.queue| >= 2 && !Takes(replies)
    ensures Loop(m, First(m.queue), replies).Fault?
  {
    var v := RefusedTurn(m, replies[0].cs);
    FirstRefused(m, replies);
    if Loop(v, First(v.queue), replies[1..]).Done? {
      LoopFollows(v, First(v.queue), replies[1..]);
    }
  }

  lemma {:induction false} ApiAllAppends(m: Machine, cs: seq<Call>)
    requires m.initialized || m.queue == []
    ensures m.queue <= ApiAll(m, cs).queue
    decreases |cs|
  {
    if cs != [] {
      ApiAllAppends(Api(m, cs[0]), cs[1..]);
    }
  }

  lemma ClientAppends(m: Machine, cb: Callback, cs: seq<Call>)
    requires m.initialized || m.queue == []
    ensures m.queue <= ClientTurn(m, cb, cs).queue
  {
    ApiAllAppends(m.(called := m.called + [cb]), cs);
  }

  /** Some refusal comes while at least two requests are pending, counting those that the clients of the
      requests refused before it have added. */
  predicate Overtaken(m: Machine, replies: seq<Reply>)
    decreases |replies|
  {
    m.queue != [] && !Takes(replies) &&
    (|m.queue| >= 2 ||
     Overtaken(ClientTurn(m.(queue := [], inProgress := false), Callback(m.queue[0], NvmError, []), replies[0].cs),
               replies[1..]))
  }

  lemma {:induction false} FaultIffOvertaken(m: Machine, replies: seq<Reply>)
    requires QueueOk(m)
    ensures Loop(m, First(m.queue), replies).Fault? <==> Overtaken(m, replies)
    decreases |replies|
  {
    if m.queue != [] && !Takes(replies) {
      if |m.queue| >= 2 {
        OvertakenAtOnce(m, replies);
      } else {
        var cb, u := Callback(m.queue[0], NvmError, []), m.(queue := [], inProgress := false);
        LastRefused(m, replies);
        ClientTurnFollows(u, cb, replies[0].cs);
        FaultIffOvertaken(ClientTurn(u, cb, replies[0].cs), replies[1..]);
      }
    }
  }

  // ----- When the flag tells the truth

  /** No removed entry has been read, at most one operation is outstanding, and the flag says whether. */
  predicate Sound(o: Outcome) {
    o.Done? && |o.m.outstanding| <= 1 && (o.m.inProgress <==> o.m.outstanding != [])
  }

  /** Once the flag has been cleared beside an outstanding operation, no outcome is sound. */
  lemma {:induction false} ClearedTooEarly(m: Machine, replies: seq<Reply>)
    requires QueueOk(m) && m.outstanding != [] && !m.inProgress
    ensures !Sound(Loop(m, First(m.queue), replies))
    decreases |replies|
  {
    if m.queue != [] && !Takes(replies) {
      if |m.queue| >= 2 {
        OvertakenAtOnce(m, replies);
      } else {
        var cb, u := Callback(m.queue[0], NvmError, []), m.(queue := []);
        LastRefused(m, replies);
        ClientTurnFollows(u, cb, replies[0].cs);
        ClearedTooEarly(ClientTurn(u, cb, replies[0].cs), replies[1..]);
      }
    }
  }

  /** With nothing in progress, the calls leave something outstanding exactly if one of them starts it. */
  lemma {:induction false} OutstandingIffStarts(m: Machine, cs: seq<Call>)
    requires QueueOk(m) && m.initialized && !m.inProgress && m.outstanding == []
    ensures ApiAll(m, cs).outstanding == [] <==> forall i :: 0 <= i < |cs| ==> !Starts(cs[i])
    ensures ApiAll(m, cs).outstanding == [] ==> ApiAll(m, cs).queue == m.queue
    decreases |cs|
  {
    if cs != [] {
      var u := Api(m, cs[0]);
      if Starts(cs[0]) {
        ApiAllFollows(u, cs[1..]);
      } else {
        OutstandingIffStarts(u, cs[1..]);
        assert forall i :: 1 <= i < |cs| ==> cs[i] == cs[1..][i - 1];
      }
    }
  }

  /** The condition that `NvmModel` puts on refusals is exact. */
  lemma SoundIffHarmless(m: Machine, replies: seq<Reply>)
    requires QueueOk(m) && m.initialized && !m.inProgress && m.outstanding == []
    ensures Sound(Loop(m, First(m.queue), replies)) <==> Harmless(m.queue, Leading(replies))
  {
    if m.queue != [] && !Takes(replies) {
      if |m.queue| >= 2 {
        OvertakenAtOnce(m, replies);
      } else {
        var cb, u := Callback(m.queue[0], NvmError, []), m.(queue := []);
        var v := ClientTurn(u, cb, replies[0].cs);
        LastRefused(m, replies);
        ClientTurnFollows(u, cb, replies[0].cs);
        OutstandingIffStarts(u.(called := u.called + [cb]), replies[0].cs);
        if v.outstanding != [] {
          ClearedTooEarly(v, replies[1..]);
        }
      }
    }
  }

  /** When the loop is through, nothing is pending or something is outstanding, and a flag that is set is right. */
  lemma {:induction false} LoopSettles(m: Machine, e: Option<Req>, replies: seq<Reply>)
    requires QueueOk(m) && Loop(m, e, replies).Done?
    requires (m.inProgress ==> m.outstanding != []) && (e.None? ==> m.queue == [] || m.outstanding != [])
    ensures var u := Loop(m, e, replies).m;
            (u.inProgress ==> u.outstanding != []) && (u.queue == [] || u.outstanding != [])
    decreases |replies|
  {
    if e.Some? && !Takes(replies) {
      var i := IndexOf(m.queue, e.value);
      var u := RoundFollows(m, i);
      var w := u.(inProgress := false);
      var cb := Callback(e.value, NvmError, []);
      var v := ClientTurn(w, cb, replies[0].cs);
      var nested := Loop(v, First(v.queue), replies[1..]);
      ClientTurnFollows(w, cb, replies[0].cs);
      LoopFollows(v, First(v.queue), replies[1..]);
      LoopSettles(v, First(v.queue), replies[1..]);
      LoopSettles(nested.m, First(m.queue[i + 1..]), nested.left);
    }
  }

  /** The two ways to be unsound without reading a removed entry: the flag is cleared beside an outstanding
      operation, or two operations are outstanding. */
  lemma UnsoundCases(m: Machine, replies: seq<Reply>)
    requires QueueOk(m) && !m.inProgress
    ensures var o := Loop(m, First(m.queue), replies);
            o.Done? && !Sound(o) ==> (!o.m.inProgress && o.m.outstanding != []) || |o.m.outstanding| >= 2
  {
    if Loop(m, First(m.queue), replies).Done? {
      LoopSettles(m, First(m.queue), replies);
    }
  }

  // ----- The same as the state machine

  function Owed(p: Phase): seq<Phase> {
    if p.Waiting? then [p] else []
  }

  function Of(s: State): Machine {
    Machine(s.initialized, s.inProgress, s.queue, Owed(s.phase), s.results, s.accepted, s.called,
            if s.phase.Stuck? then s.dropped + [s.phase.req] else s.dropped)
  }

  /** The machine is that of the state, but for what is outstanding. */
  predicate Agrees(m: Machine, s: State) {
    m == Of(s).(outstanding := m.outstanding)
  }

  lemma {:induction false} ApiAllAgrees(m: Machine, s: State, cs: seq<Call>)
    requires Agrees(m, s) && s.initialized && !s.phase.Stuck? && (s.inProgress || forall i :: 0 <= i < |cs| ==> !Starts(cs[i]))
    ensures Agrees(ApiAll(m, cs), SubmitAll(s, cs)) && ApiAll(m, cs).outstanding == m.outstanding
    ensures SubmitAll(s, cs).initialized && SubmitAll(s, cs).phase == s.phase
    ensures SubmitAll(s, cs).inProgress == s.inProgress
    decreases |cs|
  {
    if cs != [] {
      ApiAllAgrees(Api(m, cs[0]), Submit(s, cs[0]), cs[1..]);
    }
  }

  /** ns_nvm_operation_end for the request in hand, whose operation has just been completed. */
  function Finish(s: State, status: PlatformStatus, cs: seq<Call>, replies: seq<Reply>): Outcome
    requires s.phase.Waiting?
  {
    var p := s.phase;
    EndOf(Of(s).(outstanding := []), Callback(p.req, ClientView(status), p.answers + [Answer(p.op, status)]), cs, replies)
  }

  lemma LeadingRefusal(replies: seq<Reply>)
    requires !Takes(replies)
    ensures Leading(replies) != [] && Leading(replies)[0] == replies[0].cs
    ensures Leading(replies)[1..] == Leading(replies[1..])
  {
  }

  lemma TakenAgrees(m: Machine, t: State, replies: seq<Reply>)
    requires m == Of(t.(inProgress := false, phase := Idle)) && t.queue != [] && Takes(replies)
    ensures var o := Loop(m, First(m.queue), replies); o.Done? && o.m == Of(NextTurn(t, []))
  {
    assert m.queue[..0] + m.queue[1..] == t.queue[1..];
  }

  lemma RefusedAgrees(m: Machine, t: State, replies: seq<Reply>, refusals: seq<seq<Call>>)
    requires m == Of(t.(inProgress := false, phase := Idle)) && t.initialized
    requires |t.queue| == 1 && !Takes(replies) && refusals != [] && refusals[0] == replies[0].cs
    requires forall i :: 0 <= i < |refusals[0]| ==> !Starts(refusals[0][i])
    ensures Loop(m, First(m.queue), replies) == Done(Of(NextTurn(t, refusals)), replies[1..])
  {
    var cb := Callback(t.queue[0], NvmError, []);
    var v := m.(queue := [], inProgress := false, called := m.called + [cb]);
    var w := t.(queue := [], inProgress := false, phase := Idle, called := t.called + [cb]);
    assert t.queue[1..] == [];
    LastRefused(m, replies);
    ApiAllAgrees(v, w, refusals[0]);
    ApiAllQuiet(v, refusals[0]);
    var after := SubmitAll(w, refusals[0]);
    assert NextTurn(t, refusals) == NextTurn(after, refusals[1..]) == after;
  }

  lemma RoundsAgree(m: Machine, t: State, replies: seq<Reply>)
    requires m == Of(t.(inProgress := false, phase := Idle)) && t.initialized
    requires Harmless(t.queue, Leading(replies))
    ensures var o := Loop(m, First(m.queue), replies); o.Done? && o.m == Of(NextTurn(t, Leading(replies)))
  {
    if t.queue != [] && Takes(replies) {
      TakenAgrees(m, t, replies);
    } else if t.queue != [] {
      LeadingRefusal(replies);
      RefusedAgrees(m, t, replies, Leading(replies));
    }
  }

  lemma {:induction false} ApiAllQuiet(m: Machine, cs: seq<Call>)
    requires m.initialized && !m.inProgress && forall i :: 0 <= i < |cs| ==> !Starts(cs[i])
    ensures ApiAll(m, cs).queue == m.queue
    decreases |cs|
  {
    if cs != [] {
      ApiAllQuiet(Api(m, cs[0]), cs[1..]);
    }
  }

  lemma QueuedAt(s: State, i: nat) returns (at: nat)
    requires ServedOk(s) && i < |s.queue|
    ensures at == TurnAt(|s.called| + |InHand(s.phase)| + i, |s.dropped|, |s.stranded|, |s.accepted| > BeforeDrop(s))
    ensures at < |s.accepted| && s.queue[i] == s.accepted[at]
  {
    var place := |s.called| + |InHand(s.phase)| + i;
    at := TurnAt(place, |s.dropped|, |s.stranded|, |s.accepted| > BeforeDrop(s));
    assert s.queue[i] == Served(s)[place];
    ServedAt(s, place);
  }

  lemma QueueFromInv(s: State)
    requires Inv(s)
    ensures QueueOk(Of(s))
  {
    forall i | 0 <= i < |s.queue|
      ensures s.queue[i].id < |s.results|
    {
      var _ := QueuedAt(s, i);
    }
    forall i, j | 0 <= i < j < |s.queue|
      ensures s.queue[i] != s.queue[j]
    {
      var a := QueuedAt(s, i);
      var b := QueuedAt(s, j);
      assert s.accepted[a].id != s.accepted[b].id;
    }
  }

  /** In any reachable state, and whatever the clients call and the platform refuses, the code does what
      `NvmModel` says exactly if `NvmModel` lets this completion happen. Otherwise it reads a removed entry,
      exactly if two requests are pending at some refusal, or it leaves a wrong flag or two operations. */
  lemma RefusalsExact(es: seq<Event>, status: PlatformStatus, next: PlatformStatus, cs: seq<Call>, replies: seq<Reply>)
    requires Legal(INITIAL, es)
    requires var p := Run(INITIAL, es).phase; p.Waiting? && Ends(p.op, status)
    ensures var s := Run(INITIAL, es);
            var o := Finish(s, status, cs, replies);
            var cb := Callback(s.phase.req, ClientView(status), s.phase.answers + [Answer(s.phase.op, status)]);
            && (Sound(o) <==> MayComplete(s, status, cs, Leading(replies)))
            && (Sound(o) ==> o.m == Of(Complete(s, status, next, cs, Leading(replies))))
            && (o.Fault? <==> Overtaken(ClientTurn(Of(s).(outstanding := []), cb, cs), replies))
            && (o.Done? && !Sound(o) ==> (!o.m.inProgress && o.m.outstanding != []) || |o.m.outstanding| >= 2)
  {
    InitialInv();
    RunKeepsInv(INITIAL, es);
    var s := Run(INITIAL, es);
    FinishExact(s, status, next, cs, replies);
  }

  lemma FinishExact(s: State, status: PlatformStatus, next: PlatformStatus, cs: seq<Call>, replies: seq<Reply>)
    requires Inv(s) && s.phase.Waiting? && Ends(s.phase.op, status)
    ensures var o := Finish(s, status, cs, replies);
            var cb := Callback(s.phase.req, ClientView(status), s.phase.answers + [Answer(s.phase.op, status)]);
            && (Sound(o) <==> MayComplete(s, status, cs, Leading(replies)))
            && (Sound(o) ==> o.m == Of(Complete(s, status, next, cs, Leading(replies))))
            && (o.Fault? <==> Overtaken(ClientTurn(Of(s).(outstanding := []), cb, cs), replies))
            && (o.Done? && !Sound(o) ==> (!o.m.inProgress && o.m.outstanding != []) || |o.m.outstanding| >= 2)
  {
    var p := s.phase;
    var cb := Callback(p.req, ClientView(status), p.answers + [Answer(p.op, status)]);
    var m := Of(s).(outstanding := []);
    var t := AfterCallback(s, p.req, cb.status, cb.answers, cs);
    var u := ClientTurn(m, cb, cs);
    QueueFromInv(s);
    ClientTurnFollows(m, cb, cs);
    ApiAllAgrees(m.(called := m.called + [cb]), s.(called := s.called + [cb]), cs);
    SoundIffHarmless(u, replies);
    FaultIffOvertaken(u, replies);
    UnsoundCases(u, replies);
    if Harmless(t.queue, Leading(replies)) {
      RoundsAgree(u, t, replies);
      CompleteCases(s, status, next, cs, Leading(replies));
    }
  }

  // ----- Histories in which it goes wrong

  const READ := Call(Read, true, true, true, Ok)

  lemma OpeningTwo()
    ensures var es := [DoCall(READ), DoCall(READ), DoComplete(Ok, Ok, [], [])];
            && Legal(INITIAL, es)
            && var s := Run(INITIAL, es);
               s.phase == Waiting(KeyRead, Req(0, Read), []) && s.queue == [Req(1, Read)] && |s.results| == 2 && s.initialized
  {
    var c, e := DoCall(READ), DoComplete(Ok, Ok, [], []);
    var s1 := Step(INITIAL, c);
    var s2 := Step(s1, c);
    var s3 := Step(s2, e);
    assert [e][1..] == [] && Legal(s2, [e]) && Run(s2, [e]) == s3;
    assert [c, e][1..] == [e] && Legal(s1, [c, e]) && Run(s1, [c, e]) == s3;
    assert [c, c, e][1..] == [c, e];
  }

  lemma OpeningThree()
    ensures var es := [DoCall(READ), DoCall(READ), DoCall(READ), DoComplete(Ok, Ok, [], [])];
            && Legal(INITIAL, es)
            && var s := Run(INITIAL, es);
               && s.phase == Waiting(KeyRead, Req(0, Read), []) && |s.results| == 3
               && s.queue == [Req(1, Read), Req(2, Read)]
  {
    var c, e := DoCall(READ), DoComplete(Ok, Ok, [], []);
    var s1 := Step(INITIAL, c);
    var s2 := Step(s1, c);
    var s3 := Step(s2, c);
    var s4 := Step(s3, e);
    assert [e][1..] == [] && Legal(s3, [e]) && Run(s3, [e]) == s4;
    assert [c, e][1..] == [e] && Legal(s2, [c, e]) && Run(s2, [c, e]) == s4;
    assert [c, c, e][1..] == [c, e] && Legal(s1, [c, c, e]) && Run(s1, [c, c, e]) == s4;
    assert [c, c, c, e][1..] == [c, c, e];
  }

  /** Three reads; the first completes, and the platform refuses the second while the third is waiting: the
      third is removed and poisoned, and then the loop goes on from it. */
  lemma ThreeReadsFault()
    ensures var es := [DoCall(READ), DoCall(READ), DoCall(READ), DoComplete(Ok, Ok, [], [])];
            Legal(INITIAL, es) && Run(INITIAL, es).phase.Waiting? && Finish(Run(INITIAL, es), Ok, [], [Refused([])]).Fault?
  {
    OpeningThree();
    var s := Run(INITIAL, [DoCall(READ), DoCall(READ), DoCall(READ), DoComplete(Ok, Ok, [], [])]);
    InitialInv();
    RunKeepsInv(INITIAL, [DoCall(READ), DoCall(READ), DoCall(READ), DoComplete(Ok, Ok, [], [])]);
    FinishExact(s, Ok, Ok, [], [Refused([])]);
  }

  /** Two reads; the first completes, the platform refuses the second, and its client tries again. The new
      read is started and the flag is cleared beside it. */
  lemma RetryClearsFlag()
    ensures var es := [DoCall(READ), DoCall(READ), DoComplete(Ok, Ok, [], [])];
            && Legal(INITIAL, es) && Run(INITIAL, es).phase.Waiting?
            && var o := Finish(Run(INITIAL, es), Ok, [], [Refused([READ])]);
               o.Done? && !o.m.inProgress && o.m.outstanding == [Begun(Req(2, Read))]
  {
    OpeningTwo();
    var s := Run(INITIAL, [DoCall(READ), DoCall(READ), DoComplete(Ok, Ok, [], [])]);
    TwoReads(s, [READ]);
    var m := SecondRefused(s);
    OneCall(m, READ);
    assert ApiAll(m, [READ]).queue == [];
  }

  /** If the client tries twice, the second new read is queued, found by the nested loop and started too:
      the flag is set, and two operations are outstanding. */
  lemma RetriesStartTwo()
    ensures var es := [DoCall(READ), DoCall(READ), DoComplete(Ok, Ok, [], [])];
            && Legal(INITIAL, es) && Run(INITIAL, es).phase.Waiting?
            && var o := Finish(Run(INITIAL, es), Ok, [], [Refused([READ, READ])]);
               o.Done? && o.m.inProgress && o.m.outstanding == [Begun(Req(2, Read)), Begun(Req(3, Read))]
  {
    OpeningTwo();
    var s := Run(INITIAL, [DoCall(READ), DoCall(READ), DoComplete(Ok, Ok, [], [])]);
    TwoReads(s, [READ, READ]);
    var m := SecondRefused(s);
    assert [READ, READ][1..] == [READ];
    OneCall(Api(m, READ), READ);
    var u := ApiAll(m, [READ, READ]).(inProgress := false);
    assert u.queue == [Req(3, Read)] && u.outstanding == [Begun(Req(2, Read))];
    assert u.queue[..0] + u.queue[1..] == [];
    assert u.outstanding + [Begun(Req(3, Read))] == [Begun(Req(2, Read)), Begun(Req(3, Read))];
  }

  lemma OneCall(m: Machine, c: Call)
    ensures ApiAll(m, [c]) == Api(m, c)
  {
    assert [c][1..] == [];
  }

  /** When the client of the second read is told that it was refused. */
  function SecondRefused(s: State): Machine {
    Of(s).(outstanding := [], queue := [], inProgress := false,
           called := s.called + [Callback(Req(0, Read), NvmOk, [Answer(KeyRead, Ok)])] + [Callback(Req(1, Read), NvmError, [])])
  }

  /** The second of two reads is refused, and its client makes the calls cs. */
  lemma TwoReads(s: State, cs: seq<Call>)
    requires s.phase == Waiting(KeyRead, Req(0, Read), []) && s.queue == [Req(1, Read)]
    ensures var u := ApiAll(SecondRefused(s), cs).(inProgress := false);
            Finish(s, Ok, [], [Refused(cs)]) == Loop(u, First(u.queue), [])
  {
    var done := Callback(Req(0, Read), NvmOk, [Answer(KeyRead, Ok)]);
    var m := ClientTurn(Of(s).(outstanding := []), done, []);
    assert [] + [Answer(KeyRead, Ok)] == [Answer(KeyRead, Ok)];
    LastRefused(m, [Refused(cs)]);
    assert [Refused(cs)][1..] == [];
  }
}
