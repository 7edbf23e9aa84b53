/** The NVM request machine of ns_nvm_helper.c as a transition system over values.

    API calls are numbered in the order they are made. The state remembers what each call returned,
    which callbacks the clients have had, and what the platform has been asked and has answered for
    each request, so that properties of whole histories are invariants of the state. */
module NvmModel {
  import opened Options

  datatype Kind = Read | Write | Delete

  datatype Operation = Init | KeyCreate | KeyRead | KeyWrite | Flush | KeyDelete

  datatype PlatformStatus = Ok | KeyNotFound | Error

  datatype ClientStatus = NvmOk | DataNotFound | NvmError | NvmMemory

  /** An accepted API call: its number and what it asks for. */
  datatype Req = Req(id: nat, kind: Kind)

  /** One platform operation completed for a request, with the status it reported. */
  datatype Answer = Answer(op: Operation, status: PlatformStatus)

  datatype Callback = Callback(req: Req, status: ClientStatus, answers: seq<Answer>)

  /** Idle: nothing in progress. Waiting: the platform owes a callback for `op`; `answers` are those it
      has given for this request. Stuck: the platform refused to go on from inside its own callback. */
  datatype Phase = Idle | Waiting(op: Operation, req: Req, answers: seq<Answer>) | Stuck(req: Req)

  datatype State = State(initialized: bool, inProgress: bool, queue: seq<Req>, phase: Phase,
                         results: seq<ClientStatus>, accepted: seq<Req>, called: seq<Callback>,
                         dropped: seq<Req>, stranded: seq<Req>)

  const INITIAL := State(false, false, [], Idle, [], [], [], [], [])

  /** What the environment decides about one API call: whether its pointers are all given, whether its
      allocation (and that of the init request) succeeds, and what a platform call made for it returns. */
  datatype Call = Call(kind: Kind, argsGiven: bool, memory: bool, initMemory: bool, started: PlatformStatus)

  /** The platform operations a request needs, in order. */
  function Plan(kind: Kind): seq<Operation> {
    match kind
    case Read => [KeyRead]
    case Write => [KeyCreate, KeyWrite, Flush]
    case Delete => [KeyDelete, Flush]
  }

  function ClientView(status: PlatformStatus): ClientStatus {
    match status
    case Ok => NvmOk
    case KeyNotFound => DataNotFound
    case Error => NvmError
  }

  // ----- Steps

  function Reject(s: State, why: ClientStatus): State {
    s.(results := s.results + [why])
  }

  function Accept(s: State, kind: Kind): State {
    s.(results := s.results + [NvmOk], accepted := s.accepted + [Req(|s.results|, kind)])
  }

  /** One of the three API entry points. */
  function Submit(s: State, c: Call): State {
    var r := Req(|s.results|, c.kind);
    if !c.argsGiven then Reject(s, NvmError)
    else if !c.memory then Reject(s, NvmMemory)
    else if s.initialized then
      if !s.inProgress then
        if c.started == Ok then
          Accept(s, c.kind).(inProgress := true, phase := Waiting(Plan(c.kind)[0], r, []))
        else
          Reject(s, NvmError)
      else
        Accept(s, c.kind).(queue := s.queue + [r])
    else if !c.initMemory then Reject(s, NvmMemory)
    else if c.started != Ok then Reject(s, NvmError)
    else
      Accept(s, c.kind).(queue := [], initialized := true, inProgress := true, phase := Waiting(Init, r, []))
  }

  /** What an API call returns. */
  function Verdict(s: State, c: Call): ClientStatus {
    if !c.argsGiven then NvmError
    else if !c.memory then NvmMemory
    else if s.initialized then
      if s.inProgress || c.started == Ok then NvmOk else NvmError
    else if !c.initMemory then NvmMemory
    else if c.started != Ok then NvmError
    else NvmOk
  }

  lemma SubmitByVerdict(s: State, c: Call)
    requires !s.initialized ==> s.queue == [] && !s.inProgress
    ensures var v, r := Verdict(s, c), Req(|s.results|, c.kind);
            Submit(s, c) ==
            if v != NvmOk then Reject(s, v)
            else if s.inProgress then Accept(s, c.kind).(queue := s.queue + [r])
            else Accept(s, c.kind).(initialized := true, inProgress := true,
                                    phase := Waiting(if s.initialized then Plan(c.kind)[0] else Init, r, []))
  {
  }

  /** What an entry point returns and records: NS_NVM_ERROR for a missing pointer or a refusal of the platform to
      start, NS_NVM_MEMORY if a request cannot be allocated, and NS_NVM_OK exactly for what is accepted. */
  lemma CallReturns(s: State, c: Call)
    ensures var t := Submit(s, c);
            && |t.results| == |s.results| + 1 && t.results[..|s.results|] == s.results
            && var ret := t.results[|s.results|];
               && (ret == NvmError <==>
                   !c.argsGiven || (c.memory && (if s.initialized then !s.inProgress else c.initMemory) && c.started != Ok))
               && (ret == NvmMemory <==> c.argsGiven && (!c.memory || (!s.initialized && !c.initMemory)))
               && (ret == NvmOk <==>
                   c.argsGiven && c.memory &&
                   if s.initialized then s.inProgress || c.started == Ok else c.initMemory && c.started == Ok)
               && (ret == NvmOk ==> t.accepted == s.accepted + [Req(|s.results|, c.kind)])
               && (ret != NvmOk ==> t == s.(results := t.results))
  {
  }

  /** What an API call does before its outcome is recorded. */
  function Entered(s: State, c: Call): State {
    var r := Req(|s.results|, c.kind);
    if Verdict(s, c) != NvmOk then s
    else if s.inProgress then s.(queue := s.queue + [r])
    else s.(initialized := true, inProgress := true,
            phase := Waiting(if s.initialized then Plan(c.kind)[0] else Init, r, []))
  }

  lemma SubmitEntersAndRecords(s: State, c: Call)
    requires !s.initialized ==> s.queue == [] && !s.inProgress
    ensures var v, t := Verdict(s, c), Entered(s, c);
            Submit(s, c) == if v == NvmOk then Accept(t, c.kind) else Reject(t, v)
  {
  }

  /** The calls a client makes from inside its callback. */
  function SubmitAll(s: State, cs: seq<Call>): State
    decreases |cs|
  {
    if cs == [] then s else SubmitAll(Submit(s, cs[0]), cs[1..])
  }

  /** The client of r is told `status` and makes the calls cs. */
  function AfterCallback(s: State, r: Req, status: ClientStatus, answers: seq<Answer>, cs: seq<Call>): State {
    SubmitAll(s.(called := s.called + [Callback(r, status, answers)]), cs)
  }

  /** A call that starts a platform operation if none is in progress. */
  predicate Starts(c: Call) { c.argsGiven && c.memory && c.started == Ok }

  /** Refusals of pending requests that ns_nvm_operation_end survives: of the last one that is pending, and
      only if its client's calls start nothing. NvmDrain shows that no others are. */
  predicate Harmless(queue: seq<Req>, refusals: seq<seq<Call>>) {
    queue == [] || refusals == [] || (|queue| == 1 && forall i :: 0 <= i < |refusals[0]| ==> !Starts(refusals[0][i]))
  }

  /** ns_nvm_operation_end: the client is told, may make calls, and the next request is started. The
      platform refuses as many pending requests in a row as `refusals` has elements; each of them ends in
      the same way, and its client makes the calls in that element. */
  function End(s: State, r: Req, status: ClientStatus, answers: seq<Answer>, cs: seq<Call>,
               refusals: seq<seq<Call>>): State
    decreases |refusals|, 1
  {
    NextTurn(AfterCallback(s, r, status, answers, cs), refusals)
  }

  /** Its loop over the pending requests. */
  function NextTurn(t: State, refusals: seq<seq<Call>>): State
    decreases |refusals|, 0
  {
    if t.queue == [] then t.(inProgress := false, phase := Idle)
    else
      var p, u := t.queue[0], t.(queue := t.queue[1..]);
      if refusals == [] then u.(inProgress := true, phase := Waiting(Plan(p.kind)[0], p, []))
      else End(u.(inProgress := false, phase := Idle), p, NvmError, [], refusals[0], refusals[1..])
  }

  /** Whether a completion with this status is the last of its request. */
  predicate Ends(op: Operation, status: PlatformStatus) {
    op != Init && (op == Flush || op == KeyRead || status != Ok)
  }

  /** ns_nvm_callback_func: the outstanding operation completes with `status`; `next` is what the
      platform returns if it is asked to go on, `cs` what the client does if it is told, and `refusals`
      what happens to the requests whose turn comes then. */
  function Complete(s: State, status: PlatformStatus, next: PlatformStatus, cs: seq<Call>,
                    refusals: seq<seq<Call>>): State
    requires s.phase.Waiting?
  {
    var Waiting(op, r, answers) := s.phase;
    var answers' := answers + [Answer(op, status)];
    match op
    case Init =>
      if next == Ok then s.(inProgress := true, phase := Waiting(Plan(r.kind)[0], r, []))
      else s.(inProgress := false, phase := Idle, dropped := s.dropped + [r], stranded := s.queue)
    case KeyCreate =>
      if status == Ok then s.(phase := if next == Ok then Waiting(KeyWrite, r, answers') else Stuck(r))
      else End(s, r, ClientView(status), answers', cs, refusals)
    case KeyWrite =>
      if status == Ok then s.(phase := if next == Ok then Waiting(Flush, r, answers') else Stuck(r))
      else End(s, r, ClientView(status), answers', cs, refusals)
    case KeyDelete =>
      if status == Ok then s.(phase := if next == Ok then Waiting(Flush, r, answers') else Stuck(r))
      else End(s, r, ClientView(status), answers', cs, refusals)
    case KeyRead => End(s, r, ClientView(status), answers', cs, refusals)
    case Flush => End(s, r, ClientView(status), answers', cs, refusals)
  }

  datatype Event = DoCall(c: Call) |
                   DoComplete(status: PlatformStatus, next: PlatformStatus, cs: seq<Call>, refusals: seq<seq<Call>>)

  /** The refusals that come with a completion are harmless. */
  predicate MayComplete(s: State, status: PlatformStatus, cs: seq<Call>, refusals: seq<seq<Call>>) {
    s.phase.Waiting? &&
    (Ends(s.phase.op, status) ==>
       var p := s.phase;
       Harmless(AfterCallback(s, p.req, ClientView(status), p.answers + [Answer(p.op, status)], cs).queue, refusals))
  }

  /** The platform completes only what it has been asked for, and refuses pending requests harmlessly. */
  predicate Enabled(s: State, e: Event) {
    e.DoComplete? ==> MayComplete(s, e.status, e.cs, e.refusals)
  }

  function Step(s: State, e: Event): State
    requires Enabled(s, e)
  {
    match e
    case DoCall(c) => Submit(s, c)
    case DoComplete(status, next, cs, refusals) => Complete(s, status, next, cs, refusals)
  }

  ghost predicate Legal(s: State, es: seq<Event>)
    decreases |es|
  {
    es == [] || (Enabled(s, es[0]) && Legal(Step(s, es[0]), es[1..]))
  }

  function Run(s: State, es: seq<Event>): State
    requires Legal(s, es)
    decreases |es|
  {
    if es == [] then s else Run(Step(s, es[0]), es[1..])
  }

  // ----- Invariant

  function Told(called: seq<Callback>): seq<Req> {
    seq(|called|, i requires 0 <= i < |called| => called[i].req)
  }

  function InHand(p: Phase): seq<Req> {
    if p.Idle? then [] else [p.req]
  }

  /** Every request that is or was somewhere, in the order it gets its turn. */
  function Served(s: State): seq<Req> {
    Told(s.called) + InHand(s.phase) + s.queue
  }

  ghost predicate Ascending(rs: seq<Req>) {
    forall i, j :: 0 <= i < j < |rs| ==> rs[i].id < rs[j].id
  }

  ghost predicate NoRepeats(rs: seq<Req>) {
    forall i, j :: 0 <= i < j < |rs| ==> rs[i].id != rs[j].id
  }

  ghost predicate Listed(rs: seq<Req>, n: nat) {
    exists i :: 0 <= i < |rs| && rs[i].id == n
  }

  /** The accepted calls are exactly those that returned OK. */
  ghost predicate AcceptedAreOk(s: State) {
    && Ascending(s.accepted)
    && (forall i :: 0 <= i < |s.accepted| ==> s.accepted[i].id < |s.results| && s.results[s.accepted[i].id] == NvmOk)
    && (forall n: nat {:trigger Listed(s.accepted, n)} ::
          n < |s.results| && s.results[n] == NvmOk ==> Listed(s.accepted, n))
  }

  /** The answers so far follow the request's plan, all good. */
  predicate OnPlan(kind: Kind, answers: seq<Answer>) {
    && |answers| <= |Plan(kind)|
    && forall i :: 0 <= i < |answers| ==> answers[i] == Answer(Plan(kind)[i], Ok)
  }

  /** A finished request went along its plan up to the first bad status, and its client was told that; or
      it could not be started, and its client was told so. */
  predicate Finished(c: Callback) {
    var n := |c.answers|;
    if n == 0 then c.status == NvmError
    else
      && n <= |Plan(c.req.kind)|
      && OnPlan(c.req.kind, c.answers[..n - 1])
      && c.answers[n - 1].op == Plan(c.req.kind)[n - 1]
      && c.status == ClientView(c.answers[n - 1].status)
      && (n < |Plan(c.req.kind)| ==> c.answers[n - 1].status != Ok)
  }

  ghost predicate PhaseOk(p: Phase) {
    p.Waiting? ==>
      if p.op == Init then p.answers == []
      else OnPlan(p.req.kind, p.answers) && |p.answers| < |Plan(p.req.kind)| && p.op == Plan(p.req.kind)[|p.answers|]
  }

  /** The platform operation that is stage i of a request of this kind. */
  predicate StageIs(kind: Kind, i: nat, op: Operation) {
    match kind
    case Read => i == 0 && op == KeyRead
    case Write => (i == 0 && op == KeyCreate) || (i == 1 && op == KeyWrite) || (i == 2 && op == Flush)
    case Delete => (i == 0 && op == KeyDelete) || (i == 1 && op == Flush)
  }

  /** A client is told OK, not found or error exactly if that is what the platform last reported for its
      request; it is told error too if the platform did not take the request at all. */
  predicate ToldWhy(c: Callback) {
    var n := |c.answers|;
    && (c.status == NvmOk <==> n > 0 && c.answers[n - 1].status == Ok)
    && (c.status == DataNotFound <==> n > 0 && c.answers[n - 1].status == KeyNotFound)
    && (c.status == NvmError <==> n == 0 || c.answers[n - 1].status == Error)
  }

  /** Its stages were done in order, and all of them unless one failed. */
  predicate InStages(c: Callback) {
    var n := |c.answers|;
    && (forall i :: 0 <= i < n ==> StageIs(c.req.kind, i, c.answers[i].op) && (i < n - 1 ==> c.answers[i].status == Ok))
    && (c.status == NvmOk ==> n == match c.req.kind case Read => 1 case Write => 3 case Delete => 2)
  }

  ghost predicate AllInStages(p: Phase) {
    p.Waiting? && p.op != Init ==>
      StageIs(p.req.kind, |p.answers|, p.op) &&
      forall i :: 0 <= i < |p.answers| ==> StageIs(p.req.kind, i, p.answers[i].op) && p.answers[i].status == Ok
  }

  lemma FinishedSays(c: Callback)
    requires Finished(c)
    ensures ToldWhy(c) && InStages(c)
  {
    var n := |c.answers|;
    forall i | 0 <= i < n
      ensures StageIs(c.req.kind, i, c.answers[i].op) && (i < n - 1 ==> c.answers[i].status == Ok)
    {
      assert i < n - 1 ==> c.answers[..n - 1][i] == c.answers[i];
    }
  }

  lemma PhaseSays(p: Phase)
    requires PhaseOk(p)
    ensures AllInStages(p)
  {
  }

  /** How many calls had been accepted when a request was dropped, itself included. */
  function BeforeDrop(s: State): nat { |s.dropped| + |s.stranded| }

  /** The order of turns: as accepted, but after a drop the next call that is accepted gets its turn before
      those that were waiting. */
  function Turns(stranded: seq<Req>, since: seq<Req>): seq<Req> {
    if since == [] then stranded else [since[0]] + stranded + since[1..]
  }

  /** Each accepted request but a dropped one is in exactly one place, and they get their turns in order. */
  ghost predicate ServedOk(s: State) {
    && |s.dropped| <= 1
    && (s.dropped == [] ==> s.stranded == [])
    && BeforeDrop(s) <= |s.accepted|
    && s.accepted[..BeforeDrop(s)] == s.dropped + s.stranded
    && Served(s) == Turns(s.stranded, s.accepted[BeforeDrop(s)..])
  }

  ghost predicate CalledOk(s: State) {
    forall i :: 0 <= i < |s.called| ==> Finished(s.called[i])
  }

  ghost predicate Flags(s: State) {
    && (s.inProgress <==> !s.phase.Idle?)
    && (!s.initialized ==> s.phase.Idle? && s.queue == [] && s.called == [] && s.dropped == [] && s.accepted == [])
    && (s.phase.Waiting? && s.phase.op == Init ==> s.dropped == [] && s.called == [])
    && (s.dropped != [] && |s.accepted| == BeforeDrop(s) ==> s.phase.Idle? && s.called == [])
    && (s.queue != [] && !s.inProgress ==> s.dropped != [] && |s.accepted| == BeforeDrop(s))
  }

  ghost predicate Inv(s: State) {
    && Flags(s)
    && PhaseOk(s.phase)
    && AcceptedAreOk(s)
    && ServedOk(s)
    && CalledOk(s)
  }

  lemma RejectKeeps(s: State, why: ClientStatus)
    requires AcceptedAreOk(s) && why != NvmOk
    ensures AcceptedAreOk(Reject(s, why))
  {
    var t := Reject(s, why);
    forall n: nat | n < |t.results| && t.results[n] == NvmOk
      ensures Listed(t.accepted, n)
    {
      assert s.results[n] == NvmOk && Listed(s.accepted, n);
    }
  }

  lemma AcceptKeeps(s: State, kind: Kind)
    requires AcceptedAreOk(s)
    ensures AcceptedAreOk(Accept(s, kind))
  {
    var t := Accept(s, kind);
    forall n: nat | n < |t.results| && t.results[n] == NvmOk
      ensures Listed(t.accepted, n)
    {
      if n == |s.results| {
        assert t.accepted[|s.accepted|].id == n;
      } else {
        assert s.results[n] == NvmOk && Listed(s.accepted, n);
        var i :| 0 <= i < |s.accepted| && s.accepted[i].id == n;
        assert t.accepted[i].id == n;
      }
    }
  }

  /** What the calls made while a request is in progress do: the accepted ones queue up, in order. */
  ghost predicate Grown(s: State, t: State, news: seq<Req>) {
    && t.accepted == s.accepted + news
    && t.queue == s.queue + news
    && t == s.(results := t.results, accepted := t.accepted, queue := t.queue)
    && |t.results| >= |s.results|
    && AcceptedAreOk(t)
    && (forall i :: 0 <= i < |news| ==> news[i].id >= |s.results|)
  }

  lemma SubmitGrows(s: State, c: Call) returns (news: seq<Req>)
    requires AcceptedAreOk(s) && s.initialized && s.inProgress
    ensures Grown(s, Submit(s, c), news)
  {
    if !c.argsGiven {
      RejectKeeps(s, NvmError);
      news := [];
    } else if !c.memory {
      RejectKeeps(s, NvmMemory);
      news := [];
    } else {
      AcceptKeeps(s, c.kind);
      news := [Req(|s.results|, c.kind)];
    }
  }

  lemma {:induction false} SubmitAllGrows(s: State, cs: seq<Call>) returns (news: seq<Req>)
    requires AcceptedAreOk(s) && s.initialized && s.inProgress
    ensures Grown(s, SubmitAll(s, cs), news)
    decreases |cs|
  {
    if cs == [] {
      news := [];
    } else {
      var first := SubmitGrows(s, cs[0]);
      var rest := SubmitAllGrows(Submit(s, cs[0]), cs[1..]);
      news := first + rest;
    }
  }

  /** Later calls get their turns later. */
  lemma ServedGrows(s: State, t: State, news: seq<Req>)
    requires ServedOk(s) && (s.dropped == [] || |s.accepted| > BeforeDrop(s))
    requires t.accepted == s.accepted + news && Served(t) == Served(s) + news
    requires t.dropped == s.dropped && t.stranded == s.stranded
    ensures ServedOk(t)
  {
    var k := BeforeDrop(s);
    assert t.accepted[..k] == s.accepted[..k];
    assert t.accepted[k..] == s.accepted[k..] + news;
    TurnsGrow(s.stranded, s.accepted[k..], news);
  }

  lemma TurnsGrow(stranded: seq<Req>, since: seq<Req>, news: seq<Req>)
    requires since == [] ==> stranded == []
    ensures Turns(stranded, since + news) == Turns(stranded, since) + news
  {
    if since == [] {
      assert since + news == news;
      if news != [] {
        assert [news[0]] + [] + news[1..] == news;
      }
    } else {
      assert (since + news)[1..] == since[1..] + news;
    }
  }

  /** Once a request is finished its callback is one more on the list, and the next in line, if any, is
      in hand, or finished too: nobody's turn has changed. */
  lemma EndServed(s: State, cb: Callback, t: State, news: seq<Req>)
    requires s.phase.Waiting? && cb.req == s.phase.req
    requires var q := s.queue + news;
             if q == [] then t.called == s.called + [cb] && t.phase == Idle && t.queue == []
             else if t.phase.Idle? then q == [q[0]] && t.queue == [] && |t.called| == |s.called| + 2 &&
                                        t.called == s.called + [cb] + [t.called[|s.called| + 1]] &&
                                        t.called[|s.called| + 1].req == q[0]
             else t.called == s.called + [cb] && t.phase.Waiting? && t.phase.req == q[0] && t.queue == q[1..]
    ensures Served(t) == Served(s) + news
  {
    var q := s.queue + news;
    assert Served(s) + news == Told(s.called) + [cb.req] + q;
    assert Told(s.called + [cb]) == Told(s.called) + [cb.req];
    if q != [] && t.phase.Idle? {
      assert Told(t.called) == Told(s.called) + [cb.req] + [q[0]];
    } else if q != [] {
      assert q == [q[0]] + q[1..];
    }
  }

  lemma LastStage(kind: Kind, i: nat)
    requires i < |Plan(kind)|
    ensures Plan(kind)[i] != Init
    ensures Plan(kind)[i] == Flush || Plan(kind)[i] == KeyRead <==> i + 1 == |Plan(kind)|
  {
  }

  lemma FinishedNow(p: Phase, status: PlatformStatus)
    requires PhaseOk(p) && p.Waiting?
    requires Ends(p.op, status)
    ensures Finished(Callback(p.req, ClientView(status), p.answers + [Answer(p.op, status)]))
  {
    var answers := p.answers + [Answer(p.op, status)];
    assert answers[..|answers| - 1] == p.answers;
    LastStage(p.req.kind, |p.answers|);
  }

  lemma FirstPhaseOk(r: Req)
    ensures PhaseOk(Waiting(Plan(r.kind)[0], r, []))
    ensures Plan(r.kind)[0] != Init
  {
  }

  /** Calls made while nothing is in progress, none of which starts anything, only return errors. */
  lemma {:induction false} NothingStarted(s: State, cs: seq<Call>)
    requires AcceptedAreOk(s) && s.initialized && !s.inProgress
    requires forall i :: 0 <= i < |cs| ==> !Starts(cs[i])
    ensures var t := SubmitAll(s, cs); AcceptedAreOk(t) && t == s.(results := t.results)
    decreases |cs|
  {
    if cs != [] {
      var t := Submit(s, cs[0]);
      assert t == Reject(s, t.results[|s.results|]);
      RejectKeeps(s, t.results[|s.results|]);
      NothingStarted(t, cs[1..]);
    }
  }

  /** What the client does when it is told: it queues up requests, or, with nothing in progress, nothing. */
  lemma AfterCallbackOk(s: State, r: Req, status: ClientStatus, answers: seq<Answer>, cs: seq<Call>) returns (t: State)
    requires AcceptedAreOk(s) && s.initialized
    requires s.inProgress || forall i :: 0 <= i < |cs| ==> !Starts(cs[i])
    ensures t == AfterCallback(s, r, status, answers, cs) && AcceptedAreOk(t)
    ensures t.initialized && t.inProgress == s.inProgress && t.phase == s.phase
    ensures !s.inProgress ==> t.queue == s.queue
  {
    var s1 := s.(called := s.called + [Callback(r, status, answers)]);
    t := SubmitAll(s1, cs);
    if s.inProgress {
      var _ := SubmitAllGrows(s1, cs);
    } else {
      NothingStarted(s1, cs);
    }
  }

  /** A harmless refusal ends the last pending request, and nothing is left to do. */
  lemma RefusedEnd(u: State, p: Req, refusals: seq<seq<Call>>)
    requires AcceptedAreOk(u) && u.initialized && !u.inProgress && u.phase.Idle? && u.queue == []
    requires refusals != [] && forall i :: 0 <= i < |refusals[0]| ==> !Starts(refusals[0][i])
    ensures var t := End(u, p, NvmError, [], refusals[0], refusals[1..]);
            AcceptedAreOk(t) && t == u.(called := u.called + [Callback(p, NvmError, [])], results := t.results)
  {
    NothingStarted(u.(called := u.called + [Callback(p, NvmError, [])]), refusals[0]);
  }

  /** Who is next: nobody, the first pending request, or nobody because it was the last and is refused. */
  lemma NextShape(t: State, refusals: seq<seq<Call>>) returns (u: State)
    requires AcceptedAreOk(t) && t.initialized && Harmless(t.queue, refusals)
    ensures u == NextTurn(t, refusals) && AcceptedAreOk(u)
    ensures if t.queue == [] then u == t.(inProgress := false, phase := Idle)
            else if refusals == [] then
              u == t.(queue := t.queue[1..], inProgress := true,
                      phase := Waiting(Plan(t.queue[0].kind)[0], t.queue[0], []))
            else
              && t.queue == [t.queue[0]]
              && u == t.(queue := [], inProgress := false, phase := Idle, results := u.results,
                         called := t.called + [Callback(t.queue[0], NvmError, [])])
  {
    u := NextTurn(t, refusals);
    if t.queue != [] && refusals != [] {
      assert t.queue[1..] == [];
      RefusedEnd(t.(queue := t.queue[1..], inProgress := false, phase := Idle), t.queue[0], refusals);
    }
  }

  /** What the end of a request leaves: its callback, the new calls behind those that waited, and the next
      one in hand, or refused and told as well. */
  lemma EndShape(s: State, status: ClientStatus, answers: seq<Answer>, cs: seq<Call>, refusals: seq<seq<Call>>)
    returns (news: seq<Req>, t: State)
    requires AcceptedAreOk(s) && s.initialized && s.inProgress && s.phase.Waiting?
    requires Harmless(AfterCallback(s, s.phase.req, status, answers, cs).queue, refusals)
    ensures t == End(s, s.phase.req, status, answers, cs, refusals) && AcceptedAreOk(t)
    ensures t == s.(results := t.results, accepted := s.accepted + news, called := t.called, queue := t.queue,
                    phase := t.phase, inProgress := t.inProgress)
    ensures t.inProgress <==> !t.phase.Idle?
    ensures var cb, q := Callback(s.phase.req, status, answers), s.queue + news;
            if q == [] then t.phase == Idle && t.queue == [] && t.called == s.called + [cb]
            else if refusals == [] then
              && t.phase == Waiting(Plan(q[0].kind)[0], q[0], []) && t.queue == q[1..] && t.called == s.called + [cb]
            else
              && q == [q[0]] && t.phase == Idle && t.queue == []
              && t.called == s.called + [cb] + [Callback(q[0], NvmError, [])]
    ensures cs == [] ==> news == []
  {
    var s1 := s.(called := s.called + [Callback(s.phase.req, status, answers)]);
    if cs == [] {
      news := [];
      assert s.accepted + news == s.accepted && s.queue + news == s.queue;
    } else {
      news := SubmitAllGrows(s1, cs);
    }
    t := NextShape(SubmitAll(s1, cs), refusals);
  }

  lemma EndKeepsInv(s: State, status: ClientStatus, answers: seq<Answer>, cs: seq<Call>, refusals: seq<seq<Call>>)
    returns (t: State)
    requires Inv(s) && s.phase.Waiting? && s.phase.op != Init
    requires Finished(Callback(s.phase.req, status, answers))
    requires Harmless(AfterCallback(s, s.phase.req, status, answers, cs).queue, refusals)
    ensures t == End(s, s.phase.req, status, answers, cs, refusals) && Inv(t)
  {
    var news;
    news, t := EndShape(s, status, answers, cs, refusals);
    EndServed(s, Callback(s.phase.req, status, answers), t, news);
    ServedGrows(s, t, news);
    if t.phase.Waiting? {
      FirstPhaseOk(t.phase.req);
    }
  }

  lemma QueueKeepsInv(s: State, r: Req) returns (t: State)
    requires Inv(s) && s.inProgress && r.id == |s.results|
    ensures t == Accept(s, r.kind).(queue := s.queue + [r]) && Inv(t)
  {
    t := Accept(s, r.kind).(queue := s.queue + [r]);
    AcceptKeeps(s, r.kind);
    assert Served(t) == Served(s) + [r];
    ServedGrows(s, t, [r]);
  }

  /** A call that finds nothing in progress gets its turn at once, before any stranded ones. */
  lemma StartServed(s: State, t: State, r: Req)
    requires ServedOk(s) && Flags(s) && s.phase.Idle?
    requires t.accepted == s.accepted + [r] && t.called == s.called && t.queue == s.queue
    requires t.dropped == s.dropped && t.stranded == s.stranded
    requires t.phase.Waiting? && t.phase.req == r
    ensures ServedOk(t)
  {
    var k := BeforeDrop(s);
    assert t.accepted[..k] == s.accepted[..k];
    if s.dropped != [] && |s.accepted| == k {
      assert s.accepted[k..] == [] && Served(s) == s.queue == s.stranded;
      assert t.accepted[k..] == [r];
      assert Served(t) == [r] + s.queue;
    } else {
      assert s.queue == [];
      assert Served(t) == Served(s) + [r];
      ServedGrows(s, t, [r]);
    }
  }

  lemma StartKeepsInv(s: State, r: Req, op: Operation) returns (t: State)
    requires Inv(s) && !s.inProgress && r.id == |s.results|
    requires op == if s.initialized then Plan(r.kind)[0] else Init
    ensures t == Accept(s, r.kind).(initialized := true, inProgress := true, phase := Waiting(op, r, [])) && Inv(t)
  {
    t := Accept(s, r.kind).(initialized := true, inProgress := true, phase := Waiting(op, r, []));
    AcceptKeeps(s, r.kind);
    StartServed(s, t, r);
    FirstPhaseOk(r);
  }

  lemma RejectKeepsInv(s: State, why: ClientStatus) returns (t: State)
    requires Inv(s) && why != NvmOk
    ensures t == Reject(s, why) && Inv(t)
  {
    t := Reject(s, why);
    RejectKeeps(s, why);
    assert Served(t) == Served(s);
  }

  lemma SubmitKeepsInv(s: State, c: Call) returns (t: State)
    requires Inv(s)
    ensures t == Submit(s, c) && Inv(t)
  {
    var r, v := Req(|s.results|, c.kind), Verdict(s, c);
    SubmitByVerdict(s, c);
    if v != NvmOk {
      t := RejectKeepsInv(s, v);
    } else if s.inProgress {
      t := QueueKeepsInv(s, r);
    } else {
      t := StartKeepsInv(s, r, if s.initialized then Plan(c.kind)[0] else Init);
    }
  }

  lemma DropKeepsInv(s: State, t: State)
    requires Inv(s) && s.phase.Waiting? && s.phase.op == Init
    requires t == s.(inProgress := false, phase := Idle, dropped := [s.phase.req], stranded := s.queue)
    ensures Inv(t)
  {
    assert s.accepted[..0] == [] && s.accepted[0..] == s.accepted;
    assert s.accepted != [] ==> [s.accepted[0]] + [] + s.accepted[1..] == s.accepted;
    assert Served(s) == [s.phase.req] + s.queue;
    assert t.accepted[..BeforeDrop(t)] == t.accepted && t.accepted[BeforeDrop(t)..] == [];
    assert Served(t) == s.queue;
  }

  /** The next stage of the same request: nobody's turn changes. */
  lemma AdvanceKeepsInv(s: State, p: Phase)
    requires Inv(s) && s.phase.Waiting? && !p.Idle? && p.req == s.phase.req && PhaseOk(p)
    requires p.Waiting? ==> p.op != Init
    ensures Inv(s.(inProgress := true, phase := p))
  {
    assert Served(s.(inProgress := true, phase := p)) == Served(s);
  }

  /** Completion ends the request, drops it, or goes on to the next stage. */
  lemma CompleteCases(s: State, status: PlatformStatus, next: PlatformStatus, cs: seq<Call>, refusals: seq<seq<Call>>)
    requires PhaseOk(s.phase) && s.phase.Waiting? && (s.phase.op == Init ==> s.dropped == [])
    ensures var p, t := s.phase, Complete(s, status, next, cs, refusals);
            if Ends(p.op, status) then
              t == End(s, p.req, ClientView(status), p.answers + [Answer(p.op, status)], cs, refusals)
            else if p.op == Init && next != Ok then
              t == s.(inProgress := false, phase := Idle, dropped := [p.req], stranded := s.queue)
            else
              && t == s.(inProgress := if p.op == Init then true else s.inProgress, phase := t.phase)
              && !t.phase.Idle? && t.phase.req == p.req && PhaseOk(t.phase)
              && (t.phase.Waiting? ==> t.phase.op != Init)
  {
    FirstPhaseOk(s.phase.req);
  }

  lemma CompleteKeepsInv(s: State, status: PlatformStatus, next: PlatformStatus, cs: seq<Call>,
                         refusals: seq<seq<Call>>) returns (t: State)
    requires Inv(s) && MayComplete(s, status, cs, refusals)
    ensures t == Complete(s, status, next, cs, refusals) && Inv(t)
  {
    var p := s.phase;
    t := Complete(s, status, next, cs, refusals);
    CompleteCases(s, status, next, cs, refusals);
    if Ends(p.op, status) {
      FinishedNow(p, status);
      t := EndKeepsInv(s, ClientView(status), p.answers + [Answer(p.op, status)], cs, refusals);
    } else if p.op == Init && next != Ok {
      DropKeepsInv(s, t);
    } else {
      AdvanceKeepsInv(s, t.phase);
      assert t == s.(inProgress := true, phase := t.phase);
    }
  }

  lemma StepKeepsInv(s: State, e: Event) returns (t: State)
    requires Inv(s) && Enabled(s, e)
    ensures t == Step(s, e) && Inv(t)
  {
    match e
    case DoCall(c) =>
      t := SubmitKeepsInv(s, c);
    case DoComplete(status, next, cs, refusals) =>
      t := CompleteKeepsInv(s, status, next, cs, refusals);
  }

  lemma {:induction false} RunKeepsInv(s: State, es: seq<Event>)
    requires Inv(s) && Legal(s, es)
    ensures Inv(Run(s, es))
    decreases |es|
  {
    if es != [] {
      var t := StepKeepsInv(s, es[0]);
      RunKeepsInv(t, es[1..]);
    }
  }

  // ----- Main results over whole runs

  /** How many callbacks API call number n has had. */
  function CallbacksFor(called: seq<Callback>, n: nat): nat {
    if called == [] then 0 else (if called[0].req.id == n then 1 else 0) + CallbacksFor(called[1..], n)
  }

  lemma {:induction false} CallbacksCount(called: seq<Callback>, n: nat)
    requires NoRepeats(Told(called))
    ensures CallbacksFor(called, n) == if exists i :: 0 <= i < |called| && called[i].req.id == n then 1 else 0
  {
    if called != [] {
      var rest := called[1..];
      forall i, j | 0 <= i < j < |rest|
        ensures Told(rest)[i].id != Told(rest)[j].id
      {
        assert Told(called)[i + 1].id != Told(called)[j + 1].id;
      }
      CallbacksCount(rest, n);
      if called[0].req.id == n {
        forall i | 0 <= i < |rest|
          ensures rest[i].req.id != n
        {
          assert Told(called)[0].id != Told(called)[i + 1].id;
        }
      } else {
        assert forall i :: 1 <= i < |called| ==> called[i] == rest[i - 1];
      }
    }
  }

  /** The accepted call whose turn is number i: of `dropped` and `stranded` calls the sizes are k and m. */
  function TurnAt(i: nat, k: nat, m: nat, anySince: bool): nat {
    if i == 0 && anySince then k + m else if i <= m && anySince then k + i - 1 else k + i
  }

  lemma ServedAt(s: State, i: nat)
    requires ServedOk(s) && i < |Served(s)|
    ensures var at := TurnAt(i, |s.dropped|, |s.stranded|, |s.accepted| > BeforeDrop(s));
            |s.dropped| <= at < |s.accepted| && Served(s)[i] == s.accepted[at]
  {
    var k := BeforeDrop(s);
    var since := s.accepted[k..];
    assert forall j :: 0 <= j < k ==> s.accepted[j] == s.accepted[..k][j];
    assert forall j :: 0 <= j < |since| ==> since[j] == s.accepted[k + j];
  }

  lemma ToldAt(s: State, i: nat) returns (at: nat)
    requires ServedOk(s) && i < |s.called|
    ensures at == TurnAt(i, |s.dropped|, |s.stranded|, |s.accepted| > BeforeDrop(s))
    ensures |s.dropped| <= at < |s.accepted| && s.called[i].req == s.accepted[at]
  {
    at := TurnAt(i, |s.dropped|, |s.stranded|, |s.accepted| > BeforeDrop(s));
    assert Served(s)[i] == Told(s.called)[i];
    ServedAt(s, i);
  }

  lemma ToldNoRepeats(s: State)
    requires Inv(s)
    ensures NoRepeats(Told(s.called))
    ensures forall i :: 0 <= i < |s.called| ==> s.called[i].req in s.accepted
  {
    forall i, j | 0 <= i < j < |s.called|
      ensures Told(s.called)[i].id != Told(s.called)[j].id
    {
      var a := ToldAt(s, i);
      var b := ToldAt(s, j);
    }
    forall i | 0 <= i < |s.called|
      ensures s.called[i].req in s.accepted
    {
      var _ := ToldAt(s, i);
    }
  }

  /** A dropped call is never told anything. */
  lemma DroppedUntold(s: State)
    requires Inv(s) && s.dropped != []
    ensures s.accepted[0] == s.dropped[0] && s.results[s.dropped[0].id] == NvmOk
    ensures CallbacksFor(s.called, s.dropped[0].id) == 0
  {
    var d := s.dropped[0];
    assert s.accepted[..BeforeDrop(s)][0] == d;
    forall i | 0 <= i < |s.called|
      ensures s.called[i].req.id != d.id
    {
      var _ := ToldAt(s, i);
    }
    ToldNoRepeats(s);
    CallbacksCount(s.called, d.id);
  }

  lemma InitialInv()
    ensures Inv(INITIAL)
  {
    assert Served(INITIAL) == [];
  }

  /** In every history, whatever the platform refuses: no call gets two callbacks, a call that returned
      an error gets none, and each callback came after the platform work it reports on. */
  lemma AtMostOnce(es: seq<Event>, n: nat)
    requires Legal(INITIAL, es)
    ensures var s := Run(INITIAL, es);
            && CallbacksFor(s.called, n) <= 1
            && (n >= |s.results| || s.results[n] != NvmOk ==> CallbacksFor(s.called, n) == 0)
            && CalledOk(s)
  {
    InitialInv();
    RunKeepsInv(INITIAL, es);
    var s := Run(INITIAL, es);
    ToldNoRepeats(s);
    CallbacksCount(s.called, n);
    forall i | 0 <= i < |s.called| && s.called[i].req.id == n
      ensures n < |s.results| && s.results[n] == NvmOk
    {
      assert s.called[i].req in s.accepted;
    }
  }

  /** In every history each client is told what the platform reported for its request, and the platform is asked
      for the stages of each request in their order. */
  lemma ToldTheOutcome(es: seq<Event>)
    requires Legal(INITIAL, es)
    ensures var s := Run(INITIAL, es);
            && (forall i :: 0 <= i < |s.called| ==> ToldWhy(s.called[i]) && InStages(s.called[i]))
            && AllInStages(s.phase)
  {
    InitialInv();
    RunKeepsInv(INITIAL, es);
    var s := Run(INITIAL, es);
    PhaseSays(s.phase);
    forall i | 0 <= i < |s.called|
      ensures ToldWhy(s.called[i]) && InStages(s.called[i])
    {
      FinishedSays(s.called[i]);
    }
  }

  /** What the refusals of the platform leave out, event by event: a completion drops a request exactly if
      it is that of the initialization and the platform then refuses the request that asked for it; those
      that wait at that moment lose their place. */
  predicate RefusesInit(s: State, e: Event)
    requires Enabled(s, e)
  {
    e.DoComplete? && s.phase.op == Init && e.next != Ok
  }

  lemma DropsOnlyAfterInit(s: State, e: Event)
    requires Inv(s) && Enabled(s, e)
    ensures var t := Step(s, e);
            if RefusesInit(s, e) then s.dropped == [] && t.dropped == [s.phase.req] && t.stranded == s.queue
            else t.dropped == s.dropped && t.stranded == s.stranded
  {
    match e
    case DoCall(c) =>
      SubmitByVerdict(s, c);
    case DoComplete(status, next, cs, refusals) =>
      CompleteCases(s, status, next, cs, refusals);
      var p := s.phase;
      if Ends(p.op, status) {
        var _, _ := EndShape(s, ClientView(status), p.answers + [Answer(p.op, status)], cs, refusals);
      }
  }

  /** Somewhere in the history the platform refuses the request after its initialization; with `waiting`,
      while others are waiting. */
  ghost predicate InitRefused(s: State, es: seq<Event>, waiting: bool)
    requires Legal(s, es)
    decreases |es|
  {
    es != [] &&
    ((RefusesInit(s, es[0]) && (waiting ==> s.queue != [])) || InitRefused(Step(s, es[0]), es[1..], waiting))
  }

  lemma {:induction false} DroppedIffRefused(s: State, es: seq<Event>)
    requires Inv(s) && Legal(s, es)
    ensures Run(s, es).dropped != [] <==> s.dropped != [] || InitRefused(s, es, false)
    ensures Run(s, es).stranded != [] <==> s.stranded != [] || InitRefused(s, es, true)
    decreases |es|
  {
    if es != [] {
      var t := StepKeepsInv(s, es[0]);
      DropsOnlyAfterInit(s, es[0]);
      DroppedIffRefused(t, es[1..]);
    }
  }

  /** The promise to the clients: one callback for each call that returned OK, none for any other. */
  ghost predicate PromiseKept(s: State) {
    forall n :: 0 <= n < |s.results| ==> CallbacksFor(s.called, n) == if s.results[n] == NvmOk then 1 else 0
  }

  lemma KeptUnlessDropped(s: State)
    requires Inv(s) && s.phase.Idle? && s.dropped == []
    ensures PromiseKept(s)
  {
    ToldNoRepeats(s);
    assert s.queue == [];
    forall n | 0 <= n < |s.results|
      ensures CallbacksFor(s.called, n) == if s.results[n] == NvmOk then 1 else 0
    {
      CallbacksCount(s.called, n);
      if s.results[n] == NvmOk {
        assert Listed(s.accepted, n);
        var i :| 0 <= i < |s.accepted| && s.accepted[i].id == n;
        assert s.accepted[0..] == s.accepted && Served(s) == Told(s.called);
        assert [s.accepted[0]] + [] + s.accepted[1..] == s.accepted;
        assert s.called[i].req == Told(s.called)[i] == s.accepted[i];
      } else {
        forall i | 0 <= i < |s.called|
          ensures s.called[i].req.id != n
        {
          var _ := ToldAt(s, i);
        }
      }
    }
  }

  /** When nothing is in progress, the promise has been kept for every call of the history exactly if the
      platform has never refused the request after its initialization. */
  lemma ExactlyOnceWhenIdle(es: seq<Event>)
    requires Legal(INITIAL, es) && Run(INITIAL, es).phase.Idle?
    ensures PromiseKept(Run(INITIAL, es)) <==> !InitRefused(INITIAL, es, false)
  {
    InitialInv();
    RunKeepsInv(INITIAL, es);
    DroppedIffRefused(INITIAL, es);
    var s := Run(INITIAL, es);
    if s.dropped == [] {
      KeptUnlessDropped(s);
    } else {
      DroppedUntold(s);
    }
  }

  /** In every history the callbacks come in the order of turns. */
  lemma CalledInTurn(es: seq<Event>)
    requires Legal(INITIAL, es)
    ensures var s := Run(INITIAL, es);
            && BeforeDrop(s) <= |s.accepted|
            && var turns := Turns(s.stranded, s.accepted[BeforeDrop(s)..]);
               |s.called| <= |turns| && Told(s.called) == turns[..|s.called|]
  {
    InitialInv();
    RunKeepsInv(INITIAL, es);
    var s := Run(INITIAL, es);
    assert Served(s)[..|s.called|] == Told(s.called);
  }

  /** Two callbacks, the later of which is for the later call exactly unless there are stranded calls and the
      earlier one is the first of all. */
  lemma ToldPair(s: State, i: nat, j: nat)
    requires ServedOk(s) && Ascending(s.accepted) && i < j < |s.called|
    ensures s.stranded == [] ==> s.called[i].req.id < s.called[j].req.id
    ensures s.stranded != [] && |s.accepted| > BeforeDrop(s) && i == 0 && j == 1 ==>
              s.called[j].req.id < s.called[i].req.id
  {
    var a := ToldAt(s, i);
    var b := ToldAt(s, j);
  }

  lemma OrderByStranded(s: State)
    requires Inv(s)
    ensures Ascending(Told(s.called)) <==> s.stranded == [] || |s.called| <= 1
  {
    if s.stranded == [] {
      forall i, j | 0 <= i < j < |s.called|
        ensures Told(s.called)[i].id < Told(s.called)[j].id
      {
        ToldPair(s, i, j);
      }
    } else if |s.called| > 1 {
      ToldPair(s, 0, 1);
      assert Told(s.called)[1].id < Told(s.called)[0].id;
    }
  }

  /** Clients are called back in the order of their calls, in all histories but those in which the platform
      refuses the request after its initialization while others wait, and then until the second callback. */
  lemma CalledInOrder(es: seq<Event>)
    requires Legal(INITIAL, es)
    ensures var s := Run(INITIAL, es);
            Ascending(Told(s.called)) <==> !InitRefused(INITIAL, es, true) || |s.called| <= 1
  {
    InitialInv();
    RunKeepsInv(INITIAL, es);
    DroppedIffRefused(INITIAL, es);
    OrderByStranded(Run(INITIAL, es));
  }

  /** Such a refusal breaks the promise and the order: the first call returned OK and is forgotten, and
      the third is served before the second. */
  lemma RefusedAfterInit()
    ensures var c := Call(Read, true, true, true, Ok);
            var es := [DoCall(c), DoCall(c), DoComplete(Ok, Error, [], []), DoCall(c), DoComplete(Ok, Ok, [], [])];
            && Legal(INITIAL, es)
            && var s := Run(INITIAL, es);
               && s.results == [NvmOk, NvmOk, NvmOk]
               && s.dropped == [Req(0, Read)]
               && Told(s.called) == [Req(2, Read)] && s.phase == Waiting(KeyRead, Req(1, Read), [])
  {
    var c := Call(Read, true, true, true, Ok);
    var e0, e2, e4 := DoCall(c), DoComplete(Ok, Error, [], []), DoComplete(Ok, Ok, [], []);
    var s1 := Step(INITIAL, e0);
    var s2 := Step(s1, e0);
    var s3 := Step(s2, e2);
    var s4 := Step(s3, e0);
    assert s4.phase == Waiting(KeyRead, Req(2, Read), []) && s4.queue == [Req(1, Read)];
    var s5 := Step(s4, e4);
    assert [e4][1..] == [];
    assert Legal(s4, [e4]) && Run(s4, [e4]) == s5;
    assert [e0, e4][1..] == [e4];
    assert Legal(s3, [e0, e4]) && Run(s3, [e0, e4]) == s5;
    assert [e2, e0, e4][1..] == [e0, e4];
    assert Legal(s2, [e2, e0, e4]) && Run(s2, [e2, e0, e4]) == s5;
    assert [e0, e2, e0, e4][1..] == [e2, e0, e4];
    assert Legal(s1, [e0, e2, e0, e4]) && Run(s1, [e0, e2, e0, e4]) == s5;
    assert [e0, e0, e2, e0, e4][1..] == [e0, e2, e0, e4];
  }

  /** The platform refuses to go on from one stage of a request to the next. */
  predicate RefusesStage(s: State, e: Event)
    requires Enabled(s, e)
  {
    e.DoComplete? && s.phase.op != Init && !Ends(s.phase.op, e.status) && e.next != Ok
  }

  /** Somewhere in the history it does. */
  ghost predicate StageRefused(s: State, es: seq<Event>)
    requires Legal(s, es)
    decreases |es|
  {
    es != [] && (RefusesStage(s, es[0]) || StageRefused(Step(s, es[0]), es[1..]))
  }

  lemma StuckStep(s: State, e: Event)
    requires Inv(s) && Enabled(s, e)
    ensures Step(s, e).phase.Stuck? <==> s.phase.Stuck? || RefusesStage(s, e)
    ensures s.phase.Stuck? ==> Step(s, e).phase == s.phase && Step(s, e).called == s.called
  {
    match e
    case DoCall(c) =>
      SubmitByVerdict(s, c);
    case DoComplete(status, next, cs, refusals) =>
      var p := s.phase;
      if Ends(p.op, status) {
        CompleteCases(s, status, next, cs, refusals);
        var _, _ := EndShape(s, ClientView(status), p.answers + [Answer(p.op, status)], cs, refusals);
      }
  }

  /** The machine is stuck exactly if there has been such a refusal. */
  lemma {:induction false} StuckIffRefused(s: State, es: seq<Event>)
    requires Inv(s) && Legal(s, es)
    ensures Run(s, es).phase.Stuck? <==> s.phase.Stuck? || StageRefused(s, es)
    decreases |es|
  {
    if es != [] {
      var t := StepKeepsInv(s, es[0]);
      StuckStep(s, es[0]);
      StuckIffRefused(t, es[1..]);
    }
  }

  /** It stays so for good: no later event changes what is in progress or tells any client anything. */
  lemma {:induction false} StuckForever(s: State, es: seq<Event>)
    requires Inv(s) && s.phase.Stuck? && Legal(s, es)
    ensures Run(s, es).phase == s.phase && Run(s, es).called == s.called
    decreases |es|
  {
    if es != [] {
      var t := StepKeepsInv(s, es[0]);
      StuckStep(s, es[0]);
      StuckForever(t, es[1..]);
    }
  }

  lemma RunCons(s: State, e: Event, es: seq<Event>)
    requires Enabled(s, e) && Legal(Step(s, e), es)
    ensures Legal(s, [e] + es) && Run(s, [e] + es) == Run(Step(s, e), es)
  {
    assert ([e] + es)[1..] == es;
  }

  /** A write whose key has been created and whose data the platform then refuses: it was accepted, and its
      client is never told. */
  lemma WriteGetsStuck()
    ensures var w := Call(Write, true, true, true, Ok);
            var es := [DoCall(w), DoComplete(Ok, Ok, [], []), DoComplete(Ok, Error, [], [])];
            && Legal(INITIAL, es)
            && var s := Run(INITIAL, es);
               && s.phase == Stuck(Req(0, Write)) && s.results == [NvmOk]
               && forall later: seq<Event> :: Legal(s, later) ==> CallbacksFor(Run(s, later).called, 0) == 0
  {
    var w := Call(Write, true, true, true, Ok);
    var e0, e1, e2 := DoCall(w), DoComplete(Ok, Ok, [], []), DoComplete(Ok, Error, [], []);
    var s1 := Step(INITIAL, e0);
    var s2 := Step(s1, e1);
    var s3 := Step(s2, e2);
    assert s2.phase == Waiting(KeyCreate, Req(0, Write), []);
    RunCons(s2, e2, []);
    assert [e2] + [] == [e2];
    RunCons(s1, e1, [e2]);
    RunCons(INITIAL, e0, [e1, e2]);
    assert [e1] + [e2] == [e1, e2] && [e0] + [e1, e2] == [e0, e1, e2];
    InitialInv();
    RunKeepsInv(INITIAL, [e0, e1, e2]);
    forall later: seq<Event> | Legal(s3, later)
      ensures CallbacksFor(Run(s3, later).called, 0) == 0
    {
      StuckForever(s3, later);
    }
  }

  // ----- Progress

  function Work(rs: seq<Req>): nat {
    if rs == [] then 0 else |Plan(rs[0].kind)| + Work(rs[1..])
  }

  lemma {:induction false} WorkConcat(a: seq<Req>, b: seq<Req>)
    ensures Work(a + b) == Work(a) + Work(b)
  {
    if a == [] {
      assert a + b == b;
    } else {
      assert (a + b)[1..] == a[1..] + b;
      WorkConcat(a[1..], b);
    }
  }

  /** The platform operations still to complete for what has been accepted. */
  function Remaining(s: State): int {
    Work(s.queue) + match s.phase
                    case Idle => 0
                    case Stuck(_) => 0
                    case Waiting(op, r, answers) => if op == Init then 1 + |Plan(r.kind)| else |Plan(r.kind)| - |answers|
  }

  /** Ending a request trades its last stage for the work the client has asked for meanwhile. */
  lemma EndProgress(s: State, status: ClientStatus, answers: seq<Answer>, cs: seq<Call>, refusals: seq<seq<Call>>)
    returns (news: seq<Req>, t: State)
    requires AcceptedAreOk(s) && s.initialized && s.inProgress && s.phase.Waiting?
    requires Harmless(AfterCallback(s, s.phase.req, status, answers, cs).queue, refusals)
    ensures t == End(s, s.phase.req, status, answers, cs, refusals)
    ensures t.accepted == s.accepted + news && 0 <= Remaining(t) <= Work(s.queue) + Work(news)
    ensures cs == [] ==> news == []
  {
    news, t := EndShape(s, status, answers, cs, refusals);
    WorkConcat(s.queue, news);
  }

  /** Every completion brings the machine closer to rest: the remaining work falls, but for the work of
      the calls made from inside the client's callback. */
  lemma CompletionProgress(s: State, status: PlatformStatus, next: PlatformStatus, cs: seq<Call>,
                           refusals: seq<seq<Call>>) returns (news: seq<Req>, t: State)
    requires Inv(s) && MayComplete(s, status, cs, refusals)
    ensures t == Complete(s, status, next, cs, refusals) && t.accepted == s.accepted + news
    ensures cs == [] ==> news == []
    ensures 0 <= Remaining(t) < Remaining(s) + Work(news)
  {
    var p := s.phase;
    CompleteCases(s, status, next, cs, refusals);
    if Ends(p.op, status) {
      news, t := EndProgress(s, ClientView(status), p.answers + [Answer(p.op, status)], cs, refusals);
    } else {
      news, t := [], Complete(s, status, next, cs, refusals);
      StageProgress(s, status, next, cs, refusals);
    }
  }

  lemma StageProgress(s: State, status: PlatformStatus, next: PlatformStatus, cs: seq<Call>, refusals: seq<seq<Call>>)
    requires PhaseOk(s.phase) && s.phase.Waiting? && !Ends(s.phase.op, status)
    ensures var t := Complete(s, status, next, cs, refusals);
            t.accepted == s.accepted && t.queue == s.queue && 0 <= Remaining(t) < Remaining(s)
  {
  }

  /** The platform answers again and again, refuses nothing, and the clients ask for nothing more. */
  function Drain(s: State, answers: seq<PlatformStatus>): State
    decreases |answers|
  {
    if answers == [] || !s.phase.Waiting? then s else Drain(Complete(s, answers[0], Ok, [], []), answers[1..])
  }

  lemma DrainStep(s: State, status: PlatformStatus) returns (t: State)
    requires Inv(s) && s.phase.Waiting?
    ensures t == Complete(s, status, Ok, [], []) && Inv(t) && !t.phase.Stuck?
    ensures t.dropped == s.dropped && t.accepted == s.accepted && 0 <= Remaining(t) < Remaining(s)
  {
    var news, u := CompletionProgress(s, status, Ok, [], []);
    assert s.accepted + [] == s.accepted;
    DropsOnlyAfterInit(s, DoComplete(status, Ok, [], []));
    NotStuck(s, status);
    t := CompleteKeepsInv(s, status, Ok, [], []);
  }

  lemma NotStuck(s: State, status: PlatformStatus)
    requires Inv(s) && s.phase.Waiting?
    ensures !Complete(s, status, Ok, [], []).phase.Stuck?
  {
    var p := s.phase;
    if Ends(p.op, status) {
      CompleteCases(s, status, Ok, [], []);
      var _, _ := EndShape(s, ClientView(status), p.answers + [Answer(p.op, status)], [], []);
    }
  }

  /** Then every accepted call has had its callback after at most `Remaining` answers, good or bad. */
  lemma {:induction false} DrainServesAll(s: State, answers: seq<PlatformStatus>)
    requires Inv(s) && !s.phase.Stuck? && s.dropped == [] && |answers| >= Remaining(s)
    ensures Drain(s, answers).phase.Idle? && Told(Drain(s, answers).called) == s.accepted
    decreases |answers|
  {
    if s.phase.Idle? {
      assert s.accepted[0..] == s.accepted && Served(s) == Told(s.called);
      assert s.accepted != [] ==> [s.accepted[0]] + [] + s.accepted[1..] == s.accepted;
    } else {
      RemainingPositive(s);
      var t := DrainStep(s, answers[0]);
      DrainServesAll(t, answers[1..]);
    }
  }

  lemma RemainingPositive(s: State)
    requires Inv(s) && s.phase.Waiting?
    ensures Remaining(s) > 0
  {
  }

  lemma {:induction false} DrainKeeps(s: State, answers: seq<PlatformStatus>)
    requires Inv(s)
    ensures Inv(Drain(s, answers)) && Drain(s, answers).dropped == s.dropped
    ensures s.phase.Stuck? ==> Drain(s, answers) == s
    decreases |answers|
  {
    if answers != [] && s.phase.Waiting? {
      var t := DrainStep(s, answers[0]);
      DrainKeeps(t, answers[1..]);
    }
  }

  /** Whoever is in hand has not been told anything yet. */
  lemma InHandUntold(s: State)
    requires Inv(s) && !s.phase.Idle?
    ensures var r := s.phase.req;
            r.id < |s.results| && s.results[r.id] == NvmOk && CallbacksFor(s.called, r.id) == 0
  {
    var r, n := s.phase.req, |s.called|;
    assert Served(s)[n] == r;
    ServedAt(s, n);
    ToldNoRepeats(s);
    CallbacksCount(s.called, r.id);
    forall i | 0 <= i < n
      ensures s.called[i].req.id != r.id
    {
      var at := ToldAt(s, i);
    }
  }

  /** Enough answers of the platform, good or bad, lead to the promise being kept for every call of the
      history, exactly if the platform has never refused to go on from inside its own callback: neither after
      the initialization nor between two stages of a request. */
  lemma KeptInTheEnd(es: seq<Event>)
    requires Legal(INITIAL, es)
    ensures (exists answers: seq<PlatformStatus> :: PromiseKept(Drain(Run(INITIAL, es), answers))) <==>
            !InitRefused(INITIAL, es, false) && !StageRefused(INITIAL, es)
  {
    InitialInv();
    RunKeepsInv(INITIAL, es);
    DroppedIffRefused(INITIAL, es);
    StuckIffRefused(INITIAL, es);
    var s := Run(INITIAL, es);
    if s.dropped == [] && !s.phase.Stuck? {
      var answers := seq(if Remaining(s) < 0 then 0 else Remaining(s), _ => Ok);
      DrainServesAll(s, answers);
      DrainKeeps(s, answers);
      KeptUnlessDropped(Drain(s, answers));
    } else {
      forall answers: seq<PlatformStatus>
        ensures !PromiseKept(Drain(s, answers))
      {
        BrokenForGood(s, answers);
      }
    }
  }

  lemma BrokenForGood(s: State, answers: seq<PlatformStatus>)
    requires Inv(s) && (s.dropped != [] || s.phase.Stuck?)
    ensures !PromiseKept(Drain(s, answers))
  {
    var t := Drain(s, answers);
    DrainKeeps(s, answers);
    if s.dropped != [] {
      DroppedUntold(t);
    } else {
      InHandUntold(t);
    }
  }
}
