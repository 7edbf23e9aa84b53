/** Every history of ns_nvm_helper.c, also those in which a refused pending request has left a wrong flag or
    several operations outstanding, which then complete in any order. Only what happens after a removed entry
    has been read is left out.

    The flag and the single outstanding operation are lost in such histories, but the promise to the clients
    is not: no call has two callbacks, and at rest each accepted one has had its own, exactly unless the
    platform has refused from inside its own callback. */
module NvmOverlap {
  import opened Options
  import opened NvmModel
  import opened NvmDrain

  const START := Machine(false, false, [], [], [], [], [], [])

  /** An API call, or the completion of outstanding operation number k: `next` is what the platform returns if
      it is asked to go on, cs what the client does if it is told, and `replies` are those to the requests whose
      turn comes then. */
  datatype Happening =
    | Called(c: Call)
    | Completed(k: nat, status: PlatformStatus, next: PlatformStatus, cs: seq<Call>, replies: seq<Reply>)

  predicate Possible(m: Machine, h: Happening) {
    h.Completed? ==> h.k < |m.outstanding| && m.outstanding[h.k].Waiting?
  }

  function NextOp(op: Operation): Operation {
    if op == KeyCreate then KeyWrite else Flush
  }

  /** None: a removed entry has been read. */
  function React(m: Machine, h: Happening): Option<Machine>
    requires Possible(m, h)
  {
    match h
    case Called(c) => Some(Api(m, c))
    case Completed(k, status, next, cs, replies) =>
      var Waiting(op, r, answers) := m.outstanding[k];
      var answers' := answers + [Answer(op, status)];
      var u := m.(outstanding := m.outstanding[..k] + m.outstanding[k + 1..]);
      if Ends(op, status) then
        var o := EndOf(u, Callback(r, ClientView(status), answers'), cs, replies);
        if o.Fault? then None else Some(o.m)
      else if op == Init then
        if next == Ok then Some(m.(inProgress := true, outstanding := m.outstanding[k := Begun(r)]))
        else Some(u.(inProgress := false, lost := m.lost + [r]))
      else if next == Ok then Some(m.(outstanding := m.outstanding[k := Waiting(NextOp(op), r, answers')]))
      else Some(u.(lost := m.lost + [r]))
  }

  ghost predicate AllPossible(m: Machine, hs: seq<Happening>)
    decreases |hs|
  {
    hs == [] ||
    (Possible(m, hs[0]) && (React(m, hs[0]).Some? ==> AllPossible(React(m, hs[0]).value, hs[1..])))
  }

  function History(m: Machine, hs: seq<Happening>): Option<Machine>
    requires AllPossible(m, hs)
    decreases |hs|
  {
    if hs == [] then Some(m) else if React(m, hs[0]).None? then None else History(React(m, hs[0]).value, hs[1..])
  }

  // ----- Where every request is

  ghost function Hands(ps: seq<Phase>): multiset<Req> {
    if ps == [] then multiset{} else multiset(InHand(ps[0])) + Hands(ps[1..])
  }

  lemma {:induction false} HandsConcat(a: seq<Phase>, b: seq<Phase>)
    ensures Hands(a + b) == Hands(a) + Hands(b)
  {
    if a == [] {
      assert a + b == b;
    } else {
      assert (a + b)[1..] == a[1..] + b;
      HandsConcat(a[1..], b);
    }
  }

  lemma HandsOne(p: Phase)
    requires !p.Idle?
    ensures Hands([p]) == multiset{p.req}
  {
    assert [p][1..] == [];
  }

  /** Outstanding operation k is one more than the others. */
  lemma HandsWithout(ps: seq<Phase>, k: nat)
    requires k < |ps| && !ps[k].Idle?
    ensures Hands(ps) == Hands(ps[..k] + ps[k + 1..]) + multiset{ps[k].req}
  {
    assert ps == ps[..k] + ([ps[k]] + ps[k + 1..]);
    HandsConcat(ps[..k], [ps[k]] + ps[k + 1..]);
    HandsConcat([ps[k]], ps[k + 1..]);
    HandsConcat(ps[..k], ps[k + 1..]);
    HandsOne(ps[k]);
  }

  lemma QueueWithout(q: seq<Req>, i: nat)
    requires i < |q|
    ensures multiset(q) == multiset(q[..i] + q[i + 1..]) + multiset{q[i]}
  {
    assert q == q[..i] + [q[i]] + q[i + 1..];
  }

  ghost function Everything(m: Machine): multiset<Req> {
    multiset(Told(m.called)) + Hands(m.outstanding) + multiset(m.queue) + multiset(m.lost)
  }

  /** What has been returned and accepted, as in the state machine. */
  function Books(m: Machine): State {
    INITIAL.(results := m.results, accepted := m.accepted)
  }

  /** Every outstanding operation is the next one of its request's plan. */
  ghost predicate OnPlanAll(ps: seq<Phase>) {
    (forall i :: 0 <= i < |ps| ==> ps[i].Waiting?) &&
    forall i {:trigger PhaseOk(ps[i])} :: 0 <= i < |ps| ==> PhaseOk(ps[i])
  }

  ghost predicate FinishedAll(called: seq<Callback>) {
    forall i :: 0 <= i < |called| ==> Finished(called[i])
  }

  lemma PhasesSnoc(ps: seq<Phase>, p: Phase)
    requires OnPlanAll(ps) && p.Waiting? && PhaseOk(p)
    ensures OnPlanAll(ps + [p])
  {
    var qs := ps + [p];
    forall i | 0 <= i < |qs|
      ensures PhaseOk(qs[i])
    {
      assert i < |ps| ==> PhaseOk(ps[i]);
    }
  }

  lemma OnPlanSnoc(ps: seq<Phase>, p: Phase)
    requires OnPlanAll(ps) && p.Waiting? && PhaseOk(p)
    ensures OnPlanAll(ps + [p]) && Hands(ps + [p]) == Hands(ps) + multiset{p.req}
  {
    PhasesSnoc(ps, p);
    HandsConcat(ps, [p]);
    HandsOne(p);
  }

  lemma HandsUpdate(ps: seq<Phase>, k: nat, p: Phase)
    requires k < |ps| && !p.Idle? && !ps[k].Idle? && p.req == ps[k].req
    ensures Hands(ps[k := p]) == Hands(ps)
  {
    HandsWithout(ps, k);
    HandsWithout(ps[k := p], k);
    assert ps[k := p][..k] + ps[k := p][k + 1..] == ps[..k] + ps[k + 1..];
  }

  lemma OnPlanUpdate(ps: seq<Phase>, k: nat, p: Phase)
    requires OnPlanAll(ps) && k < |ps| && p.Waiting? && PhaseOk(p) && p.req == ps[k].req
    ensures OnPlanAll(ps[k := p]) && Hands(ps[k := p]) == Hands(ps)
  {
    HandsUpdate(ps, k, p);
    var qs := ps[k := p];
    forall i | 0 <= i < |qs|
      ensures PhaseOk(qs[i])
    {
      assert PhaseOk(ps[i]);
    }
  }

  lemma PhasesWithout(ps: seq<Phase>, k: nat)
    requires OnPlanAll(ps) && k < |ps|
    ensures OnPlanAll(ps[..k] + ps[k + 1..])
  {
    var rest := ps[..k] + ps[k + 1..];
    forall i | 0 <= i < |rest|
      ensures PhaseOk(rest[i])
    {
      assert PhaseOk(ps[if i < k then i else i + 1]);
    }
  }

  lemma OnPlanWithout(ps: seq<Phase>, k: nat)
    requires OnPlanAll(ps) && k < |ps|
    ensures OnPlanAll(ps[..k] + ps[k + 1..])
    ensures Hands(ps) == Hands(ps[..k] + ps[k + 1..]) + multiset{ps[k].req}
  {
    PhasesWithout(ps, k);
    HandsWithout(ps, k);
  }

  lemma FinishedSnoc(called: seq<Callback>, cb: Callback)
    requires FinishedAll(called) && Finished(cb)
    ensures FinishedAll(called + [cb]) && Told(called + [cb]) == Told(called) + [cb.req]
  {
  }

  /** Each accepted request but `loose` is in exactly one place, operations are on plan, and whoever was told was
      told the outcome. */
  ghost predicate CoreBut(m: Machine, loose: multiset<Req>) {
    && QueueOk(m)
    && AcceptedAreOk(Books(m))
    && Everything(m) + loose == multiset(m.accepted)
    && OnPlanAll(m.outstanding)
    && FinishedAll(m.called)
  }

  /** Only what is outstanding and what is loose change, and together they stay the same. */
  lemma CoreSwap(m: Machine, u: Machine, loose: multiset<Req>, after: multiset<Req>)
    requires CoreBut(m, loose) && u == m.(inProgress := u.inProgress, outstanding := u.outstanding)
    requires OnPlanAll(u.outstanding) && Hands(u.outstanding) + after == Hands(m.outstanding) + loose
    ensures CoreBut(u, after)
  {
    SwapSum(multiset(Told(m.called)), Hands(m.outstanding), multiset(m.queue), multiset(m.lost), loose,
            Hands(u.outstanding), after);
  }

  lemma SwapSum(a: multiset<Req>, h: multiset<Req>, q: multiset<Req>, l: multiset<Req>, loose: multiset<Req>,
                h2: multiset<Req>, after: multiset<Req>)
    requires h2 + after == h + loose
    ensures a + h2 + q + l + after == a + h + q + l + loose
  {
    forall r
      ensures (a + h2 + q + l + after)[r] == (a + h + q + l + loose)[r]
    {
      assert (h2 + after)[r] == (h + loose)[r];
    }
  }

  lemma RejectCore(m: Machine, why: ClientStatus, loose: multiset<Req>)
    requires CoreBut(m, loose) && why != NvmOk
    ensures CoreBut(m.(results := m.results + [why]), loose)
  {
    RejectKeeps(Books(m), why);
  }

  lemma QueueCore(m: Machine, kind: Kind, loose: multiset<Req>)
    requires CoreBut(m, loose) && m.initialized
    ensures var r := Req(|m.results|, kind);
            CoreBut(m.(results := m.results + [NvmOk], accepted := m.accepted + [r], queue := m.queue + [r]), loose)
  {
    AcceptKeeps(Books(m), kind);
  }

  /** A request that is accepted and not yet in any place. */
  lemma AcceptCore(m: Machine, kind: Kind, loose: multiset<Req>) returns (u: Machine)
    requires CoreBut(m, loose)
    ensures var r := Req(|m.results|, kind);
            && u == m.(results := m.results + [NvmOk], accepted := m.accepted + [r], initialized := true)
            && CoreBut(u, loose + multiset{r})
  {
    u := m.(results := m.results + [NvmOk], accepted := m.accepted + [Req(|m.results|, kind)], initialized := true);
    AcceptKeeps(Books(m), kind);
  }

  lemma StartCore(m: Machine, kind: Kind, p: Phase, loose: multiset<Req>) returns (u: Machine)
    requires CoreBut(m, loose) && p.Waiting? && PhaseOk(p) && p.req == Req(|m.results|, kind)
    ensures u == m.(results := m.results + [NvmOk], accepted := m.accepted + [p.req], initialized := true,
                    inProgress := true, outstanding := m.outstanding + [p])
    ensures CoreBut(u, loose)
  {
    var v := AcceptCore(m, kind, loose);
    u := v.(inProgress := true, outstanding := m.outstanding + [p]);
    OnPlanSnoc(m.outstanding, p);
    CoreSwap(v, u, loose + multiset{p.req}, loose);
  }

  lemma ApiCore(m: Machine, c: Call, loose: multiset<Req>) returns (u: Machine)
    requires CoreBut(m, loose)
    ensures u == Api(m, c) && CoreBut(u, loose)
  {
    u := Api(m, c);
    var r := Req(|m.results|, c.kind);
    FirstPhaseOk(r);
    if u.accepted == m.accepted {
      RejectCore(m, u.results[|m.results|], loose);
    } else if m.initialized && m.inProgress {
      QueueCore(m, c.kind, loose);
    } else {
      u := StartCore(m, c.kind, if m.initialized then Begun(r) else Waiting(Init, r, []), loose);
    }
  }

  lemma {:induction false} ApiAllCore(m: Machine, cs: seq<Call>, loose: multiset<Req>) returns (u: Machine)
    requires CoreBut(m, loose)
    ensures u == ApiAll(m, cs) && CoreBut(u, loose)
    decreases |cs|
  {
    u := m;
    if cs != [] {
      u := ApiCore(m, cs[0], loose);
      u := ApiAllCore(u, cs[1..], loose);
    }
  }

  lemma TellCore(m: Machine, cb: Callback) returns (u: Machine)
    requires CoreBut(m, multiset{cb.req}) && Finished(cb)
    ensures u == m.(called := m.called + [cb]) && CoreBut(u, multiset{})
  {
    u := m.(called := m.called + [cb]);
    FinishedSnoc(m.called, cb);
  }

  lemma ClientTurnCore(m: Machine, cb: Callback, cs: seq<Call>) returns (u: Machine)
    requires CoreBut(m, multiset{cb.req}) && Finished(cb)
    ensures u == ClientTurn(m, cb, cs) && CoreBut(u, multiset{})
  {
    u := TellCore(m, cb);
    u := ApiAllCore(u, cs, multiset{});
    u := u.(inProgress := false);
  }

  lemma RoundCore(m: Machine, i: nat) returns (u: Machine)
    requires CoreBut(m, multiset{}) && i < |m.queue|
    ensures u == m.(queue := m.queue[..i] + m.queue[i + 1..]) && CoreBut(u, multiset{m.queue[i]})
  {
    u := RoundFollows(m, i);
    QueueWithout(m.queue, i);
  }

  lemma TakeCore(m: Machine, r: Req) returns (u: Machine)
    requires CoreBut(m, multiset{r})
    ensures u == m.(inProgress := true, outstanding := m.outstanding + [Begun(r)]) && CoreBut(u, multiset{})
  {
    u := m.(inProgress := true, outstanding := m.outstanding + [Begun(r)]);
    FirstPhaseOk(r);
    OnPlanSnoc(m.outstanding, Begun(r));
    CoreSwap(m, u, multiset{r}, multiset{});
  }

  lemma {:induction false} LoopCore(m: Machine, e: Option<Req>, replies: seq<Reply>)
    requires CoreBut(m, multiset{}) && Loop(m, e, replies).Done?
    ensures CoreBut(Loop(m, e, replies).m, multiset{})
    decreases |replies|
  {
    if e.Some? {
      var i := IndexOf(m.queue, e.value);
      var u := RoundCore(m, i);
      if Takes(replies) {
        u := TakeCore(u, e.value);
      } else {
        var v := ClientTurnCore(u.(inProgress := false), Callback(e.value, NvmError, []), replies[0].cs);
        var nested := Loop(v, First(v.queue), replies[1..]);
        LoopCore(v, First(v.queue), replies[1..]);
        LoopCore(nested.m, First(m.queue[i + 1..]), nested.left);
      }
    }
  }

  /** Unless something is outstanding or has been lost, nothing is pending and the flag is clear. */
  predicate Settled(m: Machine) {
    m.inProgress || m.queue != [] ==> m.outstanding != [] || m.lost != []
  }

  ghost predicate Core(m: Machine) {
    CoreBut(m, multiset{}) && Settled(m)
  }

  /** The end of a request whose last operation has been taken out. */
  lemma EndCore(u: Machine, cb: Callback, cs: seq<Call>, replies: seq<Reply>)
    requires CoreBut(u, multiset{cb.req}) && Finished(cb) && EndOf(u, cb, cs, replies).Done?
    ensures Core(EndOf(u, cb, cs, replies).m)
  {
    var v := ClientTurnCore(u, cb, cs);
    LoopCore(v, First(v.queue), replies);
    LoopSettles(v, First(v.queue), replies);
  }

  /** The next stage of outstanding operation k. */
  lemma AdvanceCore(m: Machine, k: nat, p: Phase) returns (u: Machine)
    requires CoreBut(m, multiset{}) && k < |m.outstanding| && p.Waiting? && PhaseOk(p) && p.req == m.outstanding[k].req
    ensures u == m.(outstanding := m.outstanding[k := p]) && CoreBut(u, multiset{})
  {
    u := m.(outstanding := m.outstanding[k := p]);
    OnPlanUpdate(m.outstanding, k, p);
    CoreSwap(m, u, multiset{}, multiset{});
  }

  lemma TakeOutCore(m: Machine, k: nat) returns (u: Machine)
    requires CoreBut(m, multiset{}) && k < |m.outstanding|
    ensures u == m.(outstanding := m.outstanding[..k] + m.outstanding[k + 1..])
    ensures CoreBut(u, multiset{m.outstanding[k].req})
  {
    u := m.(outstanding := m.outstanding[..k] + m.outstanding[k + 1..]);
    OnPlanWithout(m.outstanding, k);
    CoreSwap(m, u, multiset{}, multiset{m.outstanding[k].req});
  }

  lemma LoseCore(u: Machine, r: Req) returns (v: Machine)
    requires CoreBut(u, multiset{r})
    ensures v == u.(lost := u.lost + [r]) && CoreBut(v, multiset{})
  {
    v := u.(lost := u.lost + [r]);
  }

  /** A good completion that is not the last leads to the next stage of the plan. */
  lemma NextStageOk(p: Phase, status: PlatformStatus)
    requires PhaseOk(p) && p.Waiting? && p.op != Init && !Ends(p.op, status)
    ensures PhaseOk(Waiting(NextOp(p.op), p.req, p.answers + [Answer(p.op, status)]))
  {
  }

  lemma EndsCore(m: Machine, k: nat, status: PlatformStatus, cs: seq<Call>, replies: seq<Reply>) returns (out: Machine)
    requires CoreBut(m, multiset{}) && k < |m.outstanding| && Ends(m.outstanding[k].op, status)
    ensures out == m.(outstanding := m.outstanding[..k] + m.outstanding[k + 1..])
    ensures var p := m.outstanding[k];
            var o := EndOf(out, Callback(p.req, ClientView(status), p.answers + [Answer(p.op, status)]), cs, replies);
            o.Done? ==> Core(o.m)
  {
    var p := m.outstanding[k];
    var cb := Callback(p.req, ClientView(status), p.answers + [Answer(p.op, status)]);
    out := TakeOutCore(m, k);
    FinishedNow(p, status);
    if EndOf(out, cb, cs, replies).Done? {
      EndCore(out, cb, cs, replies);
    }
  }

  /** What outstanding operation p leads to if the platform goes on. */
  function NextPhase(p: Phase, status: PlatformStatus): Phase
    requires p.Waiting?
  {
    if p.op == Init then Begun(p.req) else Waiting(NextOp(p.op), p.req, p.answers + [Answer(p.op, status)])
  }

  lemma GoOnCore(m: Machine, k: nat, status: PlatformStatus) returns (u: Machine)
    requires CoreBut(m, multiset{}) && k < |m.outstanding| && !Ends(m.outstanding[k].op, status)
    ensures u == m.(outstanding := m.outstanding[k := NextPhase(m.outstanding[k], status)]) && CoreBut(u, multiset{})
  {
    var p := m.outstanding[k];
    FirstPhaseOk(p.req);
    if p.op != Init {
      NextStageOk(p, status);
    }
    u := AdvanceCore(m, k, NextPhase(p, status));
  }

  lemma LostCore(m: Machine, k: nat) returns (u: Machine)
    requires CoreBut(m, multiset{}) && k < |m.outstanding|
    ensures u == m.(outstanding := m.outstanding[..k] + m.outstanding[k + 1..], lost := m.lost + [m.outstanding[k].req])
    ensures CoreBut(u, multiset{})
  {
    u := TakeOutCore(m, k);
    u := LoseCore(u, m.outstanding[k].req);
  }

  /** A completion by cases. */
  lemma ReactCases(m: Machine, h: Happening)
    requires Possible(m, h) && h.Completed?
    ensures var p, r := m.outstanding[h.k], React(m, h);
            var u := m.(outstanding := m.outstanding[..h.k] + m.outstanding[h.k + 1..]);
            if Ends(p.op, h.status) then
              var cb := Callback(p.req, ClientView(h.status), p.answers + [Answer(p.op, h.status)]);
              var o := EndOf(u, cb, h.cs, h.replies);
              r == if o.Fault? then None else Some(o.m)
            else if h.next == Ok then
              r == Some(m.(inProgress := m.inProgress || p.op == Init,
                           outstanding := m.outstanding[h.k := NextPhase(p, h.status)]))
            else r == Some(u.(inProgress := m.inProgress && p.op != Init, lost := m.lost + [p.req]))
  {
  }

  lemma CoreFlag(m: Machine, flag: bool)
    requires CoreBut(m, multiset{}) && (m.outstanding != [] || m.lost != [])
    ensures Core(m.(inProgress := flag))
  {
  }

  lemma GoOnKeeps(m: Machine, k: nat, status: PlatformStatus, flag: bool) returns (u: Machine)
    requires CoreBut(m, multiset{}) && k < |m.outstanding| && !Ends(m.outstanding[k].op, status)
    ensures u == m.(inProgress := flag, outstanding := m.outstanding[k := NextPhase(m.outstanding[k], status)])
    ensures Core(u)
  {
    u := GoOnCore(m, k, status);
    CoreFlag(u, flag);
    u := u.(inProgress := flag);
  }

  lemma LostKeeps(m: Machine, k: nat, flag: bool) returns (u: Machine)
    requires CoreBut(m, multiset{}) && k < |m.outstanding|
    ensures u == m.(inProgress := flag, outstanding := m.outstanding[..k] + m.outstanding[k + 1..],
                    lost := m.lost + [m.outstanding[k].req])
    ensures Core(u)
  {
    u := LostCore(m, k);
    CoreFlag(u, flag);
    u := u.(inProgress := flag);
  }

  /** A completion that does not end its request. */
  lemma GoesOnCore(m: Machine, h: Happening) returns (u: Machine)
    requires Core(m) && Possible(m, h) && h.Completed? && !Ends(m.outstanding[h.k].op, h.status)
    ensures React(m, h) == Some(u) && Core(u)
  {
    var init := m.outstanding[h.k].op == Init;
    ReactCases(m, h);
    if h.next == Ok {
      u := GoOnKeeps(m, h.k, h.status, m.inProgress || init);
    } else {
      u := LostKeeps(m, h.k, m.inProgress && !init);
    }
  }

  lemma ReactCore(m: Machine, h: Happening) returns (u: Machine)
    requires Core(m) && Possible(m, h) && React(m, h).Some?
    ensures u == React(m, h).value && Core(u)
  {
    match h
    case Called(c) =>
      u := ApiCore(m, c, multiset{});
      ApiSettles(m, c);
    case Completed(k, status, next, cs, replies) =>
      if Ends(m.outstanding[k].op, status) {
        u := React(m, h).value;
        ReactCases(m, h);
        var _ := EndsCore(m, k, status, cs, replies);
      } else {
        u := GoesOnCore(m, h);
      }
  }

  lemma ApiSettles(m: Machine, c: Call)
    requires Settled(m)
    ensures Settled(Api(m, c))
  {
  }

  lemma {:induction false} HistoryCore(m: Machine, hs: seq<Happening>)
    requires Core(m) && AllPossible(m, hs)
    ensures History(m, hs).Some? ==> Core(History(m, hs).value)
    decreases |hs|
  {
    if hs != [] && React(m, hs[0]).Some? {
      var u := ReactCore(m, hs[0]);
      HistoryCore(u, hs[1..]);
    }
  }

  // ----- The promise

  lemma {:induction false} AscendingOnce(rs: seq<Req>, r: Req)
    requires Ascending(rs)
    ensures multiset(rs)[r] <= 1
  {
    if rs != [] {
      var k := |rs| - 1;
      AscendingOnce(rs[..k], r);
      assert rs == rs[..k] + [rs[k]];
      assert r in rs[..k] ==> r != rs[k];
    }
  }

  lemma Twice(rs: seq<Req>, i: nat, j: nat)
    requires i < j < |rs| && rs[i] == rs[j]
    ensures multiset(rs)[rs[i]] >= 2
  {
    assert rs == rs[..j] + [rs[j]] + rs[j + 1..];
    assert rs[i] in rs[..j];
  }

  lemma SameId(m: Machine, a: Req, b: Req)
    requires AcceptedAreOk(Books(m)) && a in m.accepted && b in m.accepted && a.id == b.id
    ensures a == b
  {
    var i :| 0 <= i < |m.accepted| && m.accepted[i] == a;
    var j :| 0 <= j < |m.accepted| && m.accepted[j] == b;
  }

  lemma ToldAccepted(m: Machine, i: nat)
    requires CoreBut(m, multiset{}) && i < |m.called|
    ensures m.called[i].req in m.accepted && m.called[i].req == Told(m.called)[i]
  {
    assert Told(m.called)[i] in multiset(Told(m.called));
    assert Told(m.called)[i] in Everything(m);
    assert Told(m.called)[i] in multiset(m.accepted);
  }

  lemma ToldApart(m: Machine, i: nat, j: nat)
    requires CoreBut(m, multiset{}) && i < j < |m.called|
    ensures m.called[i].req.id != m.called[j].req.id
  {
    ToldAccepted(m, i);
    ToldAccepted(m, j);
    if m.called[i].req.id == m.called[j].req.id {
      SameId(m, m.called[i].req, m.called[j].req);
      AscendingOnce(m.accepted, m.called[i].req);
      assert multiset(Told(m.called))[m.called[i].req] <= Everything(m)[m.called[i].req];
      Twice(Told(m.called), i, j);
    }
  }

  lemma ToldOnce(m: Machine)
    requires CoreBut(m, multiset{})
    ensures NoRepeats(Told(m.called))
  {
    forall i, j | 0 <= i < j < |m.called|
      ensures Told(m.called)[i].id != Told(m.called)[j].id
    {
      ToldApart(m, i, j);
    }
  }

  /** A request that was told is nowhere else. */
  lemma ToldOnly(m: Machine, r: Req)
    requires CoreBut(m, multiset{}) && r in m.accepted
    ensures CallbacksFor(m.called, r.id) == 0 <==> r in Hands(m.outstanding) + multiset(m.queue) + multiset(m.lost)
  {
    ToldOnce(m);
    CallbacksCount(m.called, r.id);
    AscendingOnce(m.accepted, r);
    assert r in multiset(m.accepted) && Everything(m)[r] == 1;
    var told := Told(m.called);
    forall i | 0 <= i < |m.called| && m.called[i].req.id == r.id
      ensures told[i] == r
    {
      ToldAccepted(m, i);
      SameId(m, m.called[i].req, r);
    }
    if r in told {
      var i :| 0 <= i < |told| && told[i] == r;
      assert m.called[i].req.id == r.id;
    }
  }

  /** The promise to the clients, as for the state machine. */
  ghost predicate Promised(m: Machine) {
    forall n: nat :: n < |m.results| ==> CallbacksFor(m.called, n) == if m.results[n] == NvmOk then 1 else 0
  }

  lemma ErrorsUntold(m: Machine, n: nat)
    requires CoreBut(m, multiset{}) && (n >= |m.results| || m.results[n] != NvmOk)
    ensures CallbacksFor(m.called, n) == 0
  {
    ToldOnce(m);
    CallbacksCount(m.called, n);
    forall i | 0 <= i < |m.called|
      ensures m.called[i].req.id != n
    {
      ToldAccepted(m, i);
    }
  }

  lemma AtRest(m: Machine)
    requires Core(m) && m.outstanding == []
    ensures Promised(m) <==> m.lost == []
  {
    if m.lost == [] {
      forall n: nat | n < |m.results|
        ensures CallbacksFor(m.called, n) == if m.results[n] == NvmOk then 1 else 0
      {
        if m.results[n] == NvmOk {
          assert Listed(m.accepted, n);
          var i :| 0 <= i < |m.accepted| && m.accepted[i].id == n;
          ToldOnly(m, m.accepted[i]);
          ToldOnce(m);
          CallbacksCount(m.called, n);
        } else {
          ErrorsUntold(m, n);
        }
      }
    } else {
      var r := m.lost[0];
      assert r in multiset(m.lost) && r in Everything(m);
      assert r in multiset(m.accepted);
      ToldOnly(m, r);
    }
  }

  lemma StartHolds()
    ensures Core(START)
  {
  }

  /** In every history, whatever the platform refuses and whenever it completes: no call gets two callbacks, a
      call that returned an error gets none, each callback reports the outcome of its request, and an accepted
      request that has not been told is outstanding, pending or lost. */
  lemma AtMostOnceAlways(hs: seq<Happening>, n: nat)
    requires AllPossible(START, hs) && History(START, hs).Some?
    ensures var m := History(START, hs).value;
            && CallbacksFor(m.called, n) <= 1
            && (n >= |m.results| || m.results[n] != NvmOk ==> CallbacksFor(m.called, n) == 0)
            && FinishedAll(m.called)
            && forall r :: r in m.accepted ==>
                 (CallbacksFor(m.called, r.id) == 0 <==>
                  r in Hands(m.outstanding) + multiset(m.queue) + multiset(m.lost))
  {
    StartHolds();
    HistoryCore(START, hs);
    var m := History(START, hs).value;
    ToldOnce(m);
    CallbacksCount(m.called, n);
    if n >= |m.results| || m.results[n] != NvmOk {
      ErrorsUntold(m, n);
    }
    forall r | r in m.accepted
      ensures CallbacksFor(m.called, r.id) == 0 <==> r in Hands(m.outstanding) + multiset(m.queue) + multiset(m.lost)
    {
      ToldOnly(m, r);
    }
  }

  /** Each client is told what the platform reported for its request, and the platform is asked for the stages of
      each request in their order. */
  lemma ToldTheOutcomeAlways(hs: seq<Happening>)
    requires AllPossible(START, hs) && History(START, hs).Some?
    ensures var m := History(START, hs).value;
            && (forall i :: 0 <= i < |m.called| ==> ToldWhy(m.called[i]) && InStages(m.called[i]))
            && (forall k :: 0 <= k < |m.outstanding| ==> AllInStages(m.outstanding[k]))
  {
    StartHolds();
    HistoryCore(START, hs);
    var m := History(START, hs).value;
    forall i | 0 <= i < |m.called|
      ensures ToldWhy(m.called[i]) && InStages(m.called[i])
    {
      FinishedSays(m.called[i]);
    }
    forall k | 0 <= k < |m.outstanding|
      ensures AllInStages(m.outstanding[k])
    {
      assert PhaseOk(m.outstanding[k]);
      PhaseSays(m.outstanding[k]);
    }
  }

  /** The platform refuses from inside its own callback. */
  predicate RefusesInside(m: Machine, h: Happening)
    requires Possible(m, h)
  {
    h.Completed? && h.next != Ok && !Ends(m.outstanding[h.k].op, h.status)
  }

  ghost predicate RefusedInside(m: Machine, hs: seq<Happening>)
    requires AllPossible(m, hs)
    decreases |hs|
  {
    hs != [] &&
    (RefusesInside(m, hs[0]) || (React(m, hs[0]).Some? && RefusedInside(React(m, hs[0]).value, hs[1..])))
  }

  lemma LoopLosesNothing(m: Machine, e: Option<Req>, replies: seq<Reply>)
    requires Loop(m, e, replies).Done?
    ensures Loop(m, e, replies).m.lost == m.lost
    decreases |replies|
  {
    if e.Some? && e.value in m.queue && !Takes(replies) {
      var i := IndexOf(m.queue, e.value);
      var w := m.(queue := m.queue[..i] + m.queue[i + 1..], inProgress := false);
      var cb := Callback(e.value, NvmError, []);
      var v := ClientTurn(w, cb, replies[0].cs);
      ApiAllLosesNothing(w.(called := w.called + [cb]), replies[0].cs);
      var nested := Loop(v, First(v.queue), replies[1..]);
      LoopLosesNothing(v, First(v.queue), replies[1..]);
      LoopLosesNothing(nested.m, First(m.queue[i + 1..]), nested.left);
    }
  }

  lemma {:induction false} ApiAllLosesNothing(m: Machine, cs: seq<Call>)
    ensures ApiAll(m, cs).lost == m.lost
    decreases |cs|
  {
    if cs != [] {
      ApiAllLosesNothing(Api(m, cs[0]), cs[1..]);
    }
  }

  lemma LosesIffRefuses(m: Machine, h: Happening)
    requires Possible(m, h) && React(m, h).Some?
    ensures React(m, h).value.lost != [] <==> m.lost != [] || RefusesInside(m, h)
  {
    if h.Completed? {
      ReactCases(m, h);
      var p := m.outstanding[h.k];
      if Ends(p.op, h.status) {
        var u := m.(outstanding := m.outstanding[..h.k] + m.outstanding[h.k + 1..]);
        var cb := Callback(p.req, ClientView(h.status), p.answers + [Answer(p.op, h.status)]);
        var v := ClientTurn(u, cb, h.cs);
        ApiAllLosesNothing(u.(called := u.called + [cb]), h.cs);
        LoopLosesNothing(v, First(v.queue), h.replies);
      }
    }
  }

  lemma {:induction false} LostIffRefused(m: Machine, hs: seq<Happening>)
    requires AllPossible(m, hs) && History(m, hs).Some?
    ensures History(m, hs).value.lost != [] <==> m.lost != [] || RefusedInside(m, hs)
    decreases |hs|
  {
    if hs != [] {
      LosesIffRefuses(m, hs[0]);
      LostIffRefused(React(m, hs[0]).value, hs[1..]);
    }
  }

  /** Once nothing is outstanding, every accepted call has had exactly one callback and no other has had any,
      exactly if the platform has never refused from inside its own callback. */
  lemma ExactlyOnceAtRest(hs: seq<Happening>)
    requires AllPossible(START, hs) && History(START, hs).Some? && History(START, hs).value.outstanding == []
    ensures Promised(History(START, hs).value) <==> !RefusedInside(START, hs)
  {
    StartHolds();
    HistoryCore(START, hs);
    LostIffRefused(START, hs);
    AtRest(History(START, hs).value);
  }

  // ----- The state machine is part of it

  function AsReplies(refusals: seq<seq<Call>>): (replies: seq<Reply>)
    ensures |replies| == |refusals|
  {
    seq(|refusals|, i requires 0 <= i < |refusals| => Refused(refusals[i]))
  }

  lemma {:induction false} LeadingAll(refusals: seq<seq<Call>>)
    ensures Leading(AsReplies(refusals)) == refusals
  {
    if refusals != [] {
      assert AsReplies(refusals)[1..] == AsReplies(refusals[1..]);
      LeadingAll(refusals[1..]);
    }
  }

  function AsHappening(e: Event): Happening {
    match e
    case DoCall(c) => Called(c)
    case DoComplete(status, next, cs, refusals) => Completed(0, status, next, cs, AsReplies(refusals))
  }

  lemma CallIsReaction(s: State, c: Call)
    requires Flags(s)
    ensures Api(Of(s), c) == Of(Submit(s, c))
  {
    var p := if s.initialized then Begun(Req(|s.results|, c.kind)) else Waiting(Init, Req(|s.results|, c.kind), []);
    assert [] + [p] == [p];
  }

  lemma StepIsReaction(s: State, e: Event)
    requires Inv(s) && Enabled(s, e)
    ensures Possible(Of(s), AsHappening(e)) && React(Of(s), AsHappening(e)) == Some(Of(Step(s, e)))
  {
    match e
    case DoCall(c) =>
      CallIsReaction(s, c);
    case DoComplete(status, next, cs, refusals) =>
      CompletionIsReaction(s, status, next, cs, refusals);
  }

  lemma CompletionIsReaction(s: State, status: PlatformStatus, next: PlatformStatus, cs: seq<Call>, refusals: seq<seq<Call>>)
    requires Inv(s) && MayComplete(s, status, cs, refusals)
    ensures React(Of(s), Completed(0, status, next, cs, AsReplies(refusals))) ==
            Some(Of(Complete(s, status, next, cs, refusals)))
  {
    var m, h := Of(s), Completed(0, status, next, cs, AsReplies(refusals));
    LeadingAll(refusals);
    ReactCases(m, h);
    assert m.outstanding[..0] + m.outstanding[1..] == [];
    assert m.outstanding[0 := NextPhase(s.phase, status)] == [NextPhase(s.phase, status)];
    if Ends(s.phase.op, status) {
      FinishExact(s, status, next, cs, AsReplies(refusals));
    }
  }

  /** Each history of the state machine is one of these. */
  lemma {:induction false} RunIsHistory(s: State, es: seq<Event>) returns (hs: seq<Happening>)
    requires Inv(s) && Legal(s, es)
    ensures AllPossible(Of(s), hs) && History(Of(s), hs) == Some(Of(Run(s, es)))
    decreases |es|
  {
    hs := [];
    if es != [] {
      StepIsReaction(s, es[0]);
      var t := StepKeepsInv(s, es[0]);
      var rest := RunIsHistory(t, es[1..]);
      hs := [AsHappening(es[0])] + rest;
      assert hs[1..] == rest;
    }
  }
}
