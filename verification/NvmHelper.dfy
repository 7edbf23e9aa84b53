/** ns_nvm_helper.c in its own form: request objects whose `operation` changes from stage to stage,
    two flags and a list of pending requests, all updated in place.

    The platform and the clients are the environment. What they decide (does an allocation succeed,
    what does a platform call return, which calls does a client make from its callback) comes in as
    arguments. The platform's side is a ghost field: the request it owes a callback for. */
module NvmHelper {
  import opened NvmModel

  class Request {
    const kind: Kind
    const context: nat            // the number of the API call it was made for
    var operation: Operation
    var originalRequest: Request?

    constructor (kind: Kind, context: nat, operation: Operation)
      ensures this.kind == kind && this.context == context && this.operation == operation && originalRequest == null
    {
      this.kind, this.context, this.operation, originalRequest := kind, context, operation, null;
    }
  }

  /** The operation a request is created with. */
  function Requested(kind: Kind): Operation {
    match kind
    case Read => KeyRead
    case Write => KeyWrite
    case Delete => KeyDelete
  }

  function Abstract(r: Request): Req {
    Req(r.context, r.kind)
  }

  function AbstractAll(rs: seq<Request>): seq<Req> {
    seq(|rs|, i requires 0 <= i < |rs| => Abstract(rs[i]))
  }

  class Helper {
    var initialized: bool
    var operationInProgress: bool
    var requestList: seq<Request>
    var results: seq<ClientStatus>        // what each API call has returned

    ghost var outstanding: Request?       // whose platform callback is owed
    ghost var stuck: Request?             // whose continuation the platform refused
    ghost var ending: Request?            // which could not be started, and whose client is being told
    ghost var answers: seq<Answer>
    ghost var accepted: seq<Req>
    ghost var called: seq<Callback>
    ghost var dropped: seq<Req>
    ghost var stranded: seq<Req>
    ghost var live: set<Request>          // allocated and not yet freed

    ghost function CurrentPhase(): Phase
      reads this`outstanding, this`stuck, this`answers, outstanding
      reads if outstanding != null && outstanding.originalRequest != null then {outstanding.originalRequest} else {}
    {
      if outstanding != null then
        if outstanding.operation == Init && outstanding.originalRequest != null then
          Waiting(Init, Abstract(outstanding.originalRequest), [])
        else
          Waiting(outstanding.operation, Abstract(outstanding), answers)
      else if stuck != null then Stuck(Abstract(stuck))
      else Idle
    }

    ghost function Abs(): State
      reads this, outstanding
      reads if outstanding != null && outstanding.originalRequest != null then {outstanding.originalRequest} else {}
    {
      State(initialized, operationInProgress, AbstractAll(requestList), CurrentPhase(), results, accepted, called,
            dropped, stranded)
    }

    /** The requests that the helper or the platform holds. */
    ghost function Held(): set<Request>
      reads this, outstanding
    {
      (set r | r in requestList)
      + (if outstanding != null then {outstanding} else {})
      + (if outstanding != null && outstanding.originalRequest != null then {outstanding.originalRequest} else {})
      + (if stuck != null then {stuck} else {})
      + (if ending != null then {ending} else {})
    }

    /** Each request object is in one place, and nothing is lost: what is allocated is exactly what is held. */
    ghost predicate Holding()
      reads this, outstanding, requestList
      reads if outstanding != null && outstanding.originalRequest != null then {outstanding.originalRequest} else {}
    {
      HoldingBut({})
    }

    ghost predicate EndingApart()
      reads this, outstanding
    {
      outstanding != null ==> ending != outstanding.originalRequest
    }

    ghost predicate HoldingBut(loose: set<Request>)
      reads this, outstanding, requestList
      reads if outstanding != null && outstanding.originalRequest != null then {outstanding.originalRequest} else {}
    {
      && live == Held() + loose
      && (forall i, j :: 0 <= i < j < |requestList| ==> requestList[i] != requestList[j])
      && (forall i :: 0 <= i < |requestList| ==>
            requestList[i].operation == Requested(requestList[i].kind) && requestList[i].originalRequest == null)
      && (outstanding != null ==>
            && outstanding !in requestList
            && stuck == null
            && (outstanding.operation == Init <==> outstanding.originalRequest != null)
            && (outstanding.originalRequest != null ==>
                  && outstanding.originalRequest != outstanding
                  && outstanding.originalRequest !in requestList
                  && outstanding.originalRequest.operation == Requested(outstanding.originalRequest.kind)
                  && outstanding.originalRequest.originalRequest == null
                  && answers == []))
      && (stuck != null ==> stuck !in requestList && stuck != ending)
      && (ending != null ==> ending !in requestList && ending != outstanding && EndingApart())
    }

    /** The two flags agree with what is held. */
    ghost predicate Shape()
      reads this, outstanding, requestList
      reads if outstanding != null && outstanding.originalRequest != null then {outstanding.originalRequest} else {}
    {
      && Holding()
      && (operationInProgress <==> outstanding != null || stuck != null)
      && (!initialized ==> requestList == [] && !operationInProgress)
    }

    ghost predicate Valid()
      reads this, outstanding, requestList
      reads if outstanding != null && outstanding.originalRequest != null then {outstanding.originalRequest} else {}
    {
      && Inv(Abs())
      && Shape()
      && ending == null
    }

    constructor ()
      ensures Valid() && Abs() == INITIAL && live == {}
    {
      initialized, operationInProgress, requestList, results := false, false, [], [];
      outstanding, stuck, ending, live := null, null, null, {};
      answers, accepted, called, dropped, stranded := [], [], [], [], [];
      new;
      assert AbstractAll(requestList) == [] && Abs() == INITIAL;
      InitialInv();
    }

    // ----- Memory and platform

    method CreateRequest(kind: Kind, context: nat, operation: Operation, memory: bool) returns (r: Request?)
      modifies this`live
      ensures r != null <==> memory
      ensures r != null ==>
                && fresh(r) && r.kind == kind && r.context == context && r.operation == operation &&
                          r.originalRequest == null
                && live == old(live) + {r}
      ensures r == null ==> live == old(live)
    {
      r := null;
      if memory {
        r := new Request(kind, context, operation);
        live := live + {r};
      }
    }

    /** ns_dyn_mem_free: only what is allocated may be freed. */
    ghost method FreeRequest(r: Request)
      requires r in live
      modifies this`live
      ensures live == old(live) - {r}
    {
      live := live - {r};
    }

    /** A platform call made for r: never while another operation is outstanding, never for freed memory. */
    ghost method PlatformStart(r: Request, ret: PlatformStatus)
      requires outstanding == null && r in live
      modifies this`outstanding
      ensures outstanding == if ret == Ok then r else null
    {
      if ret == Ok {
        outstanding := r;
      }
    }

    // ----- ns_nvm_operation_continue

    method OperationContinue(request: Request, freeRequest: bool, ret: PlatformStatus) returns (res: ClientStatus)
      requires request in live && outstanding == null && request.operation == Requested(request.kind)
      modifies this`operationInProgress, this`outstanding, this`live, this`answers, request`operation
      ensures request.operation == Plan(request.kind)[0]
      ensures answers == []
      ensures ret == Ok ==> res == NvmOk && operationInProgress && outstanding == request && live == old(live)
      ensures ret != Ok ==> res == NvmError && !operationInProgress && outstanding == null
                            && live == if freeRequest then old(live) - {request} else old(live)
    {
      operationInProgress := true;
      answers := [];
      match request.operation {
        case KeyWrite =>
          request.operation := KeyCreate;
          PlatformStart(request, ret);
        case KeyRead =>
          PlatformStart(request, ret);
        case KeyDelete =>
          PlatformStart(request, ret);
        case _ =>
      }
      if ret != Ok {
        if freeRequest {
          FreeRequest(request);
        }
        operationInProgress := false;
        return NvmError;
      }
      return NvmOk;
    }

    // ----- The API

    /** ns_nvm_operation_start. `started` is what the platform returns to the call made here, if any. */
    method OperationStart(nvmRequest: Request?, initMemory: bool, started: PlatformStatus) returns (ret: ClientStatus)
      requires Loose(nvmRequest)
      modifies this`initialized, this`operationInProgress, this`requestList, this`outstanding, this`answers, this`live
      modifies if nvmRequest != null then {nvmRequest} else {}
      ensures Shape() && fresh(live - old(live))
      ensures unchanged(this`stuck) && unchanged(this`results) && unchanged(this`accepted) &&
                unchanged(this`called) && unchanged(this`dropped)
      ensures ret == if nvmRequest == null then NvmMemory
                     else if initialized && old(operationInProgress) then NvmOk
                     else if old(initialized) then (if started == Ok then NvmOk else NvmError)
                     else if !initMemory then NvmMemory
                     else if started != Ok then NvmError
                     else NvmOk
      ensures ret != NvmOk ==> Abs() == old(Abs())
      ensures ret == NvmOk && old(operationInProgress) ==>
                Abs() == old(Abs()).(queue := old(Abs()).queue + [Abstract(nvmRequest)])
      ensures ret == NvmOk && !old(operationInProgress) ==>
                Abs() == old(Abs()).(initialized := true, inProgress := true,
                                     phase := Waiting(if old(initialized) then Plan(nvmRequest.kind)[0] else Init, Abstract(nvmRequest), []))
      ensures old(operationInProgress) ==> outstanding == old(outstanding) && answers == old(answers)
    {
      ret := NvmOk;
      if nvmRequest == null {
        return NvmMemory;
      }
      if initialized {
        if !operationInProgress {
          ret := StartAtOnce(nvmRequest, started);
        } else {
          AddPending(nvmRequest);
        }
      } else {
        ret := StartInit(nvmRequest, initMemory, started);
      }
    }

    method AddPending(nvmRequest: Request)
      requires Loose(nvmRequest) && initialized
      modifies this`requestList
      ensures Shape() && Abs() == old(Abs()).(queue := old(Abs()).queue + [Abstract(nvmRequest)])
    {
      requestList := requestList + [nvmRequest];
      assert AbstractAll(requestList) == AbstractAll(old(requestList)) + [Abstract(nvmRequest)];
    }

    /** The request is started or freed. */
    method StartAtOnce(nvmRequest: Request, started: PlatformStatus) returns (ret: ClientStatus)
      requires Loose(nvmRequest) && initialized && !operationInProgress
      modifies this`operationInProgress, this`outstanding, this`answers, this`live, nvmRequest
      ensures Shape() && live <= old(live) && ret == if started == Ok then NvmOk else NvmError
      ensures operationInProgress <==> ret == NvmOk
      ensures CurrentPhase() ==
              if ret != NvmOk then Idle else Waiting(Plan(nvmRequest.kind)[0], Abstract(nvmRequest), [])
    {
      ret := OperationContinue(nvmRequest, true, started);
    }

    /** Its first call ever: the platform is initialized on behalf of the request. */
    method StartInit(nvmRequest: Request, initMemory: bool, started: PlatformStatus) returns (ret: ClientStatus)
      requires Loose(nvmRequest) && !initialized
      modifies this`initialized, this`operationInProgress, this`requestList, this`outstanding, this`answers, this`live
      ensures Shape() && fresh(live - old(live))
      ensures ret == if !initMemory then NvmMemory else if started != Ok then NvmError else NvmOk
      ensures requestList == [] && (initialized <==> ret == NvmOk) && (operationInProgress <==> ret == NvmOk)
      ensures if ret != NvmOk then outstanding == null
              else outstanding != null && outstanding.originalRequest == nvmRequest && outstanding.operation == Init
    {
      var request := CreateRequest(nvmRequest.kind, nvmRequest.context, Init, initMemory);
      if request == null {
        FreeRequest(nvmRequest);
        return NvmMemory;
      }
      request.originalRequest := nvmRequest;
      PlatformStart(request, started);
      if started != Ok {
        FreeRequest(nvmRequest);
        FreeRequest(request);
        assert live == old(live) - {nvmRequest} == Held();
        return NvmError;
      }
      assert live == old(live) + {request} == Held();
      requestList, answers := [], [];
      initialized := true;
      operationInProgress := true;
      return NvmOk;
    }

    /** Shape(), but for one new request that nobody holds yet. */
    ghost predicate Loose(r: Request?)
      reads this, outstanding, requestList
      reads if outstanding != null && outstanding.originalRequest != null then {outstanding.originalRequest} else {}
      reads if r != null then {r} else {}
    {
      && HoldingBut(if r != null then {r} else {})
      && (operationInProgress <==> outstanding != null || stuck != null)
      && (!initialized ==> requestList == [] && !operationInProgress)
      && (r != null ==> r !in Held() && r.operation == Requested(r.kind) && r.originalRequest == null)
    }

    /** Creates the request and starts it; the caller is about to get `ret`. */
    method Begin(c: Call) returns (ret: ClientStatus)
      requires Shape()
      modifies this`initialized, this`operationInProgress, this`requestList, this`outstanding, this`answers, this`live
      ensures Shape() && fresh(live - old(live))
      ensures ret == Verdict(old(Abs()), c)
      ensures Abs() == Entered(old(Abs()), c)
      ensures old(operationInProgress) ==> outstanding == old(outstanding) && answers == old(answers)
    {
      if !c.argsGiven {
        ret := NvmError;
      } else {
        var request := CreateClientRequest(c.kind, c.memory);
        ret := OperationStart(request, c.initMemory, c.started);
      }
    }

    /** The request for the next API call, if there is memory for it. */
    method CreateClientRequest(kind: Kind, memory: bool) returns (request: Request?)
      requires Shape()
      modifies this`live
      ensures Loose(request) && Abs() == old(Abs()) && (request != null <==> memory)
      ensures request != null ==> fresh(request) && Abstract(request) == Req(|results|, kind)
      ensures fresh(live - old(live))
    {
      request := CreateRequest(kind, |results|, Requested(kind), memory);
    }

    /** What the three entry points have in common once their pointers are checked. */
    method Api(c: Call) returns (ret: ClientStatus)
      requires Shape()
      modifies this`initialized, this`operationInProgress, this`requestList, this`outstanding, this`answers, this`live
      modifies this`results, this`accepted
      ensures Shape() && fresh(live - old(live))
      ensures Abs() == Submit(old(Abs()), c)
      ensures results == old(results) + [ret] && (!c.argsGiven ==> ret == NvmError)
      ensures old(operationInProgress) ==> outstanding == old(outstanding) && answers == old(answers)
      ensures old(initialized) && (old(operationInProgress) || !Starts(c)) ==>
                initialized && operationInProgress == old(operationInProgress)
    {
      SubmitEntersAndRecords(Abs(), c);
      ret := Begin(c);
      Record(c.kind, ret);
    }

    /** The outcome of one more API call. */
    method Record(kind: Kind, ret: ClientStatus)
      requires Shape()
      modifies this`results, this`accepted
      ensures Shape() && results == old(results) + [ret]
      ensures Abs() == if ret == NvmOk then Accept(old(Abs()), kind) else Reject(old(Abs()), ret)
    {
      if ret == NvmOk {
        accepted := accepted + [Req(|results|, kind)];
      }
      results := results + [ret];
    }

    /** ns_nvm_key_delete; the environment's part of the call is `e`. */
    method KeyDelete(callback: bool, keyName: bool, e: Call) returns (ret: ClientStatus)
      requires Valid()
      modifies this
      ensures Valid() && results == old(results) + [ret]
      ensures Abs() == Submit(old(Abs()), e.(kind := Delete, argsGiven := callback && keyName))
      ensures !callback || !keyName ==> ret == NvmError
    {
      ghost var _ := SubmitKeepsInv(Abs(), e.(kind := Delete, argsGiven := callback && keyName));
      ret := Api(e.(kind := Delete, argsGiven := callback && keyName));
    }

    method DataRead(callback: bool, keyName: bool, buf: bool, bufLen: bool, e: Call) returns (ret: ClientStatus)
      requires Valid()
      modifies this
      ensures Valid() && results == old(results) + [ret]
      ensures Abs() == Submit(old(Abs()), e.(kind := Read, argsGiven := callback && keyName && buf && bufLen))
      ensures !callback || !keyName || !buf || !bufLen ==> ret == NvmError
    {
      ghost var _ := SubmitKeepsInv(Abs(), e.(kind := Read, argsGiven := callback && keyName && buf && bufLen));
      ret := Api(e.(kind := Read, argsGiven := callback && keyName && buf && bufLen));
    }

    method DataWrite(callback: bool, keyName: bool, buf: bool, bufLen: bool, e: Call) returns (ret: ClientStatus)
      requires Valid()
      modifies this
      ensures Valid() && results == old(results) + [ret]
      ensures Abs() == Submit(old(Abs()), e.(kind := Write, argsGiven := callback && keyName && buf && bufLen))
      ensures !callback || !keyName || !buf || !bufLen ==> ret == NvmError
    {
      ghost var _ := SubmitKeepsInv(Abs(), e.(kind := Write, argsGiven := callback && keyName && buf && bufLen));
      ret := Api(e.(kind := Write, argsGiven := callback && keyName && buf && bufLen));
    }

    // ----- Platform callbacks

    /** The client's callback: it is told, and may call the API again before it returns. */
    method ClientCallback(request: Request, retval: ClientStatus, cs: seq<Call>, ghost done: seq<Answer>)
      requires Shape() && initialized && (operationInProgress || forall i :: 0 <= i < |cs| ==> !Starts(cs[i]))
      modifies this`initialized, this`operationInProgress, this`requestList, this`outstanding, this`answers, this`live
      modifies this`results, this`accepted, this`called
      ensures Shape() && fresh(live - old(live)) && operationInProgress == old(operationInProgress)
      ensures outstanding == old(outstanding) && (operationInProgress ==> answers == old(answers))
      ensures Abs() == AfterCallback(old(Abs()), Abstract(request), retval, done, cs)
    {
      called := called + [Callback(Abstract(request), retval, done)];
      ghost var s := Abs();
      var i := 0;
      while i < |cs|
        invariant 0 <= i <= |cs|
        invariant Shape() && fresh(live - old(live)) && initialized && operationInProgress == old(operationInProgress)
        invariant operationInProgress ==> outstanding == old(outstanding) && answers == old(answers)
        invariant SubmitAll(Abs(), cs[i..]) == SubmitAll(s, cs)
      {
        assert cs[i..][0] == cs[i] && cs[i..][1..] == cs[i + 1..];
        var _ := Api(cs[i]);
        i := i + 1;
      }
      assert cs[i..] == [];
    }

    /** Whether `request` is the one to be ended: its operation has been completed, or it could not be started. */
    ghost predicate Due(request: Request, cs: seq<Call>)
      reads this, request
    {
      && initialized
      && if operationInProgress then outstanding == request && request.operation != Init && ending == null
         else outstanding == null && ending == request && stuck == null &&
              forall i :: 0 <= i < |cs| ==> !Starts(cs[i])
    }

    /** ns_nvm_operation_end. The platform refuses as many pending requests as `refusals` has elements. */
    method OperationEnd(request: Request, clientRetval: ClientStatus, cs: seq<Call>, ghost done: seq<Answer>,
                        refusals: seq<seq<Call>>)
      requires Shape() && Due(request, cs) && AcceptedAreOk(Abs())
      requires Harmless(AfterCallback(Abs(), Abstract(request), clientRetval, done, cs).queue, refusals)
      modifies this, live
      ensures Shape() && ending == null && fresh(live - old(live))
      ensures Abs() == End(old(Abs()), Abstract(request), clientRetval, done, cs, refusals)
      decreases |refusals|, 2
    {
      ghost var t := AfterCallbackOk(Abs(), Abstract(request), clientRetval, done, cs);
      ClientCallback(request, clientRetval, cs, done);
      CloseRequest(request);
      ProcessPending(refusals, t);
    }

    /** The request whose client has been told is freed, and the flag is cleared. */
    method CloseRequest(request: Request)
      requires Shape() && initialized
      requires if operationInProgress then outstanding == request && request.operation != Init && ending == null
               else outstanding == null && ending == request && stuck == null
      modifies this`live, this`outstanding, this`ending, this`operationInProgress
      ensures Shape() && !operationInProgress && outstanding == null && ending == null
      ensures live == old(live) - {request} && Abs() == old(Abs()).(inProgress := false, phase := Idle)
    {
      FreeRequest(request);
      outstanding, ending := null, null;
      operationInProgress := false;
    }

    /** The loop over the pending requests; t is the state before the flag was cleared. */
    method ProcessPending(refusals: seq<seq<Call>>, ghost t: State)
      requires Shape() && initialized && !operationInProgress && ending == null
      requires AcceptedAreOk(t) && Harmless(t.queue, refusals) && Abs() == t.(inProgress := false, phase := Idle)
      modifies this, live
      ensures Shape() && ending == null && fresh(live - old(live))
      ensures Abs() == NextTurn(t, refusals)
      decreases |refusals|, 1
    {
      var pendingReq: Request? := if requestList == [] then null else requestList[0];
      while pendingReq != null
        invariant Shape() && ending == null && fresh(live - old(live))
        invariant pendingReq == null ==> Abs() == NextTurn(t, refusals)
        invariant pendingReq != null ==>
                    && requestList != [] && pendingReq == requestList[0]
                    && initialized && !operationInProgress
                    && Abs() == t.(inProgress := false, phase := Idle)
        decreases if pendingReq == null then 0 else 1
      {
        var next: Request? := if |requestList| > 1 then requestList[1] else null;
        var ret := StartPending(pendingReq, refusals == []);
        if ret == NvmOk {
          break;
        }
        EndRefused(pendingReq, ret, refusals, t);
        pendingReq := next;
      }
    }

    /** The first pending request is removed from the list and started, if the platform takes it. */
    method StartPending(pendingReq: Request, taken: bool) returns (ret: ClientStatus)
      requires Shape() && initialized && !operationInProgress && ending == null
      requires requestList != [] && pendingReq == requestList[0]
      modifies this`requestList, this`operationInProgress, this`outstanding, this`live, this`answers, this`ending
      modifies pendingReq`operation
      ensures Shape() && live == old(live) && ret == if taken then NvmOk else NvmError
      ensures ending == if taken then null else pendingReq
      ensures var s, p := old(Abs()), Abstract(pendingReq);
              Abs() == if taken then s.(queue := s.queue[1..], inProgress := true, phase := Waiting(Plan(p.kind)[0], p, []))
                       else s.(queue := s.queue[1..])
    {
      requestList := requestList[1..];
      assert AbstractAll(requestList) == old(AbstractAll(requestList))[1..];
      ret := OperationContinue(pendingReq, false, if taken then Ok else Error);
      if ret != NvmOk {
        ending := pendingReq;
      }
    }

    /** A request that could not be started ends like any other. */
    method EndRefused(pendingReq: Request, ret: ClientStatus, refusals: seq<seq<Call>>, ghost t: State)
      requires Shape() && initialized && !operationInProgress && ending == pendingReq && ret == NvmError
      requires AcceptedAreOk(t) && Harmless(t.queue, refusals) && refusals != [] && t.queue != []
      requires Abstract(pendingReq) == t.queue[0]
      requires Abs() == t.(queue := t.queue[1..], inProgress := false, phase := Idle)
      modifies this, live
      ensures Shape() && ending == null && fresh(live - old(live))
      ensures Abs() == NextTurn(t, refusals) && t.queue == [t.queue[0]]
      decreases |refusals|, 0
    {
      ghost var _ := AfterCallbackOk(Abs(), t.queue[0], NvmError, [], refusals[0]);
      OperationEnd(pendingReq, ret, refusals[0], [], refusals[1..]);
    }

    /** The platform is asked to go on with the same request; its answer is not looked at. */
    ghost method GoOn(request: Request, next: PlatformStatus, done: seq<Answer>)
      requires outstanding == null && stuck == null && request in live
      modifies this`outstanding, this`stuck, this`answers
      ensures answers == done
      ensures outstanding == (if next == Ok then request else null) && stuck == (if next == Ok then null else request)
    {
      PlatformStart(request, next);
      answers := done;
      if next != Ok {
        stuck := request;
      }
    }

    /** The next stage of the request in hand. */
    method NextStage(request: Request, operation: Operation, next: PlatformStatus, ghost done: seq<Answer>)
      requires Shape() && outstanding == request && request.operation != Init && operation != Init && ending == null
      modifies this`outstanding, this`stuck, this`answers, request`operation
      ensures Shape()
      ensures var r := Abstract(request);
              Abs() == old(Abs()).(phase := if next == Ok then Waiting(operation, r, done) else Stuck(r))
    {
      request.operation := operation;
      outstanding := null;
      GoOn(request, next, done);
    }

    /** ns_nvm_callback_func: the platform completes what it was asked for. */
    method CallbackFunc(status: PlatformStatus, request: Request, next: PlatformStatus, cs: seq<Call>,
                        refusals: seq<seq<Call>>)
      requires Valid() && outstanding == request && MayComplete(Abs(), status, cs, refusals)
      modifies this, live
      ensures Valid() && fresh(live - old(live))
      ensures Abs() == Complete(old(Abs()), status, next, cs, refusals)
    {
      ghost var t := CompleteKeepsInv(Abs(), status, next, cs, refusals);
      Dispatch(status, request, next, cs, refusals);
    }

    method Dispatch(status: PlatformStatus, request: Request, next: PlatformStatus, cs: seq<Call>,
                    refusals: seq<seq<Call>>)
      requires Shape() && ending == null && initialized && outstanding == request && AcceptedAreOk(Abs())
      requires MayComplete(Abs(), status, cs, refusals)
      modifies this, live
      ensures Shape() && ending == null && fresh(live - old(live))
      ensures Abs() == Complete(old(Abs()), status, next, cs, refusals)
    {
      ghost var done := answers + [Answer(request.operation, status)];
      var clientRetval := NvmOk;
      if status == Error {
        clientRetval := NvmError;
      } else if status == KeyNotFound {
        clientRetval := DataNotFound;
      }
      match request.operation {
        case Init =>
          InitDone(request, next);
        case Flush =>
          OperationEnd(request, clientRetval, cs, done, refusals);
        case KeyRead =>
          OperationEnd(request, clientRetval, cs, done, refusals);
        case KeyCreate =>
          if status == Ok {
            NextStage(request, KeyWrite, next, done);
          } else {
            OperationEnd(request, clientRetval, cs, done, refusals);
          }
        case KeyDelete =>
          if status == Ok {
            NextStage(request, Flush, next, done);
          } else {
            OperationEnd(request, clientRetval, cs, done, refusals);
          }
        case KeyWrite =>
          if status == Ok {
            NextStage(request, Flush, next, done);
          } else {
            OperationEnd(request, clientRetval, cs, done, refusals);
          }
      }
    }

    /** The init case: the original request goes on, the init request is freed. */
    method InitDone(request: Request, next: PlatformStatus)
      requires Shape() && outstanding == request && request.operation == Init && initialized && ending == null
      modifies this, live
      ensures Shape() && ending == null && fresh(live - old(live))
      ensures var p := old(Abs()).phase.req;
              Abs() == if next == Ok then old(Abs()).(inProgress := true, phase := Waiting(Plan(p.kind)[0], p, []))
                       else old(Abs()).(inProgress := false, phase := Idle, dropped := old(dropped) + [p],
                                           stranded := old(Abs()).queue)
    {
      var original := request.originalRequest;
      StartOriginal(request, original, next);
      if next != Ok {
        RecordDrop(Abstract(original));
      }
    }

    method StartOriginal(request: Request, original: Request, next: PlatformStatus)
      requires Shape() && outstanding == request && request.operation == Init && initialized && ending == null
      requires original == request.originalRequest
      modifies this`operationInProgress, this`outstanding, this`live, this`answers, original`operation
      ensures Shape() && live <= old(live) && (operationInProgress <==> next == Ok)
      ensures CurrentPhase() == if next == Ok then Waiting(Plan(original.kind)[0], Abstract(original), []) else Idle
    {
      outstanding := null;
      var _ := OperationContinue(original, true, next);
      FreeRequest(request);
    }

    ghost method RecordDrop(r: Req)
      requires Shape()
      modifies this`dropped, this`stranded
      ensures Shape() && Abs() == old(Abs()).(dropped := old(dropped) + [r], stranded := old(Abs()).queue)
    {
      dropped, stranded := dropped + [r], AbstractAll(requestList);
    }

    /** At rest, with no request dropped, all memory has been given back. */
    lemma NothingLeaks()
      requires Valid() && !operationInProgress && dropped == []
      ensures live == {}
    {
      assert AbstractAll(requestList) == Abs().queue == [];
    }
  }
}
