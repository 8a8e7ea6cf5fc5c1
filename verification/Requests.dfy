/**
  src/downstream/request.cc and request_context.h: one request and its retries.

  `env` is what the world answers to each attempt.  The HTTP layer is taken to call back
  exactly once for a request that it accepted.
*/
module Requests {
  import opened Basics
  import opened HashRing
  import opened HostGroups

  datatype Err = Ok | BadRequest | ConnectFail | BadResponse | SelectHostFail | Http(qec: int)

  const HTTP_OK := 0
  const CALLER_ERROR := 10

  /** How an attempt ends: no memory or connection, a request that cannot be sent, or a callback. */
  datatype Answer = SetupFails | SendFails | Response(qec: int, code: Option<int>)

  datatype Attempt = Attempt(answer: Answer, failures: seq<nat>, alive: seq<bool>)

  /** ConvertToErrCode: lines 26-66. */
  function Convert(qec: int, code: Option<int>, err: Err): (ec: Err)
    ensures ec == Ok <==> qec == HTTP_OK && if code.Some? then code.value == 200 else err == Ok
    ensures qec == HTTP_OK && code.Some? && code.value != 200 ==> ec == BadResponse
    ensures err != Ok && (qec != HTTP_OK || code.None?) ==> ec == err
    ensures err == Ok && qec != HTTP_OK ==> ec == Http(qec + 1000)
  {
    if code.Some? && qec == HTTP_OK then (if code.value == 200 then Ok else BadResponse)
    else if err != Ok then err
    else if qec == HTTP_OK then Ok
    else Http(qec + 1000)
  }

  /** The error in which an answered attempt ends; one that could not be set up does not end in any. */
  ghost predicate EndsIn(answer: Answer, e: Err) {
    match answer
    case SetupFails => false
    case SendFails => e == ConnectFail
    case Response(qec, code) =>
      if qec != HTTP_OK then e == Http(qec + 1000)
      else if code == None || code == Some(200) then e == Ok
      else e == BadResponse
  }

  /** Each attempt has ended as the world answered it. */
  ghost predicate Answered(env: nat -> Attempt, ended: seq<Err>) {
    forall k :: 0 <= k < |ended| ==> EndsIn(env(k).answer, ended[k])
  }

  /** No master is asked twice, and a slave only after every master has been asked. */
  ghost predicate FairlyChosen(tried: seq<Choice>, masters: nat, ring: bool) {
    && (forall k :: 0 <= k < |tried| ==> !tried[k].NoHost? && (tried[k].Master? ==> tried[k].idx < masters))
    && (forall j, k :: 0 <= j < k < |tried| && tried[j].Master? ==> tried[k] != tried[j])
    && (forall k :: 0 <= k < |tried| && tried[k].Slave? && ring ==>
      forall m: nat :: m < masters ==> Choice.Master(m) in tried[..k])
  }

  ghost function MastersIn(tried: seq<Choice>): set<nat> {
    set c | c in tried && c.Master? :: c.idx
  }

  class RequestContext {
    const group: HostGroup
    const hash: nat
    const maxRetry: nat
    var retryNum: nat
    var errCode: Err
    var history: set<nat>
    var host: Choice
    /** Calls of the response handler, the hosts of the attempts so far, and how each ended. */
    ghost var calls: seq<Err>
    ghost var tried: seq<Choice>
    ghost var ended: seq<Err>

    constructor (group: HostGroup, hash: nat, maxRetry: nat)
      ensures this.group == group && this.hash == hash && this.maxRetry == maxRetry
      ensures retryNum == 0 && errCode == Ok && history == {} && calls == [] && tried == [] && ended == []
    {
      this.group, this.hash, this.maxRetry := group, hash, maxRetry;
      retryNum, errCode, history, host := 0, Ok, {}, NoHost;
      calls, tried, ended := [], [], [];
    }

    /** The ring, if there is one, has its nodes and holds the hash. */
    ghost predicate Ready()
      reads group
    {
      group.nodes != [] ==> group.Populated() && InBounds(group.nodes, hash)
    }

    /** The host of attempt `k`: the next master clockwise from the hash, or the slave for that retry. */
    ghost predicate Fit(env: nat -> Attempt, before: seq<Choice>, c: Choice, k: nat)
      requires Ready() && |env(k).failures| == |env(k).alive|
      reads group
    {
      match c
      case Master(m) =>
        group.nodes != []
        && group.NextUntried(GetHashIdx(Offsets(group.nodes), 0, |group.nodes|, hash).i % |group.nodes|, MastersIn(before), m)
      case Slave(i) => SlaveFor(hash, k, env(k).failures, env(k).alive, i)
      case NoHost => false
    }

    ghost predicate AllFit(env: nat -> Attempt, tried: seq<Choice>)
      requires Ready() && forall n :: |env(n).failures| == |env(n).alive| == group.slaves
      reads group
    {
      forall k :: 0 <= k < |tried| ==> Fit(env, tried[..k], tried[k], k)
    }

    lemma OneMoreFits(env: nat -> Attempt, tried: seq<Choice>, c: Choice)
      requires Ready() && forall n :: |env(n).failures| == |env(n).alive| == group.slaves
      requires AllFit(env, tried) && Fit(env, tried, c, |tried|)
      ensures AllFit(env, tried + [c])
    {
      hide Ready, Fit;
      var t := tried + [c];
      forall k | 0 <= k < |t|
        ensures Fit(env, t[..k], t[k], k)
      {
        assert t[..k] == tried[..k];
        if k == |tried| {
          assert tried[..k] == tried;
        }
      }
    }

    /** Before attempt number retryNum. */
    ghost predicate Pending()
      reads this, group
    {
      && Ready() && retryNum <= maxRetry && calls == [] && |tried| == |ended| == retryNum
      && FairlyChosen(tried, group.masters, group.nodes != [])
      && (forall m: nat :: m in history <==> Choice.Master(m) in tried)
      && (forall k :: 0 <= k < |ended| ==> ended[k] != Ok)
    }

    /** After the response handler has been called. */
    ghost predicate Finished()
      reads this, group
    {
      && Ready() && |calls| == 1 && |tried| <= retryNum + 1 <= maxRetry + 1 && |ended| <= |tried|
      && FairlyChosen(tried, group.masters, group.nodes != [])
      && (forall k :: 0 <= k < |ended| - 1 ==> ended[k] != Ok)
      && (if |ended| == retryNum + 1
          then calls[0] == ended[retryNum] && (calls[0] == Ok || retryNum == maxRetry)
          else |ended| == retryNum && calls[0] == BadRequest && (ended == [] || ended[|ended| - 1] != Ok))
    }

    /** A bad request is reported for an attempt that was not sent: it could not be set up, or no host was left. */
    ghost predicate NotSent(env: nat -> Attempt)
      requires forall n :: |env(n).failures| == |env(n).alive| == group.slaves
      reads this, group
    {
      |ended| == retryNum ==>
        if |tried| > |ended| then env(retryNum).answer.SetupFails?
        else
          && (group.nodes == [] || forall m: nat :: m < group.masters ==> Choice.Master(m) in tried)
          && forall j :: 0 <= j < group.slaves ==> env(retryNum).failures[j] > 0 && !env(retryNum).alive[j]
    }

    /** Lines 188-326: one attempt, and what follows from it. */
    method Execute(env: nat -> Attempt)
      requires Pending() && Answered(env, ended) && forall n :: |env(n).failures| == |env(n).alive| == group.slaves
      requires AllFit(env, tried)
      modifies this
      ensures Finished() && Answered(env, ended) && AllFit(env, tried)
      ensures NotSent(env)
      decreases maxRetry - retryNum, 2
    {
      hide FairlyChosen, Answered, Convert, Fit, AllFit, SlaveFor, MastersIn, InBounds;
      var attempt := env(retryNum);
      Select(attempt, env);
      if host.NoHost? {
        errCode := SelectHostFail;
        calls := calls + [BadRequest];
        return;
      }
      match attempt.answer
      case SetupFails =>
        calls := calls + [BadRequest];
      case SendFails =>
        errCode := ConnectFail;
        HowItEnds(attempt.answer, CALLER_ERROR, None, errCode);
        HandleResponse(CALLER_ERROR, None, env);
      case Response(qec, code) =>
        errCode := Ok;
        HowItEnds(attempt.answer, qec, code, errCode);
        HandleResponse(qec, code, env);
    }

    lemma HowItEnds(answer: Answer, qec: int, code: Option<int>, err: Err)
      requires answer == (if err == Ok then Response(qec, code) else SendFails)
      requires err == Ok || (err == ConnectFail && qec == CALLER_ERROR && code == None)
      ensures EndsIn(answer, Convert(qec, code, err))
    {
    }

    /** The host of the attempt: line 198. */
    method Select(attempt: Attempt, ghost env: nat -> Attempt)
      requires Pending() && attempt == env(retryNum) && forall n :: |env(n).failures| == |env(n).alive| == group.slaves
      requires AllFit(env, tried)
      modifies `host, `history, `tried
      ensures Ready() && FairlyChosen(tried, group.masters, group.nodes != []) && AllFit(env, tried)
      ensures forall m: nat :: m in history <==> Choice.Master(m) in tried
      ensures tried == if host.NoHost? then old(tried) else old(tried) + [host]
      ensures host.NoHost? ==>
        && (group.nodes == [] || forall m: nat :: m < group.masters ==> Choice.Master(m) in tried)
        && forall j :: 0 <= j < group.slaves ==> attempt.failures[j] > 0 && !attempt.alive[j]
    {
      hide FairlyChosen, AllFit, SlaveFor;
      assert history == MastersIn(tried) by { assert forall m: nat :: Choice.Master(m).idx == m; }
      host, history := group.SelectHost(hash, history, retryNum, attempt.failures, attempt.alive);
      if !host.NoHost? {
        Chosen(tried, host);
        OneMoreFits(env, tried, host);
        tried := tried + [host];
      }
    }

    lemma Chosen(before: seq<Choice>, c: Choice)
      requires FairlyChosen(before, group.masters, group.nodes != []) && !c.NoHost?
      requires c.Master? ==> c.idx < group.masters && c !in before
      requires c.Slave? && group.nodes != [] ==> forall m: nat :: m < group.masters ==> Choice.Master(m) in before
      ensures FairlyChosen(before + [c], group.masters, group.nodes != [])
    {
      var t := before + [c];
      forall k | 0 <= k < |t| && t[k].Slave? && group.nodes != []
        ensures forall m: nat :: m < group.masters ==> Choice.Master(m) in t[..k]
      {
        assert t[..k] == before[..k];
      }
      assert before[..|before|] == before;
    }

    /** HandlerResponse: lines 132-181. */
    method HandleResponse(qec: int, code: Option<int>, env: nat -> Attempt)
      requires Ready() && retryNum <= maxRetry && calls == [] && |tried| == retryNum + 1 && |ended| == retryNum
      requires FairlyChosen(tried, group.masters, group.nodes != [])
      requires forall m: nat :: m in history <==> Choice.Master(m) in tried
      requires Answered(env, ended) && forall k :: 0 <= k < |ended| ==> ended[k] != Ok
      requires EndsIn(env(retryNum).answer, Convert(qec, code, errCode))
      requires forall n :: |env(n).failures| == |env(n).alive| == group.slaves
      requires AllFit(env, tried)
      modifies this
      ensures Finished() && Answered(env, ended) && AllFit(env, tried)
      ensures NotSent(env)
      decreases maxRetry - retryNum, 1
    {
      var ec := Convert(qec, code, errCode);
      if ec != Ok {
        errCode := ec;
      }
      ended := ended + [ec];
      if ec != Ok {
        var again := TryAgain(env);
        if again {
          return;
        }
      }
      calls := calls + [ec];
    }

    /** RequestContext::TryAgain. */
    method TryAgain(env: nat -> Attempt) returns (again: bool)
      requires Ready() && retryNum <= maxRetry && calls == [] && |tried| == |ended| == retryNum + 1
      requires FairlyChosen(tried, group.masters, group.nodes != [])
      requires forall m: nat :: m in history <==> Choice.Master(m) in tried
      requires Answered(env, ended) && forall k :: 0 <= k < |ended| ==> ended[k] != Ok
      requires forall n :: |env(n).failures| == |env(n).alive| == group.slaves
      requires AllFit(env, tried)
      modifies this
      ensures again <==> old(retryNum) < maxRetry
      ensures Ready() && Answered(env, ended) && AllFit(env, tried)
      ensures again ==> Finished() && NotSent(env)
      ensures !again ==> calls == [] && tried == old(tried) && ended == old(ended) && retryNum == old(retryNum)
      decreases maxRetry - retryNum, 0
    {
      if retryNum >= maxRetry {
        return false;
      }
      retryNum := retryNum + 1;
      Execute(env);
      again := true;
    }
  }

  /** Request::Execute: the handler is called once, after at most maxRetry + 1 attempts. */
  method Run(group: HostGroup, hash: nat, maxRetry: nat, env: nat -> Attempt)
    returns (ctx: RequestContext)
    requires group.nodes != [] ==> group.Populated() && InBounds(group.nodes, hash)
    requires forall n :: |env(n).failures| == |env(n).alive| == group.slaves
    ensures |ctx.calls| == 1 && |ctx.ended| <= |ctx.tried| <= maxRetry + 1
    ensures FairlyChosen(ctx.tried, group.masters, group.nodes != [])
    ensures ctx.hash == hash && ctx.group == group && ctx.Ready() && ctx.AllFit(env, ctx.tried)
    ensures forall k :: 0 <= k < |ctx.ended| ==> EndsIn(env(k).answer, ctx.ended[k])
    ensures forall k :: 0 <= k < |ctx.ended| ==>
      (ctx.ended[k] == Ok <==>
        env(k).answer.Response? && env(k).answer.qec == HTTP_OK && env(k).answer.code in {None, Some(200)})
    ensures forall k :: 0 <= k < |ctx.ended| - 1 ==> ctx.ended[k] != Ok
    ensures var n := |ctx.ended|;
      if n > 0 && (n == maxRetry + 1 || ctx.ended[n - 1] == Ok)
      then |ctx.tried| == n && ctx.calls[0] == ctx.ended[n - 1]
      else
        && ctx.calls[0] == BadRequest
        && (if |ctx.tried| > n then env(n).answer.SetupFails?
            else
              && (group.nodes == [] || forall m: nat :: m < group.masters ==> Choice.Master(m) in ctx.tried)
              && forall j :: 0 <= j < group.slaves ==> env(n).failures[j] > 0 && !env(n).alive[j])
  {
    ctx := new RequestContext(group, hash, maxRetry);
    ctx.Execute(env);
  }
}
