/**
 * The submission client and poll engine of faasmctl/util/invoke.py.
 *
 * Admission (`invoke_and_await`, `invoke_without_wait`) POSTs the batch up to
 * a fixed number of times, retrying only on the (500, "No available hosts")
 * answer and sleeping after each one. Polling (`invoke_and_await`,
 * `query_result`) sleeps, POSTs a status query, and goes on while the planner
 * answers "App not registered in results" or reports an unfinished batch.
 *
 * Each loop is a method over an `Endpoint`, proved against functions of the
 * scripted responses: which response ends the loop, what is returned, and
 * the exact sequence of POSTs and sleeps. The lemmas state what those
 * functions mean.
 */
module Invoke {
  import opened Wrappers
  import opened Errors
  import opened Planner
  import Batch
  import MapCodec

  const AwaitRetries: nat := 10
  const NoWaitRetries: nat := 100
  const RetryPauseMillis: nat := 500
  const AwaitPollMillis: nat := 2000
  const QueryPollMillis: nat := 500
  const NoAvailableHosts: string := "No available hosts"
  const NotRegistered: string := "App not registered in results"

  function Min(a: int, b: int): int {
    if a < b then a else b
  }

  // ===== Admission =====

  /** The one answer admission retries on. */
  predicate IsNoHosts(r: Response) {
    r.code == 500 && r.text == NoAvailableHosts
  }

  /** How many responses at the front of `rs` are the "No available hosts" answer. */
  function LeadingNoHosts(rs: seq<Response>): (k: nat)
    ensures k <= |rs|
    ensures forall i :: 0 <= i < k ==> IsNoHosts(rs[i])
    ensures k < |rs| ==> !IsNoHosts(rs[k])
  {
    if rs != [] && IsNoHosts(rs[0]) then 1 + LeadingNoHosts(rs[1..]) else 0
  }

  function AdmissionRound(msg: PlannerMsg): seq<Event> {
    [Event.Post(msg), Event.Sleep(RetryPauseMillis)]
  }

  /** What admission does: a POST and a pause for each "No available hosts"
      answer it gets, up to `limit` of them, then one last POST if the limit
      was not reached. */
  function AdmissionLog(msg: PlannerMsg, rs: seq<Response>, limit: nat): seq<Event> {
    var k := LeadingNoHosts(rs);
    Rounds(AdmissionRound(msg), Min(k, limit)) + (if k < limit then [Event.Post(msg)] else [])
  }

  /** How many scripted responses admission consumes. */
  function AdmissionTaken(rs: seq<Response>, limit: nat): (n: nat)
    ensures n <= |rs|
  {
    var k := LeadingNoHosts(rs);
    if k >= limit then limit else if k < |rs| then k + 1 else k
  }

  /** The response admission ends with; `None` when the script ran out first. */
  function AdmissionReply(rs: seq<Response>, limit: nat): Option<Response>
    requires limit > 0
  {
    var k := LeadingNoHosts(rs);
    if k >= limit then Some(rs[limit - 1]) else if k < |rs| then Some(rs[k]) else None
  }

  /** With k leading "No available hosts" answers, admission sends min(k + 1, limit)
      POSTs, never more than the limit, and pauses min(k, limit) times. */
  lemma AdmissionAttempts(msg: PlannerMsg, rs: seq<Response>, limit: nat)
    requires limit > 0
    ensures CountPosts(AdmissionLog(msg, rs, limit)) == Min(LeadingNoHosts(rs) + 1, limit)
    ensures CountSleeps(AdmissionLog(msg, rs, limit)) == Min(LeadingNoHosts(rs), limit)
    ensures CountPosts(AdmissionLog(msg, rs, limit)) <= limit
  {
    var k := LeadingNoHosts(rs);
    AdmissionLogCounts(msg, Min(k, limit), k < limit);
  }

  lemma AdmissionLogCounts(msg: PlannerMsg, n: nat, last: bool)
    ensures var log := Rounds(AdmissionRound(msg), n) + (if last then [Event.Post(msg)] else []);
            CountPosts(log) == n + (if last then 1 else 0) && CountSleeps(log) == n
  {
    var round := AdmissionRound(msg);
    CountsOfRounds(round, n);
    CountsOfPair(Event.Post(msg), Event.Sleep(RetryPauseMillis));
    var tail: seq<Event> := if last then [Event.Post(msg)] else [];
    assert CountPosts(tail) == (if last then 1 else 0) && CountSleeps(tail) == 0 by {
      assert tail != [] ==> tail[..0] == [];
    }
    CountsOfConcat(Rounds(round, n), tail);
  }

  /** Admission ends on the first answer that is not "No available hosts" (a 500
      with other text included), ends on that answer only once the retries are
      spent, and has no answer only when the script ran out first. */
  lemma AdmissionEnds(rs: seq<Response>, limit: nat)
    requires limit > 0
    ensures rs != [] && !IsNoHosts(rs[0]) ==>
              AdmissionReply(rs, limit) == Some(rs[0]) && AdmissionTaken(rs, limit) == 1
    ensures AdmissionReply(rs, limit).Some? && IsNoHosts(AdmissionReply(rs, limit).value) ==>
              LeadingNoHosts(rs) >= limit
    ensures AdmissionReply(rs, limit).None? <==> LeadingNoHosts(rs) == |rs| < limit
  {
    var k := LeadingNoHosts(rs);
    if k < limit && k < |rs| {
      assert !IsNoHosts(rs[k]);
    }
  }

  /** Entry `j` of the admission log: POST and pause alternate, POST first. */
  lemma AdmissionLogAt(msg: PlannerMsg, rs: seq<Response>, limit: nat, j: int)
    requires 0 <= j < |AdmissionLog(msg, rs, limit)|
    ensures AdmissionLog(msg, rs, limit)[j] == if j % 2 == 0 then Event.Post(msg) else Event.Sleep(RetryPauseMillis)
  {
    var n := Min(LeadingNoHosts(rs), limit);
    var round := AdmissionRound(msg);
    RoundsLength(round, n);
    assert |Rounds(round, n)| == 2 * n;
    if j < 2 * n {
      var r, p := j / 2, j % 2;
      assert j == r * 2 + p;
      RoundsAt(round, n, r, p);
    }
  }

  /** Admission alternates a POST of the batch and a pause, POST first: every
      pause comes straight after a POST, and every POST carries the batch. */
  lemma AdmissionAlternates(msg: PlannerMsg, rs: seq<Response>, limit: nat)
    ensures forall j :: 0 <= j < |AdmissionLog(msg, rs, limit)| ==>
              AdmissionLog(msg, rs, limit)[j] == if j % 2 == 0 then Event.Post(msg) else Event.Sleep(RetryPauseMillis)
  {
    forall j | 0 <= j < |AdmissionLog(msg, rs, limit)|
      ensures AdmissionLog(msg, rs, limit)[j] == if j % 2 == 0 then Event.Post(msg) else Event.Sleep(RetryPauseMillis)
    {
      AdmissionLogAt(msg, rs, limit, j);
    }
  }

  /** The admission loop of `invoke_and_await` (limit 10) and of `invoke_without_wait` (limit 100). */
  method Admit(planner: Endpoint, msg: PlannerMsg, limit: nat) returns (reply: Option<Response>)
    requires limit > 0
    modifies planner
    ensures reply == AdmissionReply(old(planner.responses), limit)
    ensures planner.responses == old(planner.responses)[AdmissionTaken(old(planner.responses), limit)..]
    ensures planner.log == old(planner.log) + AdmissionLog(msg, old(planner.responses), limit)
  {
    ghost var rs := planner.responses;
    ghost var log0 := planner.log;
    reply := None;
    var i := 0;
    while i < limit
      invariant 0 <= i <= limit
      invariant i <= LeadingNoHosts(rs)
      invariant planner.responses == rs[i..]
      invariant planner.log == log0 + Rounds(AdmissionRound(msg), i)
      invariant i > 0 ==> reply == Some(rs[i - 1])
    {
      var r := planner.Post(msg);
      if r.None? {
        return None;
      }
      reply := r;
      if IsNoHosts(r.value) {
        planner.Sleep(RetryPauseMillis);
        i := i + 1;
      } else {
        return;
      }
    }
  }

  // ===== Polling =====

  /** A poll response that ends the loop: any failure other than "App not
      registered in results", or a 200 whose status is finished or does not parse. */
  predicate Stops(r: Response) {
    if r.code != 200 then r.text != NotRegistered else r.parsed.None? || r.parsed.value.finished
  }

  /** The index of the first response that ends the loop, or `|rs|` when none does. */
  function FirstStop(rs: seq<Response>): (j: nat)
    ensures j <= |rs|
    ensures forall i :: 0 <= i < j ==> !Stops(rs[i])
    ensures j < |rs| ==> Stops(rs[j])
  {
    if rs == [] || Stops(rs[0]) then 0 else 1 + FirstStop(rs[1..])
  }

  /** What the poll loop returns, `held` being the status it holds on entry. */
  function PollOutcome(rs: seq<Response>, held: Option<BatchStatus>): Result<Option<BatchStatus>, Failure>
    decreases |rs|
  {
    if rs == [] then Err(ScriptEnded)
    else
      var r := rs[0];
      if r.code != 200 then
        if r.text == NotRegistered then PollOutcome(rs[1..], held) else Ok(held)
      else
        match r.parsed
        case None => Err(ParseError)
        case Some(s) => if s.finished then Ok(Some(s)) else PollOutcome(rs[1..], Some(s))
  }

  function PollRound(msg: PlannerMsg, period: nat): seq<Event> {
    [Event.Sleep(period), Event.Post(msg)]
  }

  /** What polling does: a pause and then a POST of the same query, once per response up to the one that ends it. */
  function PollLog(msg: PlannerMsg, period: nat, rs: seq<Response>): seq<Event> {
    Rounds(PollRound(msg, period), FirstStop(rs) + 1)
  }

  function PollTaken(rs: seq<Response>): (n: nat)
    ensures n <= |rs|
  {
    if FirstStop(rs) < |rs| then FirstStop(rs) + 1 else |rs|
  }

  /** The status of the last 200 response of `rs`, or `held` if there is none. */
  function LastOk(rs: seq<Response>, held: Option<BatchStatus>): Option<BatchStatus> {
    if rs == [] then held
    else if rs[|rs| - 1].code == 200 then rs[|rs| - 1].parsed
    else LastOk(rs[..|rs| - 1], held)
  }

  lemma {:induction false} LastOkCons(r: Response, rs: seq<Response>, held: Option<BatchStatus>)
    ensures LastOk([r] + rs, held) == LastOk(rs, if r.code == 200 then r.parsed else held)
  {
    if rs != [] {
      assert ([r] + rs)[..|[r] + rs| - 1] == [r] + rs[..|rs| - 1];
      LastOkCons(r, rs[..|rs| - 1], held);
    } else {
      assert [r] + rs == [r];
      assert [r][..0] == [];
    }
  }

  /** Where the poll loop stops and what it returns: the script runs out, or it
      stops at response j = FirstStop(rs); a failure there returns the status of
      the last 200 before j (or the one held on entry), a 200 there returns the
      finished status or raises on an unparsable one. */
  lemma {:induction false} PollOutcomeAt(rs: seq<Response>, held: Option<BatchStatus>)
    ensures FirstStop(rs) == |rs| ==> PollOutcome(rs, held) == Err(ScriptEnded)
    ensures FirstStop(rs) < |rs| && rs[FirstStop(rs)].code != 200 ==>
              PollOutcome(rs, held) == Ok(LastOk(rs[..FirstStop(rs)], held))
    ensures FirstStop(rs) < |rs| && rs[FirstStop(rs)].code == 200 ==>
              PollOutcome(rs, held) == (if rs[FirstStop(rs)].parsed.None? then Err(ParseError)
                                        else Ok(rs[FirstStop(rs)].parsed))
  {
    if rs != [] && !Stops(rs[0]) {
      var r := rs[0];
      var next := if r.code == 200 then r.parsed else held;
      assert PollOutcome(rs, held) == PollOutcome(rs[1..], next);
      PollOutcomeAt(rs[1..], next);
      var j := FirstStop(rs);
      assert FirstStop(rs[1..]) == j - 1;
      assert j < |rs| ==> rs[j] == rs[1..][j - 1];
      assert rs[..j] == [r] + rs[1..][..j - 1];
      LastOkCons(r, rs[1..][..j - 1], held);
    } else if rs != [] {
      assert rs[..0] == [];
    }
  }

  /** A loop entered with a status always has one to return. */
  lemma {:induction false} PollKeepsStatus(rs: seq<Response>, held: Option<BatchStatus>)
    requires held.Some?
    ensures PollOutcome(rs, held).Ok? ==> PollOutcome(rs, held).value.Some?
  {
    if rs != [] && !Stops(rs[0]) {
      PollKeepsStatus(rs[1..], if rs[0].code == 200 then rs[0].parsed else held);
    }
  }

  /** A loop entered without a status ends without one exactly when it stops on
      a failure before any 200 arrived. */
  lemma {:induction false} PollUnboundIff(rs: seq<Response>)
    ensures PollOutcome(rs, None) == Ok(None) <==>
              && FirstStop(rs) < |rs| && rs[FirstStop(rs)].code != 200
              && forall i :: 0 <= i < FirstStop(rs) ==> rs[i].code != 200
  {
    if rs != [] && !Stops(rs[0]) {
      if rs[0].code == 200 {
        PollKeepsStatus(rs[1..], rs[0].parsed);
      } else {
        PollUnboundIff(rs[1..]);
        assert forall i :: 1 <= i < FirstStop(rs) ==> rs[i] == rs[1..][i - 1];
      }
    }
  }

  /** Each POST of the poll loop comes straight after a pause of `period`, and all
      carry the same query: POSTs and pauses alternate, pause first. */
  lemma PollAlternates(msg: PlannerMsg, period: nat, rs: seq<Response>)
    ensures |PollLog(msg, period, rs)| == 2 * (FirstStop(rs) + 1)
    ensures forall j :: 0 <= j < |PollLog(msg, period, rs)| ==>
              PollLog(msg, period, rs)[j] == if j % 2 == 0 then Event.Sleep(period) else Event.Post(msg)
    ensures CountPosts(PollLog(msg, period, rs)) == FirstStop(rs) + 1
    ensures CountSleeps(PollLog(msg, period, rs)) == FirstStop(rs) + 1
  {
    var n := FirstStop(rs) + 1;
    var round := PollRound(msg, period);
    RoundsLength(round, n);
    forall j | 0 <= j < 2 * n
      ensures Rounds(round, n)[j] == if j % 2 == 0 then Event.Sleep(period) else Event.Post(msg)
    {
      var r, p := j / 2, j % 2;
      assert j == r * 2 + p;
      RoundsAt(round, n, r, p);
    }
    CountsOfRounds(round, n);
    CountsOfPair(Event.Sleep(period), Event.Post(msg));
  }

  /** The `while True` poll loop of `invoke_and_await` and `query_result`. */
  method Poll(planner: Endpoint, msg: PlannerMsg, period: nat, held0: Option<BatchStatus>)
    returns (res: Result<Option<BatchStatus>, Failure>)
    modifies planner
    ensures res == PollOutcome(old(planner.responses), held0)
    ensures planner.responses == old(planner.responses)[PollTaken(old(planner.responses))..]
    ensures planner.log == old(planner.log) + PollLog(msg, period, old(planner.responses))
  {
    ghost var rs := planner.responses;
    ghost var log0 := planner.log;
    ghost var n := 0;
    var held := held0;
    while true
      invariant n <= FirstStop(rs)
      invariant planner.responses == rs[n..]
      invariant planner.log == log0 + Rounds(PollRound(msg, period), n)
      invariant PollOutcome(rs[n..], held) == PollOutcome(rs, held0)
      decreases |planner.responses|
    {
      planner.Sleep(period);
      var r := planner.Post(msg);
      if r.None? {
        return Err(ScriptEnded);
      }
      var response := r.value;
      assert response == rs[n] && rs[n..][1..] == rs[n + 1..];
      if response.code != 200 {
        if response.text != NotRegistered {
          return Ok(held);
        }
      } else {
        if response.parsed.None? {
          return Err(ParseError);
        }
        held := response.parsed;
        if held.value.finished {
          return Ok(held);
        }
      }
      n := n + 1;
    }
  }

  // ===== invoke_and_await =====

  function StatusMsg(status: BatchStatus): PlannerMsg {
    PlannerMsg(ExecuteBatchStatus, StatusPayload(status))
  }

  /** The status query body: the parsed admission response with the client's expected count. */
  function StatusBody(reply: Response, expected: int): BatchStatus
    requires reply.parsed.Some?
  {
    reply.parsed.value.(expectedNumMessages := expected)
  }

  /** What `invoke_and_await(msg, expected)` returns, given the planner's responses. */
  function AwaitOutcome(rs: seq<Response>, expected: int): Result<BatchStatus, Failure> {
    match AdmissionReply(rs, AwaitRetries)
    case None => Err(ScriptEnded)
    case Some(reply) =>
      if reply.parsed.None? then Err(ParseError)
      else
        var body := StatusBody(reply, expected);
        match PollOutcome(rs[AdmissionTaken(rs, AwaitRetries)..], Some(body))
        case Err(e) => Err(e)
        case Ok(held) => Ok(held.GetOr(body))
  }

  /** What `invoke_and_await(msg, expected)` sends and sleeps, given the planner's responses. */
  function AwaitLog(msg: PlannerMsg, rs: seq<Response>, expected: int): seq<Event> {
    AdmissionLog(msg, rs, AwaitRetries) +
    match AdmissionReply(rs, AwaitRetries)
    case None => []
    case Some(reply) =>
      if reply.parsed.None? then []
      else PollLog(StatusMsg(StatusBody(reply, expected)), AwaitPollMillis, rs[AdmissionTaken(rs, AwaitRetries)..])
  }

  /** How many responses `invoke_and_await` consumes: admission's, then the poll loop's when it is reached. */
  function AwaitTaken(rs: seq<Response>): (n: nat)
    ensures n <= |rs|
  {
    var k := AdmissionTaken(rs, AwaitRetries);
    match AdmissionReply(rs, AwaitRetries)
    case None => k
    case Some(reply) => if reply.parsed.None? then k else k + PollTaken(rs[k..])
  }

  /** `invoke_and_await`. A non-200 admission answer is only printed: its text is parsed all the same. */
  method InvokeAndAwait(planner: Endpoint, msg: PlannerMsg, expected: int) returns (res: Result<BatchStatus, Failure>)
    modifies planner
    ensures res == AwaitOutcome(old(planner.responses), expected)
    ensures planner.responses == old(planner.responses)[AwaitTaken(old(planner.responses))..]
    ensures planner.log == old(planner.log) + AwaitLog(msg, old(planner.responses), expected)
  {
    ghost var rs := planner.responses;
    ghost var k := AdmissionTaken(rs, AwaitRetries);
    var reply := Admit(planner, msg, AwaitRetries);
    if reply.None? {
      return Err(ScriptEnded);
    }
    if reply.value.parsed.None? {
      return Err(ParseError);
    }
    var body := reply.value.parsed.value.(expectedNumMessages := expected);
    var polled := Poll(planner, StatusMsg(body), AwaitPollMillis, Some(body));
    assert rs[k..][PollTaken(rs[k..])..] == rs[k + PollTaken(rs[k..])..];
    match polled {
      case Err(e) =>
        return Err(e);
      case Ok(held) =>
        PollKeepsStatus(rs[AdmissionTaken(rs, AwaitRetries)..], Some(body));
        return Ok(held.value);
    }
  }

  /** The first thing `invoke_and_await` does is POST the batch. */
  lemma AwaitSubmitsFirst(msg: PlannerMsg, rs: seq<Response>, expected: int)
    ensures |AwaitLog(msg, rs, expected)| > 0 && AwaitLog(msg, rs, expected)[0] == Event.Post(msg)
  {
    var n := Min(LeadingNoHosts(rs), AwaitRetries);
    if n > 0 {
      RoundsAt(AdmissionRound(msg), n, 0, 0);
    } else {
      assert Rounds(AdmissionRound(msg), n) == [];
    }
  }

  /** Every status query `invoke_and_await` sends is one and the same body, built
      once, carrying the client's expected message count. */
  lemma AwaitQueriesCarryExpected(msg: PlannerMsg, rs: seq<Response>, expected: int)
    requires msg.op == ExecuteBatch
    ensures forall j :: 0 <= j < |AwaitLog(msg, rs, expected)| && AwaitLog(msg, rs, expected)[j].Post?
                          && AwaitLog(msg, rs, expected)[j].msg.op == ExecuteBatchStatus ==>
              && AwaitLog(msg, rs, expected)[j].msg.payload.StatusPayload?
              && AwaitLog(msg, rs, expected)[j].msg.payload.status.expectedNumMessages == expected
    ensures forall i, j ::
              (&& 0 <= i < |AwaitLog(msg, rs, expected)| && 0 <= j < |AwaitLog(msg, rs, expected)|
               && AwaitLog(msg, rs, expected)[i].Post? && AwaitLog(msg, rs, expected)[i].msg.op == ExecuteBatchStatus
               && AwaitLog(msg, rs, expected)[j].Post? && AwaitLog(msg, rs, expected)[j].msg.op == ExecuteBatchStatus) ==>
              AwaitLog(msg, rs, expected)[i] == AwaitLog(msg, rs, expected)[j]
  {
    var log := AwaitLog(msg, rs, expected);
    var adm := AdmissionLog(msg, rs, AwaitRetries);
    AdmissionAlternates(msg, rs, AwaitRetries);
    var reply := AdmissionReply(rs, AwaitRetries);
    if reply.Some? && reply.value.parsed.Some? {
      var q := StatusMsg(StatusBody(reply.value, expected));
      var rest := rs[AdmissionTaken(rs, AwaitRetries)..];
      PollAlternates(q, AwaitPollMillis, rest);
      var pl := PollLog(q, AwaitPollMillis, rest);
      assert log == adm + pl;
      assert forall i :: 0 <= i < |adm| ==> log[i] == adm[i];
      forall j | 0 <= j < |log| && log[j].Post? && log[j].msg.op == ExecuteBatchStatus
        ensures log[j] == Event.Post(q)
      {
        assert log[j] == pl[j - |adm|];
      }
    } else {
      assert log == adm;
    }
  }

  /** Ten "No available hosts" answers in a row: ten POSTs, ten pauses, and the
      call raises when it parses the last answer's text; no status query is sent. */
  lemma AwaitExhausted(msg: PlannerMsg, rs: seq<Response>, expected: int)
    requires |rs| >= AwaitRetries
    requires forall i :: 0 <= i < AwaitRetries ==> IsNoHosts(rs[i]) && rs[i].parsed.None?
    ensures AwaitOutcome(rs, expected) == Err(ParseError)
    ensures AwaitLog(msg, rs, expected) == Rounds(AdmissionRound(msg), AwaitRetries)
    ensures CountPosts(AwaitLog(msg, rs, expected)) == AwaitRetries
  {
    LeadingAtLeast(rs, AwaitRetries);
    AdmissionAttempts(msg, rs, AwaitRetries);
    assert AwaitLog(msg, rs, expected) == AdmissionLog(msg, rs, AwaitRetries);
    assert Min(LeadingNoHosts(rs) + 1, AwaitRetries) == AwaitRetries;
  }

  lemma {:induction false} LeadingAtLeast(rs: seq<Response>, n: nat)
    requires n <= |rs| && forall i :: 0 <= i < n ==> IsNoHosts(rs[i])
    ensures LeadingNoHosts(rs) >= n
  {
    if n > 0 {
      LeadingAtLeast(rs[1..], n - 1);
    }
  }

  /** An unfinished status comes back only when polling stopped on a failure other than "App not registered in results". */
  lemma AwaitUnfinishedMeansFailure(rs: seq<Response>, expected: int)
    requires AwaitOutcome(rs, expected).Ok? && !AwaitOutcome(rs, expected).value.finished
    ensures var rest := rs[AdmissionTaken(rs, AwaitRetries)..];
            && FirstStop(rest) < |rest|
            && rest[FirstStop(rest)].code != 200 && rest[FirstStop(rest)].text != NotRegistered
  {
    var reply := AdmissionReply(rs, AwaitRetries).value;
    var rest := rs[AdmissionTaken(rs, AwaitRetries)..];
    PollOutcomeAt(rest, Some(StatusBody(reply, expected)));
  }

  /** An accepted batch whose first poll is unfinished and second is finished:
      one submission and exactly two status queries, and the second status is returned. */
  lemma AwaitTwoPolls(msg: PlannerMsg, expected: int, accepted: Response, first: Response, second: Response)
    requires accepted.code == 200 && accepted.parsed.Some?
    requires first.code == 200 && first.parsed.Some? && !first.parsed.value.finished
    requires second.code == 200 && second.parsed.Some? && second.parsed.value.finished
    ensures AwaitOutcome([accepted, first, second], expected) == Ok(second.parsed.value)
    ensures CountPosts(AwaitLog(msg, [accepted, first, second], expected)) == 3
    ensures CountSleeps(AwaitLog(msg, [accepted, first, second], expected)) == 2
  {
    var rs := [accepted, first, second];
    assert LeadingNoHosts(rs) == 0;
    AdmissionAttempts(msg, rs, AwaitRetries);
    var rest := rs[1..];
    assert rest == [first, second] && rest[1..] == [second];
    assert FirstStop(rest) == 1;
    assert AdmissionTaken(rs, AwaitRetries) == 1 && AdmissionReply(rs, AwaitRetries) == Some(accepted);
    assert PollOutcome(rest, Some(StatusBody(accepted, expected))) == PollOutcome([second], first.parsed);
    var q := StatusMsg(StatusBody(accepted, expected));
    PollAlternates(q, AwaitPollMillis, rest);
    CountsOfConcat(AdmissionLog(msg, rs, AwaitRetries), PollLog(q, AwaitPollMillis, rest));
  }

  // ===== invoke_without_wait and query_result =====

  /** `invoke_without_wait`: admission with up to 100 POSTs; a non-200 outcome is only printed. */
  method InvokeWithoutWait(planner: Endpoint, msg: PlannerMsg) returns (res: Outcome<Failure>)
    modifies planner
    ensures res == if AdmissionReply(old(planner.responses), NoWaitRetries).None? then Fail(ScriptEnded) else Pass
    ensures planner.responses == old(planner.responses)[AdmissionTaken(old(planner.responses), NoWaitRetries)..]
    ensures planner.log == old(planner.log) + AdmissionLog(msg, old(planner.responses), NoWaitRetries)
  {
    var reply := Admit(planner, msg, NoWaitRetries);
    if reply.None? {
      return Fail(ScriptEnded);
    }
    return Pass;
  }

  /** The body of `query_result`'s status query: `ParseDict({"appId": app_id}, BatchExecuteRequestStatus())`. */
  function QueryMsg(appId: int): PlannerMsg {
    StatusMsg(BatchStatus(appId, false, 0))
  }

  /** What `query_result` returns: it holds no status until a 200 arrives. */
  function QueryOutcome(rs: seq<Response>): Result<BatchStatus, Failure> {
    match PollOutcome(rs, None)
    case Err(e) => Err(e)
    case Ok(held) => if held.None? then Err(StatusUnbound) else Ok(held.value)
  }

  /** `query_result` raises UnboundLocalError exactly when it stops on a failure before any 200. */
  lemma QueryUnboundIff(rs: seq<Response>)
    ensures QueryOutcome(rs) == Err(StatusUnbound) <==>
              && FirstStop(rs) < |rs| && rs[FirstStop(rs)].code != 200
              && forall i :: 0 <= i < FirstStop(rs) ==> rs[i].code != 200
  {
    PollUnboundIff(rs);
    match PollOutcome(rs, None)
    case Err(e) =>
      PollOutcomeAt(rs, None);
    case Ok(held) =>
      assert QueryOutcome(rs) == Err(StatusUnbound) <==> held.None?;
  }

  /** `query_result(app_id)`. The query is rebuilt on every round but is the same every time, so it is built once here. */
  method QueryResult(planner: Endpoint, appId: int) returns (res: Result<BatchStatus, Failure>)
    modifies planner
    ensures res == QueryOutcome(old(planner.responses))
    ensures planner.responses == old(planner.responses)[PollTaken(old(planner.responses))..]
    ensures planner.log == old(planner.log) + PollLog(QueryMsg(appId), QueryPollMillis, old(planner.responses))
  {
    var polled := Poll(planner, QueryMsg(appId), QueryPollMillis, None);
    match polled {
      case Err(e) =>
        return Err(e);
      case Ok(held) =>
        if held.None? {
          return Err(StatusUnbound);
        }
        return Ok(held.value);
    }
  }

  // ===== invoke_wasm and invoke_wasm_without_wait =====

  /** `req_dict`, defaulted from `msg_dict["user"]` and `msg_dict["function"]`. */
  function DefaultReqDict(reqDict: Option<Batch.ReqDict>, msgDict: Batch.MsgDict): (r: Result<Batch.ReqDict, Failure>)
    ensures r.Err? <==> reqDict.None? && (msgDict.user.None? || msgDict.func.None?)
    ensures r.Err? ==> r.error == KeyMissing
    ensures r.Ok? && reqDict.Some? ==> r.value == reqDict.value
    ensures r.Ok? && reqDict.None? ==> r.value.user == msgDict.user.value && r.value.func == msgDict.func.value
  {
    if reqDict.Some? then Ok(reqDict.value)
    else if msgDict.user.None? || msgDict.func.None? then Err(KeyMissing)
    else Ok(Batch.ReqDict(msgDict.user.value, msgDict.func.value))
  }

  /** The message count the client expects back: the MPI world size when the dict has one. */
  function ExpectedCount(msgDict: Batch.MsgDict, numMessages: int): (r: int)
    ensures msgDict.mpiWorldSize.Some? ==> r == msgDict.mpiWorldSize.value
    ensures msgDict.mpiWorldSize.None? ==> r == numMessages
  {
    msgDict.mpiWorldSize.GetOr(numMessages)
  }

  /** `n` copies of one message, none when `n` is not positive. */
  function Copies(m: Batch.Message, n: int): (r: seq<Batch.Message>)
    ensures |r| == if n > 0 then n else 0
    ensures forall i :: 0 <= i < |r| ==> r[i] == m
    decreases n
  {
    if n <= 0 then [] else Copies(m, n - 1) + [m]
  }

  /** The batch `invoke_wasm` submits, as it is when serialized: before any preload padding. */
  function SubmitMsg(rd: Batch.ReqDict, msgDict: Batch.MsgDict, numMessages: int, gid: int): PlannerMsg {
    PlannerMsg(ExecuteBatch, RequestPayload(
      Batch.Ber(gid, rd.user, rd.func, Copies(Batch.MessageFactory(msgDict, gid), numMessages))))
  }

  /** The scheduling decision `invoke_wasm` preloads: message i of group index i runs on host i. */
  function PreloadMsg(rd: Batch.ReqDict, msgDict: Batch.MsgDict, gid: int, hosts: seq<string>): PlannerMsg {
    PlannerMsg(PreloadSchedulingDecision, RequestPayload(
      Batch.Ber(gid, rd.user, rd.func,
        seq(|hosts|, i requires 0 <= i < |hosts| =>
          Batch.MessageFactory(msgDict, gid).(groupIdx := i, executedHost := hosts[i])))))
  }

  /** How the host-list block of `invoke_wasm` ends: it passes when there is no
      host list; otherwise a list of the wrong length, more messages than hosts,
      and an absent or non-200 answer to the preload are fatal. */
  function PreloadCheck(msgDict: Batch.MsgDict, numMessages: int, hostList: Option<seq<string>>,
                        rs: seq<Response>): (r: Outcome<Failure>)
    ensures r.Pass? && hostList.Some? ==> rs != [] && rs[0].code == 200
  {
    var expected := ExpectedCount(msgDict, numMessages);
    if hostList.None? then Pass
    else if |hostList.value| != expected then Fail(HostListMismatch)
    else if numMessages > expected then Fail(HostIndexOutOfRange)
    else if rs == [] then Fail(ScriptEnded)
    else if rs[0].code != 200 then Fail(PreloadRejected(rs[0].code))
    else Pass
  }

  /** Whether `invoke_wasm` POSTs a preload at all: the host list passed both local checks. */
  predicate SendsPreload(msgDict: Batch.MsgDict, numMessages: int, hostList: Option<seq<string>>) {
    hostList.Some? && |hostList.value| == ExpectedCount(msgDict, numMessages)
    && numMessages <= ExpectedCount(msgDict, numMessages)
  }

  /** What `invoke_wasm` returns, given the planner's responses. */
  function WasmOutcome(msgDict: Batch.MsgDict, numMessages: int, reqDict: Option<Batch.ReqDict>,
                       hostList: Option<seq<string>>, rs: seq<Response>): Result<BatchStatus, Failure>
  {
    match DefaultReqDict(reqDict, msgDict)
    case Err(e) => Err(e)
    case Ok(_) =>
      match PreloadCheck(msgDict, numMessages, hostList, rs)
      case Fail(e) => Err(e)
      case Pass => AwaitOutcome(rs[if hostList.Some? then 1 else 0..], ExpectedCount(msgDict, numMessages))
  }

  /** What `invoke_wasm` sends and sleeps, given the planner's responses. */
  function WasmLog(msgDict: Batch.MsgDict, numMessages: int, reqDict: Option<Batch.ReqDict>,
                   hostList: Option<seq<string>>, gid: int, rs: seq<Response>): seq<Event>
  {
    match DefaultReqDict(reqDict, msgDict)
    case Err(_) => []
    case Ok(rd) =>
      (if SendsPreload(msgDict, numMessages, hostList)
       then [Event.Post(PreloadMsg(rd, msgDict, gid, hostList.value))] else []) +
      match PreloadCheck(msgDict, numMessages, hostList, rs)
      case Fail(_) => []
      case Pass =>
        AwaitLog(SubmitMsg(rd, msgDict, numMessages, gid), rs[if hostList.Some? then 1 else 0..],
                 ExpectedCount(msgDict, numMessages))
  }

  /** How many responses `invoke_wasm` consumes: the preload's answer when it is
      sent, then those of `invoke_and_await` when it is reached. */
  function WasmTaken(msgDict: Batch.MsgDict, numMessages: int, reqDict: Option<Batch.ReqDict>,
                     hostList: Option<seq<string>>, rs: seq<Response>): (n: nat)
    ensures n <= |rs|
  {
    match DefaultReqDict(reqDict, msgDict)
    case Err(_) => 0
    case Ok(_) =>
      match PreloadCheck(msgDict, numMessages, hostList, rs)
      case Fail(_) => if SendsPreload(msgDict, numMessages, hostList) && rs != [] then 1 else 0
      case Pass =>
        var k := if hostList.Some? then 1 else 0;
        k + AwaitTaken(rs[k..])
  }

  /** The first loop of the host-list branch: top the request up with template
      messages to `expected` (no-op when it already has that many). */
  method PadMessages(req: Batch.BatchRequest, msgDict: Batch.MsgDict, expected: int)
    modifies req
    ensures req.appId == old(req.appId) && req.user == old(req.user) && req.func == old(req.func)
    ensures req.messages == old(req.messages) +
              Copies(Batch.MessageFactory(msgDict, req.appId), expected - |old(req.messages)|)
  {
    ghost var before := req.messages;
    var k := |req.messages|;
    while k < expected
      invariant |before| <= k && (k <= expected || k == |before|)
      invariant req.appId == old(req.appId) && req.user == old(req.user) && req.func == old(req.func)
      invariant req.messages == before + Copies(Batch.MessageFactory(msgDict, req.appId), k - |before|)
    {
      req.messages := req.messages + [Batch.MessageFactory(msgDict, req.appId)];
      k := k + 1;
    }
  }

  /** The second loop of the host-list branch: message i gets group index i and
      host `host_list[i]`. At the first index past the host list the group index
      is still set, and then reading `host_list[i]` raises IndexError (`ok`
      false), with the messages before it already updated. */
  method PinHosts(req: Batch.BatchRequest, hosts: seq<string>) returns (ok: bool)
    modifies req
    ensures ok <==> |old(req.messages)| <= |hosts|
    ensures req.appId == old(req.appId) && req.user == old(req.user) && req.func == old(req.func)
    ensures |req.messages| == |old(req.messages)|
    ensures forall i :: 0 <= i < |req.messages| ==>
              req.messages[i] == if i < |hosts| then old(req.messages[i]).(groupIdx := i, executedHost := hosts[i])
                                 else if i == |hosts| then old(req.messages[i]).(groupIdx := i)
                                 else old(req.messages[i])
  {
    ghost var before := req.messages;
    var g := 0;
    while g < |req.messages|
      invariant 0 <= g <= |req.messages| && g <= |hosts|
      invariant req.appId == old(req.appId) && req.user == old(req.user) && req.func == old(req.func)
      invariant |req.messages| == |before|
      invariant forall i :: 0 <= i < |req.messages| ==>
                  req.messages[i] == if i < g then before[i].(groupIdx := i, executedHost := hosts[i]) else before[i]
    {
      req.messages := req.messages[g := req.messages[g].(groupIdx := g)];
      if g >= |hosts| {
        return false;
      }
      req.messages := req.messages[g := req.messages[g].(executedHost := hosts[g])];
      g := g + 1;
    }
    return true;
  }

  /** The preload `invoke_wasm` sends, if any: one POST of the pinned decision. */
  function PreloadLog(rd: Batch.ReqDict, msgDict: Batch.MsgDict, numMessages: int,
                      hostList: Option<seq<string>>, gid: int): seq<Event>
  {
    if SendsPreload(msgDict, numMessages, hostList) then [Event.Post(PreloadMsg(rd, msgDict, gid, hostList.value))] else []
  }

  /** How many responses the host-list block consumes: the preload's answer, when the preload is sent. */
  function PreloadTaken(msgDict: Batch.MsgDict, numMessages: int, hostList: Option<seq<string>>,
                        rs: seq<Response>): (n: nat)
    ensures n <= |rs|
    ensures PreloadCheck(msgDict, numMessages, hostList, rs).Pass? ==> n == if hostList.Some? then 1 else 0
  {
    if SendsPreload(msgDict, numMessages, hostList) && rs != [] then 1 else 0
  }

  /** The host-list block of `invoke_wasm` (invoke.py:63-89), on the freshly built request. */
  method PreloadIfListed(planner: Endpoint, req: Batch.BatchRequest, msgDict: Batch.MsgDict, numMessages: int,
                         hostList: Option<seq<string>>) returns (res: Outcome<Failure>)
    requires req.messages == Copies(Batch.MessageFactory(msgDict, req.appId), numMessages)
    modifies planner, req
    ensures res == PreloadCheck(msgDict, numMessages, hostList, old(planner.responses))
    ensures planner.responses == old(planner.responses)[PreloadTaken(msgDict, numMessages, hostList, old(planner.responses))..]
    ensures planner.log == old(planner.log) +
              PreloadLog(Batch.ReqDict(old(req.user), old(req.func)), msgDict, numMessages, hostList, old(req.appId))
    ensures hostList.None? ==> req.Value() == old(req.Value())
    ensures hostList.Some? && |hostList.value| != ExpectedCount(msgDict, numMessages) ==> req.Value() == old(req.Value())
    ensures SendsPreload(msgDict, numMessages, hostList) ==>
              req.Value() == PreloadMsg(Batch.ReqDict(old(req.user), old(req.func)), msgDict, old(req.appId),
                                        hostList.value).payload.request
  {
    if hostList.None? {
      return Pass;
    }
    res := PreloadHosts(planner, req, msgDict, hostList.value, ExpectedCount(msgDict, numMessages));
  }

  /** `invoke_wasm` with a fresh application id `gid`. With a host list it first
      checks the list's length, pads and pins the request and preloads that
      decision; the batch it then submits is the one serialized before padding. */
  method InvokeWasm(planner: Endpoint, msgDict: Batch.MsgDict, numMessages: int,
                    reqDict: Option<Batch.ReqDict>, hostList: Option<seq<string>>, gid: int)
    returns (res: Result<BatchStatus, Failure>)
    modifies planner
    ensures res == WasmOutcome(msgDict, numMessages, reqDict, hostList, old(planner.responses))
    ensures planner.responses == old(planner.responses)[WasmTaken(msgDict, numMessages, reqDict, hostList, old(planner.responses))..]
    ensures planner.log == old(planner.log) + WasmLog(msgDict, numMessages, reqDict, hostList, gid, old(planner.responses))
  {
    var rd: Batch.ReqDict;
    if reqDict.Some? {
      rd := reqDict.value;
    } else {
      if msgDict.user.None? || msgDict.func.None? {
        return Err(KeyMissing);
      }
      rd := Batch.ReqDict(msgDict.user.value, msgDict.func.value);
    }
    ghost var rs := planner.responses;
    var req := Batch.BatchExecFactory(rd, msgDict, numMessages, gid);
    var msg := PlannerMsg(ExecuteBatch, RequestPayload(req.Value()));
    assert req.messages == Copies(Batch.MessageFactory(msgDict, gid), numMessages);
    assert msg == SubmitMsg(rd, msgDict, numMessages, gid);
    var expected := ExpectedCount(msgDict, numMessages);
    ghost var log0 := planner.log;
    ghost var pre := PreloadLog(rd, msgDict, numMessages, hostList, gid);
    var preloaded := PreloadIfListed(planner, req, msgDict, numMessages, hostList);
    if preloaded.Fail? {
      assert WasmLog(msgDict, numMessages, reqDict, hostList, gid, rs) == pre + [];
      return Err(preloaded.error);
    }
    ghost var rest := planner.responses;
    ghost var k := PreloadTaken(msgDict, numMessages, hostList, rs);
    assert WasmLog(msgDict, numMessages, reqDict, hostList, gid, rs) == pre + AwaitLog(msg, rest, expected);
    res := InvokeAndAwait(planner, msg, expected);
    assert rs[k..][AwaitTaken(rest)..] == rs[k + AwaitTaken(rest)..];
    ConcatAssoc(log0, pre, AwaitLog(msg, rest, expected));
  }

  lemma ConcatAssoc(a: seq<Event>, b: seq<Event>, c: seq<Event>)
    ensures (a + b) + c == a + (b + c)
  {
  }

  /** The host-list block of `invoke_wasm`: check the list's length, pad and pin
      the request, and POST it as the scheduling decision; every failure is fatal. */
  method PreloadHosts(planner: Endpoint, req: Batch.BatchRequest, msgDict: Batch.MsgDict,
                      hosts: seq<string>, expected: int) returns (res: Outcome<Failure>)
    requires req.messages == Copies(Batch.MessageFactory(msgDict, req.appId), |req.messages|)
    modifies planner, req
    ensures |hosts| != expected ==>
              res == Fail(HostListMismatch) && planner.log == old(planner.log)
              && planner.responses == old(planner.responses) && req.Value() == old(req.Value())
    ensures |hosts| == expected && |old(req.messages)| > expected ==>
              res == Fail(HostIndexOutOfRange) && planner.log == old(planner.log)
              && planner.responses == old(planner.responses)
    ensures |hosts| == expected && |old(req.messages)| > expected ==>
              && req.appId == old(req.appId) && req.user == old(req.user) && req.func == old(req.func)
              && |req.messages| == |old(req.messages)|
              && forall i :: 0 <= i < |req.messages| ==>
                   req.messages[i] == if i < |hosts| then old(req.messages[i]).(groupIdx := i, executedHost := hosts[i])
                                      else if i == |hosts| then old(req.messages[i]).(groupIdx := i)
                                      else old(req.messages[i])
    ensures |hosts| == expected && |old(req.messages)| <= expected ==>
              var decision := PreloadMsg(Batch.ReqDict(old(req.user), old(req.func)), msgDict, old(req.appId), hosts);
              && planner.log == old(planner.log) + [Event.Post(decision)]
              && req.Value() == decision.payload.request
              && planner.responses == (if old(planner.responses) == [] then [] else old(planner.responses)[1..])
              && res == if old(planner.responses) == [] then Fail(ScriptEnded)
                        else if old(planner.responses)[0].code != 200 then Fail(PreloadRejected(old(planner.responses)[0].code))
                        else Pass
  {
    if |hosts| != expected {
      return Fail(HostListMismatch);
    }
    ghost var rd := Batch.ReqDict(req.user, req.func);
    PadMessages(req, msgDict, expected);
    var ok := PinHosts(req, hosts);
    if !ok {
      return Fail(HostIndexOutOfRange);
    }
    var preload := PlannerMsg(PreloadSchedulingDecision, RequestPayload(req.Value()));
    assert req.messages == PreloadMsg(rd, msgDict, req.appId, hosts).payload.request.messages;
    var r := planner.Post(preload);
    if r.None? {
      return Fail(ScriptEnded);
    }
    if r.value.code != 200 {
      return Fail(PreloadRejected(r.value.code));
    }
    return Pass;
  }

  /** The preloaded decision places message i, of group index i, on host i, all under the request's id. */
  lemma PreloadPlacement(rd: Batch.ReqDict, msgDict: Batch.MsgDict, gid: int, hosts: seq<string>)
    ensures var m := PreloadMsg(rd, msgDict, gid, hosts);
            && m.op == PreloadSchedulingDecision && m.payload.RequestPayload?
            && m.payload.request.appId == gid && |m.payload.request.messages| == |hosts|
            && forall i :: 0 <= i < |hosts| ==>
                 && m.payload.request.messages[i].groupIdx == i
                 && m.payload.request.messages[i].executedHost == hosts[i]
                 && m.payload.request.messages[i].appId == gid
  {
    var m := PreloadMsg(rd, msgDict, gid, hosts);
    forall i | 0 <= i < |hosts|
      ensures m.payload.request.messages[i] == Batch.MessageFactory(msgDict, gid).(groupIdx := i, executedHost := hosts[i])
    {
    }
  }

  /** With a host list that passes the checks, the preload is the first POST.
      If the planner rejects it (or never answers), it is the only POST and the
      call fails; otherwise the batch is the second POST. */
  lemma WasmPreloadsFirst(msgDict: Batch.MsgDict, numMessages: int, rd: Batch.ReqDict,
                          hosts: seq<string>, gid: int, rs: seq<Response>)
    requires |hosts| == ExpectedCount(msgDict, numMessages) && numMessages <= |hosts|
    ensures var log := WasmLog(msgDict, numMessages, Some(rd), Some(hosts), gid, rs);
            && |log| >= 1
            && log[0] == Event.Post(PreloadMsg(rd, msgDict, gid, hosts))
            && ((rs == [] || rs[0].code != 200) ==>
                  && log == [log[0]]
                  && WasmOutcome(msgDict, numMessages, Some(rd), Some(hosts), rs)
                     == Err(if rs == [] then ScriptEnded else PreloadRejected(rs[0].code)))
            && ((rs != [] && rs[0].code == 200) ==>
                  |log| >= 2 && log[1] == Event.Post(SubmitMsg(rd, msgDict, numMessages, gid)))
  {
    if rs != [] && rs[0].code == 200 {
      AwaitSubmitsFirst(SubmitMsg(rd, msgDict, numMessages, gid), rs[1..], |hosts|);
    }
  }

  /** Every status query `invoke_wasm` sends carries the expected count: the MPI
      world size when the message dict has one, the number of messages otherwise. */
  lemma WasmQueriesCarryExpected(msgDict: Batch.MsgDict, numMessages: int, reqDict: Option<Batch.ReqDict>,
                                 hostList: Option<seq<string>>, gid: int, rs: seq<Response>)
    ensures forall j :: 0 <= j < |WasmLog(msgDict, numMessages, reqDict, hostList, gid, rs)|
                          && WasmLog(msgDict, numMessages, reqDict, hostList, gid, rs)[j].Post?
                          && WasmLog(msgDict, numMessages, reqDict, hostList, gid, rs)[j].msg.op == ExecuteBatchStatus ==>
              && WasmLog(msgDict, numMessages, reqDict, hostList, gid, rs)[j].msg.payload.StatusPayload?
              && WasmLog(msgDict, numMessages, reqDict, hostList, gid, rs)[j].msg.payload.status.expectedNumMessages
                 == ExpectedCount(msgDict, numMessages)
  {
    var log := WasmLog(msgDict, numMessages, reqDict, hostList, gid, rs);
    var expected := ExpectedCount(msgDict, numMessages);
    match DefaultReqDict(reqDict, msgDict)
    case Err(_) =>
    case Ok(rd) =>
      var msg := SubmitMsg(rd, msgDict, numMessages, gid);
      if hostList.None? {
        AwaitQueriesCarryExpected(msg, rs, expected);
      } else if |hostList.value| == expected && numMessages <= expected && rs != [] && rs[0].code == 200 {
        var tail := AwaitLog(msg, rs[1..], expected);
        AwaitQueriesCarryExpected(msg, rs[1..], expected);
        assert log == [Event.Post(PreloadMsg(rd, msgDict, gid, hostList.value))] + tail;
        forall j | 0 <= j < |log| && log[j].Post? && log[j].msg.op == ExecuteBatchStatus
          ensures log[j].msg.payload.StatusPayload? && log[j].msg.payload.status.expectedNumMessages == expected
        {
          assert log[j] == tail[j - 1];
        }
      }
  }

  /** `invoke_wasm_without_wait`. It never passes a chained id list, so any
      positive message count raises inside `batch_exec_input_factory` before a
      single POST; only an empty batch is submitted, and its id is returned. */
  method InvokeWasmWithoutWait(planner: Endpoint, appId: int, msgDict: Batch.MsgDict, numMessages: int,
                               reqDict: Option<Batch.ReqDict>, inputs: Option<seq<MapCodec.StrMap>>)
    returns (res: Result<int, Failure>)
    modifies planner
    ensures DefaultReqDict(reqDict, msgDict).Err? ==>
              res == Err(KeyMissing) && planner.log == old(planner.log) && planner.responses == old(planner.responses)
    ensures DefaultReqDict(reqDict, msgDict).Ok? && (numMessages > 0 || (inputs.Some? && |inputs.value| != numMessages)) ==>
              && planner.log == old(planner.log) && planner.responses == old(planner.responses)
              && res == Err(if inputs.Some? && |inputs.value| != numMessages then InputArityMismatch
                            else if inputs.Some? && !MapCodec.PackableIntended(inputs.value[0]) then LengthOverflow
                            else ChainedIdsMissing)
    ensures DefaultReqDict(reqDict, msgDict).Ok? && numMessages <= 0 && (inputs.None? || |inputs.value| == numMessages) ==>
              var rd := DefaultReqDict(reqDict, msgDict).value;
              var msg := PlannerMsg(ExecuteBatch, RequestPayload(Batch.Ber(appId, rd.user, rd.func, [])));
              && planner.log == old(planner.log) + AdmissionLog(msg, old(planner.responses), NoWaitRetries)
              && planner.responses == old(planner.responses)[AdmissionTaken(old(planner.responses), NoWaitRetries)..]
              && res == if AdmissionReply(old(planner.responses), NoWaitRetries).None? then Err(ScriptEnded) else Ok(appId)
  {
    var rd: Batch.ReqDict;
    if reqDict.Some? {
      rd := reqDict.value;
    } else {
      if msgDict.user.None? || msgDict.func.None? {
        return Err(KeyMissing);
      }
      rd := Batch.ReqDict(msgDict.user.value, msgDict.func.value);
    }
    var built := Batch.BatchExecInputFactory(rd, appId, msgDict, numMessages, inputs, None);
    if built.Err? {
      return Err(built.error);
    }
    var req := built.value;
    var msg := PlannerMsg(ExecuteBatch, RequestPayload(req.Value()));
    var sent := InvokeWithoutWait(planner, msg);
    if sent.Fail? {
      return Err(sent.error);
    }
    return Ok(req.appId);
  }
}
