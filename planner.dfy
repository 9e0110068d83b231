/**
 * The planner as the client sees it: one HTTP endpoint that takes planner
 * messages (`prepare_planner_msg(operation, json)`) and answers each POST
 * with a status code and a text body.
 *
 * The network, the URL and real time are not modelled. An `Endpoint` holds a
 * finite script of the responses the planner will give, consumed one per
 * POST, and a ghost log of what the client did: every POST with the message
 * it carried, and every `sleep` with its length.
 */
module Planner {
  import opened Wrappers
  import Batch

  /** The planner operations this core uses. */
  datatype Operation = ExecuteBatch | ExecuteBatchStatus | PreloadSchedulingDecision

  /** The fields of a BatchExecuteRequestStatus this core reads or writes;
      the per-message results are not modelled. */
  datatype BatchStatus = BatchStatus(appId: int, finished: bool, expectedNumMessages: int)

  /** What a planner message carries, as `MessageToJson` captured it when it was built. */
  datatype Payload = RequestPayload(request: Batch.Ber) | StatusPayload(status: BatchStatus)

  datatype PlannerMsg = PlannerMsg(op: Operation, payload: Payload)

  /** An HTTP response: its code, its text, and what `Parse(text, BatchExecuteRequestStatus())`
      makes of the text (`None` where `Parse` raises). */
  datatype Response = Response(code: int, text: string, parsed: Option<BatchStatus>)

  datatype Event = Post(msg: PlannerMsg) | Sleep(millis: nat)

  class Endpoint {
    /** The responses still to come, in order. */
    var responses: seq<Response>
    /** Everything the client has done, oldest first. */
    ghost var log: seq<Event>

    constructor (script: seq<Response>)
      ensures responses == script && log == []
    {
      responses := script;
      log := [];
    }

    /** `post(url, data=msg)`: the next response of the script, or `None` when the script is spent. */
    method Post(msg: PlannerMsg) returns (r: Option<Response>)
      modifies this
      ensures log == old(log) + [Event.Post(msg)]
      ensures old(responses) == [] ==> r == None && responses == []
      ensures old(responses) != [] ==> r == Some(old(responses)[0]) && responses == old(responses)[1..]
    {
      log := log + [Event.Post(msg)];
      if responses == [] {
        r := None;
      } else {
        r := Some(responses[0]);
        responses := responses[1..];
      }
    }

    /** `sleep(millis / 1000)`. */
    method Sleep(millis: nat)
      modifies this
      ensures log == old(log) + [Event.Sleep(millis)] && responses == old(responses)
    {
      log := log + [Event.Sleep(millis)];
    }
  }

  /** `n` repetitions of `round`. */
  function Rounds(round: seq<Event>, n: nat): seq<Event> {
    if n == 0 then [] else Rounds(round, n - 1) + round
  }

  function CountPosts(log: seq<Event>): nat {
    if log == [] then 0 else CountPosts(log[..|log| - 1]) + (if log[|log| - 1].Post? then 1 else 0)
  }

  function CountSleeps(log: seq<Event>): nat {
    if log == [] then 0 else CountSleeps(log[..|log| - 1]) + (if log[|log| - 1].Sleep? then 1 else 0)
  }

  lemma CountsOfPair(x: Event, y: Event)
    ensures CountPosts([x, y]) == (if x.Post? then 1 else 0) + (if y.Post? then 1 else 0)
    ensures CountSleeps([x, y]) == (if x.Sleep? then 1 else 0) + (if y.Sleep? then 1 else 0)
  {
    assert [x, y][..1] == [x];
    assert [x][..0] == [];
    assert CountPosts([x]) == (if x.Post? then 1 else 0);
    assert CountSleeps([x]) == (if x.Sleep? then 1 else 0);
  }

  lemma {:induction false} CountsOfConcat(a: seq<Event>, b: seq<Event>)
    ensures CountPosts(a + b) == CountPosts(a) + CountPosts(b)
    ensures CountSleeps(a + b) == CountSleeps(a) + CountSleeps(b)
  {
    if b != [] {
      assert (a + b)[..|a + b| - 1] == a + b[..|b| - 1];
      CountsOfConcat(a, b[..|b| - 1]);
    } else {
      assert a + b == a;
    }
  }

  /** Repeating a round repeats its POSTs and sleeps. */
  lemma {:induction false} CountsOfRounds(round: seq<Event>, n: nat)
    ensures CountPosts(Rounds(round, n)) == n * CountPosts(round)
    ensures CountSleeps(Rounds(round, n)) == n * CountSleeps(round)
  {
    if n > 0 {
      CountsOfRounds(round, n - 1);
      CountsOfConcat(Rounds(round, n - 1), round);
      assert (n - 1) * CountPosts(round) + CountPosts(round) == n * CountPosts(round);
      assert (n - 1) * CountSleeps(round) + CountSleeps(round) == n * CountSleeps(round);
    }
  }

  /** Position `j` of round `r` within `Rounds(round, n)`. */
  lemma {:induction false} RoundsAt(round: seq<Event>, n: nat, r: nat, j: nat)
    requires r < n && j < |round|
    ensures |Rounds(round, n)| == n * |round|
    ensures r * |round| + j < |Rounds(round, n)|
    ensures Rounds(round, n)[r * |round| + j] == round[j]
  {
    var len := |round|;
    RoundsLength(round, n - 1);
    var prev := Rounds(round, n - 1);
    assert Rounds(round, n) == prev + round;
    assert n * len == (n - 1) * len + len;
    if r < n - 1 {
      RoundsAt(round, n - 1, r, j);
      assert (prev + round)[r * len + j] == prev[r * len + j];
    } else {
      assert r * len + j == |prev| + j;
    }
  }

  lemma {:induction false} RoundsLength(round: seq<Event>, n: nat)
    ensures |Rounds(round, n)| == n * |round|
  {
    if n > 0 {
      RoundsLength(round, n - 1);
    }
  }
}
