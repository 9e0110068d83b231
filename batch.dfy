/**
 * The request builders of faasmctl/util/batch.py: `batch_exec_factory`
 * (a fresh application id) and `batch_exec_input_factory` (the caller's
 * application id, with per-message inputs and chained ids).
 *
 * A BatchExecuteRequest is an object whose repeated `messages` field the
 * builders append to and whose messages they update field by field; it is a
 * class here, its messages a `seq` of values the methods reassign (a protobuf
 * repeated field owns its elements, so nothing else aliases them).
 */
module Batch {
  import opened Wrappers
  import opened Errors
  import opened Bytes
  import MapCodec

  /** The fields of a faabric Message this core reads or writes. */
  datatype Message = Message(
    appId: int,
    user: string,
    func: string,
    mpiWorldSize: int,
    groupIdx: int,
    executedHost: string,
    inputData: seq<byte>,
    chainedId: int)

  /** The keys of a caller's `msg_dict` this core looks at; `None` is an absent key. */
  datatype MsgDict = MsgDict(
    user: Option<string>,
    func: Option<string>,
    mpiWorldSize: Option<int>,
    inputData: Option<seq<byte>>)

  /** A `req_dict`: the request-level user and function. */
  datatype ReqDict = ReqDict(user: string, func: string)

  /** The value of a BatchExecuteRequest, as `MessageToJson` captures it when it is sent. */
  datatype Ber = Ber(appId: int, user: string, func: string, messages: seq<Message>)

  /** `message_factory(msg_dict, app_id)`: the message the dict describes, bound to `app_id`;
      every field the dict leaves out has its protobuf default. */
  function MessageFactory(d: MsgDict, appId: int): (msg: Message)
    ensures msg.appId == appId
    ensures msg.groupIdx == 0 && msg.executedHost == "" && msg.chainedId == 0
  {
    Message(appId, d.user.GetOr(""), d.func.GetOr(""), d.mpiWorldSize.GetOr(0), 0, "", d.inputData.GetOr([]), 0)
  }

  class BatchRequest {
    var appId: int
    var user: string
    var func: string
    var messages: seq<Message>

    /** `ParseDict(req_dict, BatchExecuteRequest())`. */
    constructor FromDict(d: ReqDict)
      ensures appId == 0 && user == d.user && func == d.func && messages == []
    {
      appId := 0;
      user := d.user;
      func := d.func;
      messages := [];
    }

    function Value(): Ber
      reads this
    {
      Ber(appId, user, func, messages)
    }
  }

  /** `batch_exec_factory`: `num_messages` copies of the template (none when it is
      not positive, as `range` gives), all bound to one fresh application id `gid`
      (the value `generate_gid` returned). */
  method BatchExecFactory(reqDict: ReqDict, msgDict: MsgDict, numMessages: int, gid: int)
    returns (req: BatchRequest)
    ensures fresh(req)
    ensures req.appId == gid && req.user == reqDict.user && req.func == reqDict.func
    ensures |req.messages| == if numMessages > 0 then numMessages else 0
    ensures forall i :: 0 <= i < |req.messages| ==> req.messages[i] == MessageFactory(msgDict, req.appId)
  {
    req := new BatchRequest.FromDict(reqDict);
    req.appId := gid;
    var i := 0;
    while i < numMessages
      invariant 0 <= i <= (if numMessages > 0 then numMessages else 0)
      invariant req.appId == gid && req.user == reqDict.user && req.func == reqDict.func
      invariant |req.messages| == i
      invariant forall j :: 0 <= j < i ==> req.messages[j] == MessageFactory(msgDict, gid)
    {
      req.messages := req.messages + [MessageFactory(msgDict, req.appId)];
      i := i + 1;
    }
  }

  /** Both optional lists, when given, have one element per message. */
  predicate ArityOk(numMessages: int, inputs: Option<seq<MapCodec.StrMap>>, chainedIds: Option<seq<int>>) {
    && (inputs.Some? ==> |inputs.value| == numMessages)
    && (chainedIds.Some? ==> |chainedIds.value| == numMessages)
  }

  /** Every input map can be serialized. */
  predicate InputsPackable(numMessages: int, inputs: Option<seq<MapCodec.StrMap>>)
    requires ArityOk(numMessages, inputs, None)
  {
    inputs.Some? ==> forall i :: 0 <= i < numMessages ==> MapCodec.PackableIntended(inputs.value[i])
  }

  /** Message `j` can be completed: its chained id exists and, when inputs are
      given, its input map exists and can be serialized. */
  predicate Ready(inputs: Option<seq<MapCodec.StrMap>>, chainedIds: Option<seq<int>>, j: nat) {
    && chainedIds.Some? && j < |chainedIds.value|
    && (inputs.Some? ==> j < |inputs.value| && MapCodec.PackableIntended(inputs.value[j]))
  }

  /** Message `j` as `batch_exec_input_factory` leaves it: the template bound to
      `appId`, carrying the encoded input map (when inputs are given) and chained id `j`. */
  function InputMessage(
    msgDict: MsgDict, appId: int, inputs: Option<seq<MapCodec.StrMap>>, chainedIds: Option<seq<int>>, j: nat)
    : Message
    requires Ready(inputs, chainedIds, j)
  {
    var template := MessageFactory(msgDict, appId);
    template.(inputData := if inputs.Some? then MapCodec.EncodeMapIntended(inputs.value[j]) else template.inputData,
              chainedId := chainedIds.value[j])
  }

  /** `batch_exec_input_factory`. The arity assertions run before any message is
      built; inside the loop, message i's input map is serialized and then
      `chained_id_list[i]` is read, which raises when the list is `None`. */
  method BatchExecInputFactory(
    reqDict: ReqDict, appId: int, msgDict: MsgDict, numMessages: int,
    inputs: Option<seq<MapCodec.StrMap>>, chainedIds: Option<seq<int>>)
    returns (res: Result<BatchRequest, Failure>)
    ensures inputs.Some? && |inputs.value| != numMessages ==> res == Err(InputArityMismatch)
    ensures ((inputs.None? || |inputs.value| == numMessages)
             && chainedIds.Some? && |chainedIds.value| != numMessages) ==> res == Err(ChainedArityMismatch)
    ensures ArityOk(numMessages, inputs, chainedIds) && numMessages > 0 && chainedIds.None? ==>
              res == Err(if inputs.Some? && !MapCodec.PackableIntended(inputs.value[0]) then LengthOverflow
                         else ChainedIdsMissing)
    ensures ArityOk(numMessages, inputs, chainedIds) && (numMessages <= 0 || chainedIds.Some?) ==>
              && (res.Ok? <==> InputsPackable(numMessages, inputs))
              && (res.Err? ==> res.error == LengthOverflow)
    ensures res.Ok? ==> fresh(res.value)
    ensures res.Ok? ==>
              && res.value.appId == appId && res.value.user == reqDict.user && res.value.func == reqDict.func
              && |res.value.messages| == (if numMessages > 0 then numMessages else 0)
    ensures res.Ok? ==> forall i :: 0 <= i < |res.value.messages| ==>
              Ready(inputs, chainedIds, i) && res.value.messages[i] == InputMessage(msgDict, appId, inputs, chainedIds, i)
  {
    var req := new BatchRequest.FromDict(reqDict);
    req.appId := appId;
    if inputs.Some? && |inputs.value| != numMessages {
      return Err(InputArityMismatch);
    }
    if chainedIds.Some? && |chainedIds.value| != numMessages {
      return Err(ChainedArityMismatch);
    }
    var i := 0;
    while i < numMessages
      invariant 0 <= i <= (if numMessages > 0 then numMessages else 0)
      invariant i > 0 ==> chainedIds.Some?
      invariant req.appId == appId && req.user == reqDict.user && req.func == reqDict.func
      invariant |req.messages| == i
      invariant forall j :: 0 <= j < i ==>
                  Ready(inputs, chainedIds, j) && req.messages[j] == InputMessage(msgDict, appId, inputs, chainedIds, j)
    {
      req.messages := req.messages + [MessageFactory(msgDict, req.appId)];
      if inputs.Some? {
        var serialized := MapCodec.SerializeMap(inputs.value[i]);
        if serialized.None? {
          return Err(LengthOverflow);
        }
        req.messages := req.messages[i := req.messages[i].(inputData := serialized.value.data)];
      }
      if chainedIds.None? {
        return Err(ChainedIdsMissing);
      }
      req.messages := req.messages[i := req.messages[i].(chainedId := chainedIds.value[i])];
      i := i + 1;
    }
    forall j | 0 <= j < numMessages && inputs.Some?
      ensures MapCodec.PackableIntended(inputs.value[j])
    {
      assert Ready(inputs, chainedIds, j);
    }
    return Ok(req);
  }
}
