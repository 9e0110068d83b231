# faasmctl submission core, modelled in Dafny

This project models the client side of faasmctl that talks to the Faasm
planner. It has two parts.

1. **The binary map encoder and the batch builders** (`faasmctl/util/batch.py`).
   - `serialize_string` and `serialize_map` write a string-to-string dict into a
     `bytearray`: a 4-byte pair count, then for each entry a 4-byte length and the
     UTF-8 bytes, key before value. The code writes the character count as the
     length; the model states that encoding and proves where it breaks, and its
     methods write the byte count instead (see Findings).
   - `batch_exec_factory` and `batch_exec_input_factory` build a
     BatchExecuteRequest: `num_messages` copies of a message template sharing one
     application id, with per-message input maps and chained ids in the bound variant.
2. **The submission and polling state machine** (`faasmctl/util/invoke.py`).
   - Admission POSTs a batch up to 10 (`invoke_and_await`) or 100
     (`invoke_without_wait`) times, retrying only on the (500, "No available hosts")
     answer.
   - The poll loops of `invoke_and_await` and `query_result` sleep before each
     status query and go on while the planner answers "App not registered in
     results" or reports an unfinished batch.
   - `invoke_wasm` works out the expected message count, optionally preloads a
     scheduling decision pinned to a host list, and then submits and waits.
     `invoke_wasm_without_wait` submits and returns the application id.

The code is imperative, and so is the model:
- a `bytearray` is the class `Bytes.ByteArray`, which `Extend` appends to;
- a BatchExecuteRequest is the class `Batch.BatchRequest`, whose messages the
  builders append to and update field by field;
- the planner is the class `Planner.Endpoint`. It holds a finite script of the
  responses it will give, one per POST, and a ghost log of every POST (with its
  message) and every sleep (with its length).

Each loop is proved against a function of the inputs or of the
scripted responses. Lemmas state what those functions mean: exact byte
layouts, round trips, attempt counts, the order of POSTs and sleeps, and which
status is returned.

Files, one module each:
- `wrappers.dfy`: `Option`, `Result` and `Outcome`.
- `errors.dfy`: the exceptions the code can raise, as values.
- `bytes.dfy`: bytes, `struct.pack('I')` and `bytearray`.
- `utf8.dfy`: `str.encode('utf-8')` and a decoder for it.
- `codec.dfy`: `serialize_string`, `serialize_map`, both encodings and a decoder.
- `batch.py` is modelled in `batch.dfy`.
- `planner.dfy`: the planner endpoint.
- `invoke.py` is modelled in `invoke.dfy`.

Modelling choices:
- `struct.pack('I', n)` is 4 bytes, little-endian. It raises `struct.error`
  once n ≥ 2^32, and the model carries that as the `LengthOverflow` error.
- A Python `assert`, an exception or a missing key becomes an `Err` of
  `Errors.Failure`. Each constructor names the exception it stands for.
- `Parse(response.text, BatchExecuteRequestStatus())` is the `parsed` field of
  a response. It is `None` where `Parse` raises.
- A POST to a spent script returns `None`. The caller then fails with
  `ScriptEnded`, so every loop terminates on a finite script. The real planner
  has no such case.

The model follows the code in three places where a reader might expect
otherwise:
- After a 200 poll, `invoke_and_await` returns the status the planner sent.
  Its `expectedNumMessages` is the planner's, not the client's count
  (`Invoke.PollOutcomeAt`).
- When all 10 admission attempts answer "No available hosts", nothing
  reports exhaustion as such. The call goes on and raises wherever `Parse`
  raises on that text (`Invoke.AwaitExhausted`).
- `invoke_wasm_without_wait` never passes a chained id list. So for any
  positive message count, `batch_exec_input_factory` raises, at the latest
  at `chained_id_list[0]`, before any POST is sent (batch.py:47, invoke.py:181).
  `Invoke.InvokeWasmWithoutWait` states this.

## Model

| member | source | states |
|---|---|---|
| Bytes.ReadU32OfU32 | faasmctl/util/batch.py:9 | reading back the 4 little-endian bytes of `struct.pack('I', n)` gives n, whatever follows them |
| Bytes.U32Injective | faasmctl/util/batch.py:9 | two packed lengths are equal only when the lengths are equal |
| Bytes.ByteArray.constructor | faasmctl/util/batch.py:14 | `bytearray()` is empty |
| Bytes.ByteArray.Extend | faasmctl/util/batch.py:9-11 | `extend` appends the bytes after the old contents, which stay the prefix |
| Utf8.DecodeEncodeChar | faasmctl/util/batch.py:11 | the 1- to 4-byte UTF-8 form of each character decodes back to it, leaving what follows |
| Utf8.DecodeEncode | faasmctl/util/batch.py:11 | `string.encode('utf-8')` is decodable and decodes to the string |
| Utf8.EncodeLength | faasmctl/util/batch.py:9-11 | the UTF-8 form is never shorter than the character count, and has the same length exactly when every character is ASCII |
| MapCodec.EncodeString | faasmctl/util/batch.py:7-11 | as written, the block `serialize_string` appends starts with 4 bytes holding the character count `len(string)`, followed by the UTF-8 bytes |
| MapCodec.EncodeMap | faasmctl/util/batch.py:13-20 | as written, the blob `serialize_map` returns starts with 4 bytes holding the pair count, followed by the entries' blocks |
| MapCodec.DecodeMap | faasmctl/util/batch.py:13-20 | the reader a blob's prefixes describe: a decoded map has as many pairs as the blob's leading count says, and the entries take the whole rest of the blob |
| MapCodec.StringLayout | faasmctl/util/batch.py:7-11 | as written, a string's block is 4 + byteLen(utf8(s)) long, its prefix holds `len(s)`, the rest is the UTF-8 bytes, and for ASCII text the prefix equals the number of payload bytes |
| MapCodec.MapLayout | faasmctl/util/batch.py:13-20 | as written, the blob starts with uint32 `len(map_data)` and is 4 + Σ(4 + byteLen(k) + 4 + byteLen(v)) bytes long |
| MapCodec.EntriesLength | faasmctl/util/batch.py:17-19 | as written, the entries take Σ(4 + byteLen(k) + 4 + byteLen(v)) bytes, with no padding or terminator |
| MapCodec.AsciiRoundTrip | faasmctl/util/batch.py:16-19 | as written, ASCII-only maps are recovered exactly by the prefix-driven decoder, pairs in order, the empty map and empty strings included |
| MapCodec.AsWrittenIsIntendedIffAscii | faasmctl/util/batch.py:9-11 | the encoding as written equals the byte-length-prefixed encoding if and only if all keys and values are ASCII |
| MapCodec.NonAsciiKeyBreaksDecoding | faasmctl/util/batch.py:9-11 | the map {"é": ""} encodes as written, but its blob does not decode: the prefix says 1 while the key is 2 bytes |
| MapCodec.EncodeEntriesIntendedSnoc | faasmctl/util/batch.py:17-19 | serializing one more entry appends that key's block and then that value's block |
| MapCodec.MapLayoutIntended | faasmctl/util/batch.py:13-20 | with byte-length prefixes, the blob starts with uint32 `len(map_data)` and is 4 + Σ(4 + byteLen(k) + 4 + byteLen(v)) bytes long |
| MapCodec.EntriesLengthIntended | faasmctl/util/batch.py:17-19 | with byte-length prefixes, the entries take Σ(4 + byteLen(k) + 4 + byteLen(v)) bytes |
| MapCodec.DecodeStringIntended | faasmctl/util/batch.py:7-11 | with a byte-length prefix, one string block decodes to the string and the bytes after it |
| MapCodec.DecodeEntriesIntended | faasmctl/util/batch.py:16-19 | with byte-length prefixes, the entries decode to the pairs in order and the bytes after them |
| MapCodec.RoundTripIntended | faasmctl/util/batch.py:13-20 | with byte-length prefixes, every map round-trips through the decoder, whatever its text |
| MapCodec.SerializeString | faasmctl/util/batch.py:7-11 | succeeds iff the UTF-8 byte length is below 2^32; the buffer is then its old contents followed by that length packed as uint32 and the UTF-8 bytes; on failure the buffer is unchanged |
| MapCodec.SerializeEntry | faasmctl/util/batch.py:17-19 | succeeds iff both key and value can be packed, and then appends the key's block followed by the value's block |
| MapCodec.SerializeMap | faasmctl/util/batch.py:13-20 | returns a fresh buffer iff the pair count and every length fit 32 bits, and that buffer holds exactly the pair count followed by each key and value, in order, with byte-length prefixes |
| Batch.BatchRequest.FromDict | faasmctl/util/batch.py:24 | `ParseDict(req_dict, BatchExecuteRequest())` has the dict's user and function, application id 0 and no messages |
| Batch.BatchExecFactory | faasmctl/util/batch.py:23-30 | a fresh request with the given fresh id and the dict's user and function; it holds max(0, num_messages) messages, each the template bound to that one id |
| Batch.BatchExecInputFactory | faasmctl/util/batch.py:32-49 | arity mismatches of `input_list`, then `chained_id_list`, fail before any message is built; with no chained ids and a positive count it fails (first on an unencodable first input, else at `chained_id_list[0]`); otherwise it succeeds iff every input encodes; on success `appId == app_id`, there are max(0, num_messages) messages, and message i is the template with `inputData` the byte-length-prefixed encoding of `input_list[i]` (or the template's own when there is no list) and `chainedId == chained_id_list[i]` |
| Planner.Endpoint.Post | faasmctl/util/invoke.py:113 | a POST is logged with its message and consumes the next scripted response; a spent script gives `None` and stays spent |
| Planner.Endpoint.Sleep | faasmctl/util/invoke.py:116 | a sleep is logged with its length and consumes no response |
| Invoke.LeadingNoHosts | faasmctl/util/invoke.py:112-118 | counts the leading (500, "No available hosts") responses: all before it are that answer, and the one at it is not |
| Invoke.Admit | faasmctl/util/invoke.py:109-118 | the admission loop returns the response it ended on, consumes exactly the responses it read, and logs exactly a POST and a 0.5 s sleep per sentinel (up to the limit) and then one final POST if the limit was not reached |
| Invoke.AdmissionAttempts | faasmctl/util/invoke.py:112-118 | with k leading sentinels, admission sends exactly min(k + 1, N) POSTs (at most N) and min(k, N) sleeps |
| Invoke.AdmissionEnds | faasmctl/util/invoke.py:112-118 | a first answer other than the sentinel, a 500 with other text included, ends admission with that answer after one response; admission ends on a sentinel only once the retries are spent; it ends with no answer exactly when the script runs out of sentinels before the retries do |
| Invoke.AdmissionLogAt | faasmctl/util/invoke.py:112-117 | entry j of the admission log is a POST of the batch for even j and a 0.5 s sleep for odd j |
| Invoke.AdmissionAlternates | faasmctl/util/invoke.py:112-117 | admission alternates POST and sleep, POST first, so every sleep follows a POST of the same batch |
| Invoke.FirstStop | faasmctl/util/invoke.py:137-152 | the index of the first response that ends a poll loop: none before it does, and the one at it does |
| Invoke.Poll | faasmctl/util/invoke.py:133-156 | the poll loop returns the outcome the poll specification gives, consumes the responses up to and including the first one that stops it, and logs a sleep then a POST of the same query for each of them |
| Invoke.PollOutcomeAt | faasmctl/util/invoke.py:133-156 | a poll loop stops at the first response that is not "App not registered in results" and not an unfinished 200; a failure there returns the status of the last 200 before it, or the one held on entry; a 200 there returns the server's finished status, or raises if it does not parse; a spent script gives `ScriptEnded` |
| Invoke.PollKeepsStatus | faasmctl/util/invoke.py:128-156 | a poll loop entered with a status always returns one |
| Invoke.PollUnboundIff | faasmctl/util/invoke.py:229-258 | a poll loop entered with no status returns none if and only if it stops on a failure before any 200 has arrived |
| Invoke.PollAlternates | faasmctl/util/invoke.py:133-138 | the poll log alternates sleep and POST, sleep first, one pair per response read, so every status POST is preceded by a sleep |
| Invoke.InvokeAndAwait | faasmctl/util/invoke.py:97-156 | returns and logs what admission followed by polling gives, and leaves exactly the responses after admission's and the poll loop's on the endpoint: a non-200 admission answer is still parsed, and the status body carries the client's expected count |
| Invoke.AwaitSubmitsFirst | faasmctl/util/invoke.py:112-113 | the first thing `invoke_and_await` does is POST the batch |
| Invoke.AwaitQueriesCarryExpected | faasmctl/util/invoke.py:128-137 | every status query sent is one identical body, carrying `expectedNumMessages` equal to the client's expected count |
| Invoke.AwaitExhausted | faasmctl/util/invoke.py:109-128 | ten sentinel answers whose text does not parse give exactly ten POSTs and ten sleeps, no status query, and a parse failure |
| Invoke.AwaitUnfinishedMeansFailure | faasmctl/util/invoke.py:139-152 | an unfinished status is returned only when polling stopped on a non-200 other than "App not registered in results" |
| Invoke.AwaitTwoPolls | faasmctl/util/invoke.py:133-156 | an accepted batch polled unfinished and then finished gives one submission, exactly two status queries and two sleeps, and returns the second status |
| Invoke.InvokeWithoutWait | faasmctl/util/invoke.py:195-216 | admission with up to 100 POSTs, exactly logged, consuming exactly admission's responses; a non-200 outcome is only printed, so the call succeeds whenever the planner answered |
| Invoke.QueryResult | faasmctl/util/invoke.py:218-258 | returns and logs what a 0.5 s poll loop with no initial status gives, consuming exactly the responses that loop reads, and fails as unbound when that loop ends holding no status |
| Invoke.QueryUnboundIff | faasmctl/util/invoke.py:218-258 | `query_result` raises UnboundLocalError if and only if it stops on a failure before any 200 has arrived |
| Invoke.DefaultReqDict | faasmctl/util/invoke.py:44-45 | the caller's `req_dict` when given; otherwise the template's user and function, failing exactly when one of them is missing |
| Invoke.ExpectedCount | faasmctl/util/invoke.py:58-60 | the count to wait for is `msg_dict["mpi_world_size"]` when the key is present, and `num_messages` otherwise |
| Invoke.PadMessages | faasmctl/util/invoke.py:67-68 | padding keeps the existing messages and appends template copies with the request's `appId`, up to a count of max(current count, expected) |
| Invoke.PinHosts | faasmctl/util/invoke.py:72-75 | message i gets `groupIdx == i` and `executedHost == host_list[i]` for every i below the host count, other fields unchanged; it fails with IndexError exactly when there are more messages than hosts, after also setting `groupIdx` of message `len(host_list)` and leaving the later messages untouched |
| Invoke.PreloadCheck | faasmctl/util/invoke.py:77-89 | the host-list block passes only without a host list, or after a preload the planner answered with 200 |
| Invoke.PreloadHosts | faasmctl/util/invoke.py:64-89 | a host list of the wrong length fails with no POST, no response consumed and the request untouched; more messages than hosts fails the same way, leaving the request half-pinned as `PinHosts` states; otherwise the request is padded and pinned into exactly the decision that is POSTed, that one POST is logged, one response is consumed, and a non-200 answer fails with its code |
| Invoke.PreloadTaken | faasmctl/util/invoke.py:63-89 | the host-list block consumes at most one response, and exactly one (the preload's answer) whenever a host list is given and the block passes |
| Invoke.PreloadIfListed | faasmctl/util/invoke.py:63-89 | without a host list nothing is sent and the request is untouched; otherwise the block's outcome is the preload check's, it consumes the preload's answer, and when both local checks pass its log is the single preload POST and the request is left padded and pinned as that decision; a host list of the wrong length leaves the request untouched |
| Invoke.PreloadPlacement | faasmctl/util/invoke.py:72-80 | the preloaded decision has one message per host, message i with group index i on host i, all under the request's id |
| Invoke.InvokeWasm | faasmctl/util/invoke.py:15-94 | `invoke_wasm` returns, logs and consumes what the full `invoke_wasm` specification gives: the expected count is `mpi_world_size` when present, else `num_messages`; a host list of the wrong length, or more messages than hosts, fails before any POST; a non-200 preload fails after one POST; otherwise it is `invoke_and_await` of the unpadded batch on the responses after the preload's |
| Invoke.WasmPreloadsFirst | faasmctl/util/invoke.py:77-89 | with a valid host list the preload is the first POST; if it is rejected it is the only POST and the call fails with the code; if it is accepted, the batch is the second POST |
| Invoke.WasmQueriesCarryExpected | faasmctl/util/invoke.py:58-60 | every status query of `invoke_wasm` carries the MPI world size when the dict has one, and the message count otherwise |
| Invoke.InvokeWasmWithoutWait | faasmctl/util/invoke.py:158-192 | a missing user or function fails; a positive message count always fails; an input list of the wrong length also fails; none of these sends a POST or consumes a response; otherwise the empty batch is submitted under `app_id` with up to 100 attempts, consuming exactly admission's responses, and `app_id` is returned |

## Left out

- `requests.post`, real sleeping and the planner itself: the planner is a scripted endpoint and sleeps are log entries with their length in milliseconds.
- Protobuf JSON (`MessageToJson`, `Parse`, `ParseDict`, `MessageToDict`) and `prepare_planner_msg` (`faasmctl/util/planner.py` is not part of this model): a planner message is its operation tag and the value it carries, and a response's `Parse` result is given with the response.
- `generate_gid` (randomness) is not modelled: the fresh application id is a parameter, `gid`.
- `message_factory` (`faasmctl/util/message.py` is not part of this model): the template reads `user`, `function`, `mpi_world_size` and `input_data` from the dict, and every other field has its protobuf default.
- Batch.MessageFactory: models only the fields this core reads or writes; other Message fields and the message id are not modelled.
- Planner.BatchStatus: holds only `appId`, `finished` and `expectedNumMessages`. Per-message results are not modelled.
- Configuration and URL resolution (`get_faasm_ini_file`, `get_faasm_planner_host_port`, `in_docker`, URL formatting) and the `ini_file` and `url` parameters are not modelled: they only choose where to POST.
- `print` logging and the `dict_out` conversion are not modelled: they produce nothing the model can observe.
- Keys of `req_dict` other than `user` and `function` are not modelled.
- Protobuf's 32-bit ranges for `appId`, `groupIdx`, `chainedId` and `expectedNumMessages` are not modelled: integers are unbounded.
- Python `assert` statements disappear under `python -O`. The model keeps them as checks.
- Python strings may hold lone surrogates, on which `encode('utf-8')` raises. Dafny characters are Unicode scalar values, so that case cannot arise.
- MapCodec.SerializeString: writes the UTF-8 byte length as the prefix where the code writes `len(string)`; the two agree exactly on ASCII text, and the code's own encoding is kept as `MapCodec.EncodeString` with the lemmas about it (see Findings).
- MapCodec.SerializeMap: writes the byte-length-prefixed encoding, for the same reason; `Batch.BatchExecInputFactory` and `Invoke.InvokeWasmWithoutWait` inherit it.
- MapCodec.SerializeEntry: writes byte-length prefixes for the key and the value where the code writes `len(string)` (see Findings); on failure the buffer's contents are not stated, because the caller then drops the buffer.
- Batch.BatchExecInputFactory: each message's `inputData` is the byte-length-prefixed encoding of its input map, and an input fails as `LengthOverflow` when a UTF-8 byte length reaches 2^32, where the code stores the `len(string)`-prefixed blob and raises on a character count; the two agree exactly on ASCII input maps (`MapCodec.AsWrittenIsIntendedIffAscii`).
- Invoke.InvokeWasmWithoutWait: its `LengthOverflow` case tests the byte length of the first input map's text, not its character count, for the same reason; every other case is as in the code.
- Invoke.PreloadIfListed: when there are more messages than hosts, the half-pinned request it leaves is not restated here; `Invoke.PreloadHosts` states it, and `invoke_wasm` discards the request on that path.
- Invoke.PinHosts: on failure the request is left half-pinned, as in the code; the caller discards it, so nothing observes that state.
- Invoke.QueryResult: the code rebuilds the same status query on every round; the model builds it once.
- faasmctl/tasks/stream.py and faasmctl/tasks/__init__.py are not modelled: they are CLI wrappers and task registration.

## Findings

| source | as written | input that shows it | evidently intended | confidence | as-written member | corrected member |
|---|---|---|---|---|---|---|
| faasmctl/util/batch.py:9 | the length prefix is `len(string)`, a count of characters, but the bytes that follow are `string.encode('utf-8')` | `serialize_map({"é": ""})` gives `01 00 00 00 01 00 00 00 C3 A9 00 00 00 00`; a reader trusting the prefix takes one byte of the two-byte "é" | prefix each string with the byte length of its UTF-8 form, `len(string.encode('utf-8'))`, so the blob round-trips for all text | high (proved on the model, not executed) | MapCodec.NonAsciiKeyBreaksDecoding | MapCodec.RoundTripIntended |

`MapCodec.AsWrittenIsIntendedIffAscii` proves that the two encodings agree
exactly on ASCII-only maps. The serializing methods, and the batch builder
that calls them, write the corrected encoding; the code's encoding stays as
the functions `MapCodec.EncodeString`, `MapCodec.EncodeMap` and the lemmas
about them.
