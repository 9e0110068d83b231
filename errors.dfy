/**
 * The ways a call into the client can end without a value. Each Python
 * exception the core can raise is one constructor; `ScriptEnded` is the one
 * case that belongs to the model rather than to the client: the scripted
 * planner has no response left while the client is still waiting for one.
 */
module Errors {

  datatype Failure =
    | KeyMissing            // KeyError: msg_dict has no "user" or "function" key
    | InputArityMismatch    // AssertionError: len(input_list) != num_messages
    | ChainedArityMismatch  // AssertionError: len(chained_id_list) != num_messages
    | ChainedIdsMissing     // TypeError: indexing a chained_id_list that is None
    | LengthOverflow        // struct.error: a count does not fit in an unsigned 32-bit integer
    | HostListMismatch      // AssertionError: len(host_list) != expected message count
    | HostIndexOutOfRange   // IndexError: more messages than hosts in host_list
    | PreloadRejected(code: int)  // RuntimeError: the preload POST was not answered with 200
    | ParseError            // Parse: a response text that is not a BatchExecuteRequestStatus
    | StatusUnbound         // UnboundLocalError: query_result returns before any status was held
    | ScriptEnded           // the planner's scripted responses ran out
}
