/**
 * The socket as the send and receive helpers see it. The mbed socket is a
 * foreign object; here it is the script of results its calls return, in
 * the order the calls are made.
 */
module Transport {

  /** NSAPI_ERROR_PARAMETER of the mbed socket API: invalid arguments. */
  const ErrorParameter: int := -3003

  /** The count read_response asks recv for; its chunk has one more slot. */
  const RecvLimit: nat := 100

  /** What one recv call does: deliver bytes, report an orderly close (0), or fail with a negative code. */
  datatype Reply = Data(bytes: seq<char>) | Closed | Failed(code: int)

  /** A connected socket: the results its send calls return, and the replies its recv calls give. */
  datatype Socket = Socket(sendResults: seq<int>, recvReplies: seq<Reply>)
}
