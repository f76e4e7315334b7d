# Wi-Fi HTTP client core, modelled in Dafny

The program is an mbed OS example for a board with Wi-Fi. It connects to a
network and opens a TCP socket to `www.mocky.io`. It sends an HTTP GET
request and reads the response into a 1000-byte static buffer. It then cuts
the JSON object out of the response and parses it. This project models the
three routines of `main.cpp` that move and frame the bytes:

- **`send_request`** (module `Sender`). It sends the C string `request`
  through partial `send` calls until nothing is left or a call fails.
- **`read_response`** (module `Receiver`). It calls `recv` into a 101-byte
  `chunk` and `strcat`s the chunk onto the caller's buffer, until the peer
  closes or `recv` fails.
- **The framing scan of `main`** (module `Framer`). It finds the first `{`
  with `strchr`. It then walks back from the end of the response string,
  clearing characters until it meets a `}`, and flags a window that cannot
  hold an object. This model lifts the scan into a method `FrameJson` over
  the response array.

The supporting modules are these:

- `CString` models the C strings the routines use: `strlen`, `strchr` and
  `strcat`. `strcat` is modelled both on values (`Append`) and in place on
  arrays (`StrCat`).
- `Transport` models the socket as scripted behaviour:
  - `sendResults` holds the value each `send` call returns, in order.
  - `recvReplies` holds what each `recv` call delivers: `Data(bytes)`,
    `Closed` (recv returns 0) or `Failed(code)`.
  - A null pointer argument is `None` for the socket and the request, and
    a `null` array for the buffer.

Each loop is a method whose `ensures` ties its results to a recursive
specification function. For example, `SendRequest` is tied to `SendLoop`
and `ReadResponse` is tied to `ReadLoop`. The properties of each routine
are lemmas about those functions.

The model follows the code as written, including two defects. Each defect
is listed under Findings together with its corrected definition:

- `send_request` passes `request + bytes_sent`. There, `bytes_sent` is the
  count the *previous* call returned, not the running total.
- `read_response` never terminates `chunk` after `recv`, so bytes left over
  from a longer earlier chunk are appended again.

## Model

| member | source | states |
|---|---|---|
| CString.StrLen | main.cpp:22 | `strlen`: the index of the first NUL; every character before it is non-NUL |
| CString.StrChr | main.cpp:215 | `strchr(s, c)`: the index of the first `c` before the terminator, or `None` when the string has no `c` |
| CString.Append | main.cpp:78 | the value of `strcat`: same array length, still terminated, and its string is the old string followed by the appended text |
| CString.AppendTwice | main.cpp:78 | two successive `strcat`s leave the same memory as one `strcat` of the two texts joined |
| CString.StrCat | main.cpp:78 | `strcat(dst, src)` in place: `dst` becomes `Append(old dst, string of src)`, and `src` is not changed |
| Sender.SendLoop | main.cpp:28-41 | the loop from a given offset and count: it returns 0 or a negative send result, makes no more calls than the script has results, and accepts no more bytes than remained to send |
| Sender.SendRequest | main.cpp:14-45 | returns `NSAPI_ERROR_PARAMETER` and makes no call when either pointer is null; otherwise its result, its send calls and the bytes accepted are exactly those of `SendLoop` started at offset 0 with `strlen(request)` bytes to send |
| Sender.SendLoopResult | main.cpp:28-44 | the loop returns the first negative send result unchanged, and no call follows it, or else it returns 0; on 0 every call was positive, the counts add up to `strlen(request)`, and that many bytes were accepted |
| Sender.SendLoopOffsets | main.cpp:28-41 | call i asks for the bytes still unsent (the length less the sum of earlier counts), starting at offset 0 for the first call and at the previous call's count after that |
| Sender.SendOffsetCumulativeIff | main.cpp:31 | from the top, call i starts at the running total of earlier counts if and only if i is 0 or 1 |
| Sender.SendAcceptsRequestWithinTwoCalls | main.cpp:28-41 | when the loop succeeds within two calls, the socket accepted exactly the request string |
| Sender.CumulativeSendLoop | main.cpp:31 | the loop with each call starting at the running total: it returns 0 or a negative send result, makes no more calls than the script has results, and accepts no more bytes than remained to send |
| Sender.SendRepeatsBytes | main.cpp:31 | for the request "abc" and a socket taking one byte per call, the calls are (0,3), (1,2), (1,1), the result is 0, and the socket receives "abb" rather than "abc" |
| Sender.CumulativeSendDeliversRequest | main.cpp:28-41 | with cumulative offsets, the accepted bytes are always a prefix of the unsent text, and all of it when the loop returns 0 |
| Receiver.Recv | main.cpp:60 | `recv(chunk, 100)` returns the byte count, 0 on close or the error code; on data it writes the bytes at the front of the chunk and leaves the other slots as they were; otherwise the chunk is unchanged; the last slot stays NUL |
| Receiver.ReadLoop | main.cpp:59-79 | the loop calls `recv` once per append plus once for the reply that ends it, and never more times than the script has replies; everything it appends is NUL-free |
| Receiver.ReadResponse | main.cpp:47-86 | returns `NSAPI_ERROR_PARAMETER` and leaves the buffer alone on a null socket or buffer or a length below 1; otherwise it returns `ReadLoop`'s result and the buffer's string becomes its old string followed by every appended text, in order |
| Receiver.ReadSpec | main.cpp:47-86 | `read_response` from the zeroed chunk: one more `recv` call than `strcat` calls, no more calls than the script has replies, and the appended text is NUL-free |
| Receiver.ReadLoopResult | main.cpp:59-85 | one `recv` per data reply plus one, and one `strcat` per data reply; the result is the error code unchanged, or on close the bytes received, which is the total length of all payloads |
| Receiver.AppendsWithinChunk | main.cpp:55-78 | no `strcat` appends more than 100 characters, because the chunk's 101st slot stays NUL |
| Receiver.AppendsAreStaleTexts | main.cpp:55-78 | with NUL-free payloads, the appended texts are the payloads each written over the previous chunk text (`StaleTexts`), not the payloads themselves |
| Receiver.AppendsCarryStaleBytes | main.cpp:55-78 | with NUL-free payloads, append k starts with payload k and is as long as the longest payload so far; past payload k it repeats what append k-1 held |
| Receiver.ReadRepeatsStaleBytes | main.cpp:55-78 | for replies "abc", "x" and then close, the result is 4 but the buffer gains "abcxbc" instead of "abcx" |
| Receiver.TerminatedReadLoop | main.cpp:55-78 | the loop with the chunk terminated after each `recv`: one more `recv` call than `strcat` calls, no more calls than the script has replies, and no append longer than 100 characters |
| Receiver.TerminatedReadAppendsPayloads | main.cpp:60-78 | with NUL-free payloads, when the chunk is terminated after the received bytes, the appended texts are exactly the payloads (`strcat` stops at a payload's first NUL) |
| Framer.LastCloseBrace | main.cpp:221-230 | the backward scan stops at the largest index i in [1, strlen] holding `}`, or at 0 when there is none; index 0 is never inspected |
| Framer.LastCloseBraceUnique | main.cpp:221-230 | the stopping index is the only index with those properties |
| Framer.FrameSpec | main.cpp:215-235 | the scan's result: the buffer keeps its length and is still NUL at `strlen`, the stopping index is at most `strlen`, and a found `{` lies inside the string |
| Framer.FrameJson | main.cpp:215-235 | the first-`{` index, the stopping index and the invalid flag agree with `FrameSpec`; the stopping index is below `strlen` unless both are 0; each slot in (size, strlen] is cleared to NUL and every other slot is unchanged |
| Framer.FrameIdempotent | main.cpp:221-230 | scanning the cleared buffer again stops at the same index and changes nothing |
| Framer.FrameInvalidIff | main.cpp:232-235 | the window is flagged invalid if and only if no `}` stands in (0, strlen) at or after the first `{` (anywhere in that range when there is no `{`) |
| Framer.ClearedWindow | main.cpp:223-230 | after clearing (z, strlen], the string at any index a no greater than z is exactly the text from a to z |
| Framer.FrameWindow | main.cpp:215-235 | when a `{` exists and the window is valid, the string at the `{` in the cleared buffer is exactly the response text from that `{` to the last `}` |
| Framer.FrameCutsTrailingText | main.cpp:215-235 | for "x{a}y", the window is found at 1..3, it is valid, and the trailing "y" is cleared |

## Left out

- Network bring-up, DNS lookup, socket open, connect and close, the LED and the sleep (main.cpp:115-180, 206-211): these are I/O on the board. The socket is replaced by a script of results.
- `parse_json_data` and the nlohmann JSON library (main.cpp:88-112, 237): a foreign library, not part of this model.
- Every `printf`, including the first-line print of `read_response` that uses `strstr` (main.cpp:82-83): output only. That print's pointer difference is undefined when the response has no newline. The model does not reproduce that case.
- `response[result] = '\0'` after `read_response` (main.cpp:212) is not modelled. `FrameJson` accepts any terminated response. On a negative `result` that store writes before the start of the array.
- The outer `while (true)` loop of `main` and the reuse of the static `response` buffer across its turns are not modelled. The framing scan takes the response as given.
- `NSAPI_ERROR_PARAMETER` is defined in mbed's `nsapi_types.h`, which is not part of this model. Its value, -3003, is written out as `Transport.ErrorParameter`.
- Sender.SendRequest: a `send` result of 0 leaves `bytes_to_send` as it was and resets the offset to 0, so a later positive count sends again from the start of the request (for "abc" and results 1, 0, 2 the calls are (0,3), (1,2), (0,2) and the peer gets "aab"); an endless run of zeros spins for ever. The precondition `SendScriptLasts` excludes 0 results, so neither case is modelled. A result above the bytes still to send makes the unsigned `bytes_to_send` wrap; `SendScriptLasts` excludes that too, and requires the script to last until the loop ends.
- Receiver.ReadResponse: `strcat` past the end of the buffer is undefined behaviour, so `Fits` requires the buffer to hold every append. The `RecvScriptEnds` precondition requires the reply script to end with a close or an error; a peer that never closes is not modelled.
- Receiver.ReadResponse: `remaining_bytes` is updated as in the source but bounds nothing, because the source never reads it. `buffer_length` is checked only against 1.
- Receiver.ReadResponse: `received_bytes` and `remaining_bytes` (int) are unbounded integers here, and their 32-bit overflow is not modelled. With NUL-free payloads each append is at least as long as its payload (`AppendsCarryStaleBytes`), so under `Fits` `received_bytes` stays below the buffer's length. A payload with a NUL byte still adds its full length to `received_bytes` but appends less, possibly nothing, so enough such replies push both counts past the `int` range; that signed overflow is undefined in C and the model keeps counting. `bytes_sent` and `bytes_to_send` stay within the request's length under `SendScriptLasts`, and `json_source_size` (uint32_t) within the response's length.
- Framer.FrameJson: the check `response + json_source_size < json_source_start` with a null `json_source_start` compares a pointer with null. The model takes that comparison as false, as on a flat address space, so with no `{` only a stopping index of 0 flags the window.

## Findings

| source | as written | input that shows it | evidently intended | confidence | as-written member | corrected member |
|---|---|---|---|---|---|---|
| main.cpp:31 | each `send` starts at `request + bytes_sent`, where `bytes_sent` is the previous call's count | request "abc", a socket accepting one byte per call: the calls send from offsets 0, 1, 1 and the peer receives "abb" | start each call at the running total of accepted bytes, so the peer receives the request | not executed | Sender.SendRepeatsBytes | Sender.CumulativeSendDeliversRequest |
| main.cpp:55-78 | `chunk` is reused without a terminator after the received bytes, so `strcat` appends leftovers of a longer earlier chunk | replies "abc", then "x", then close: `read_response` returns 4 but appends "abcxbc" | terminate the chunk at `chunk[result]` after each `recv`, so the buffer gains exactly the payloads when they hold no NUL byte | not executed | Receiver.ReadRepeatsStaleBytes | Receiver.TerminatedReadAppendsPayloads |
