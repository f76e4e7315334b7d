/**
 * read_response (main.cpp:47-86): receives into a 101-byte chunk, at most
 * 100 bytes per call, and strcats the chunk onto the caller's buffer until
 * the peer closes or recv fails.
 */
module Receiver {
  import opened Wrappers
  import opened CString
  import opened Transport

  /** A reply recv can give when asked for RecvLimit bytes. */
  predicate WellFormed(r: Reply) {
    match r
    case Data(b) => 1 <= |b| <= RecvLimit
    case Closed => true
    case Failed(c) => c < 0
  }

  /** The value socket->recv returns for a reply. */
  function RecvResult(r: Reply): int {
    match r
    case Data(b) => |b|
    case Closed => 0
    case Failed(c) => c
  }

  /**
   * The replies carry the loop to its end: each is well formed, and the
   * script does not run out before a reply that is not data.
   */
  predicate RecvScriptEnds(replies: seq<Reply>)
    decreases |replies|
  {
    |replies| > 0 && WellFormed(replies[0]) && (replies[0].Data? ==> RecvScriptEnds(replies[1..]))
  }

  /** The chunk array of read_response: 101 slots, the last one NUL. */
  predicate ChunkOk(chunk: seq<char>) {
    |chunk| == RecvLimit + 1 && chunk[RecvLimit] == '\0'
  }

  /** The chunk after recv writes `bytes` at its start; the slots after them keep what they held. */
  function Received(chunk: seq<char>, bytes: seq<char>): seq<char>
    requires |bytes| <= |chunk|
  {
    bytes + chunk[|bytes|..]
  }

  /** The chunk as read_response declares it: all NUL. */
  function EmptyChunk(): (c: seq<char>)
    ensures ChunkOk(c)
  {
    seq(RecvLimit + 1, _ => '\0')
  }

  /** The texts joined end to end. */
  function Concat(ts: seq<seq<char>>): seq<char> {
    if ts == [] then [] else ts[0] + Concat(ts[1..])
  }

  /**
   * What read_response returns, how many recv calls it makes, and the text
   * each strcat appends to the buffer.
   */
  datatype ReadOutcome = ReadOutcome(result: int, calls: nat, appends: seq<seq<char>>)

  /**
   * The loop of read_response from a chunk state and a count of bytes
   * received so far. Every append is a C string read out of a chunk whose
   * last slot stays NUL, so it has at most RecvLimit characters.
   */
  function ReadLoop(replies: seq<Reply>, chunk: seq<char>, received: int): (o: ReadOutcome)
    requires RecvScriptEnds(replies) && ChunkOk(chunk)
    ensures o.calls == |o.appends| + 1 <= |replies|
    ensures NulFree(Concat(o.appends))
    decreases |replies|
  {
    match replies[0]
    case Closed => ReadOutcome(received, 1, [])
    case Failed(c) => ReadOutcome(c, 1, [])
    case Data(b) =>
      var next := Received(chunk, b);
      assert next[RecvLimit] == chunk[RecvLimit];
      var rest := ReadLoop(replies[1..], next, received + |b|);
      NulFreeConcat(Str(next), Concat(rest.appends));
      assert Concat([Str(next)] + rest.appends) == Str(next) + Concat(rest.appends) by {
        assert ([Str(next)] + rest.appends)[1..] == rest.appends;
      }
      ReadOutcome(rest.result, rest.calls + 1, [Str(next)] + rest.appends)
  }

  /** read_response on a socket with these replies, from the zeroed chunk. */
  function ReadSpec(replies: seq<Reply>): (o: ReadOutcome)
    requires RecvScriptEnds(replies)
    ensures o.calls == |o.appends| + 1 <= |replies| && NulFree(Concat(o.appends))
  {
    ReadLoop(replies, EmptyChunk(), 0)
  }

  /**
   * The buffer can take every append: it holds a C string, and the text
   * the loop appends fits after it with its terminator.
   */
  predicate Fits(replies: seq<Reply>, buffer: seq<char>) {
    RecvScriptEnds(replies) && Terminated(buffer) &&
    StrLen(buffer) + |Concat(ReadSpec(replies).appends)| < |buffer|
  }

  /** socket->recv(chunk, 100), answered by reply number i of the script. */
  method Recv(replies: seq<Reply>, i: nat, chunk: array<char>) returns (result: int)
    requires i < |replies| && WellFormed(replies[i]) && ChunkOk(chunk[..])
    modifies chunk
    ensures result == RecvResult(replies[i])
    ensures chunk[..] == if replies[i].Data? then Received(old(chunk[..]), replies[i].bytes) else old(chunk[..])
    ensures ChunkOk(chunk[..])
  {
    match replies[i]
    case Data(b) =>
      forall k | 0 <= k < |b| {
        chunk[k] := b[k];
      }
      assert chunk[..] == Received(old(chunk[..]), b);
      result := |b|;
    case Closed =>
      result := 0;
    case Failed(c) =>
      result := c;
  }

  /** Concat distributes over joining the lists of texts. */
  lemma {:induction false} ConcatSplit(s: seq<seq<char>>, t: seq<seq<char>>)
    ensures Concat(s + t) == Concat(s) + Concat(t)
  {
    if s == [] {
      assert s + t == t;
    } else {
      assert (s + t)[1..] == s[1..] + t;
      ConcatSplit(s[1..], t);
    }
  }

  /** A turn of the loop that ends it: the result is the count so far, or the error code. */
  lemma ReadLoopStops(replies: seq<Reply>, chunk: seq<char>, received: int)
    requires RecvScriptEnds(replies) && ChunkOk(chunk) && !replies[0].Data?
    ensures ReadLoop(replies, chunk, received) ==
      ReadOutcome(if replies[0].Closed? then received else RecvResult(replies[0]), 1, [])
  {
  }

  /** A turn of the loop that reads data: one append, then the rest of the loop. */
  lemma ReadLoopStep(replies: seq<Reply>, chunk: seq<char>, received: int, bytes: seq<char>, next: seq<char>)
    requires RecvScriptEnds(replies) && ChunkOk(chunk) && replies[0] == Data(bytes)
    requires |bytes| <= |chunk| && next == Received(chunk, bytes)
    ensures RecvScriptEnds(replies[1..]) && ChunkOk(next)
    ensures var rest := ReadLoop(replies[1..], next, received + |bytes|);
      ReadLoop(replies, chunk, received) == ReadOutcome(rest.result, rest.calls + 1, [Str(next)] + rest.appends)
  {
    assert next[RecvLimit] == chunk[RecvLimit];
  }

  /** One strcat on the buffer extends the appended text by one chunk string. */
  lemma BufferStep(start: seq<char>, done: seq<seq<char>>, text: seq<char>, later: seq<seq<char>>)
    requires Terminated(start) && NulFree(Concat(done + ([text] + later)))
    requires StrLen(start) + |Concat(done + ([text] + later))| < |start|
    ensures NulFree(Concat(done)) && NulFree(text) && NulFree(Concat(done + [text]))
    ensures StrLen(start) + |Concat(done)| < |start|
    ensures StrLen(start) + |Concat(done + [text])| < |start|
    ensures StrLen(Append(start, Concat(done))) + |text| < |start|
    ensures Append(Append(start, Concat(done)), text) == Append(start, Concat(done + [text]))
  {
    ConcatSplit(done, [text] + later);
    ConcatSplit([text], later);
    ConcatSplit(done, [text]);
    assert Concat([text]) == text by { assert [text][1..] == []; }
    var d, l := Concat(done), Concat(later);
    assert Concat(done + ([text] + later)) == d + (text + l);
    NulFreeConcat(d, text + l);
    NulFreeConcat(text, l);
    NulFreeConcat(d, text);
    AppendTwice(start, Concat(done), text);
  }

  /**
   * The state of read_response's loop at its head: `done` holds the texts
   * appended so far, and the rest of the loop, run from reply i with this
   * chunk and count, completes `whole`.
   */
  ghost predicate Pending(replies: seq<Reply>, i: nat, chunk: seq<char>, received: int,
                          done: seq<seq<char>>, whole: ReadOutcome)
  {
    i < |replies| && RecvScriptEnds(replies[i..]) && ChunkOk(chunk) &&
    var rest := ReadLoop(replies[i..], chunk, received);
    whole.result == rest.result && whole.appends == done + rest.appends
  }

  /** The buffer before the loop, and room in it for every append of `whole`. */
  ghost predicate Room(start: seq<char>, whole: ReadOutcome) {
    Terminated(start) && NulFree(Concat(whole.appends)) &&
    StrLen(start) + |Concat(whole.appends)| < |start|
  }

  /**
   * The whole loop invariant: `Pending`, room for every append, and the
   * buffer `buf` holding the start text followed by the appends so far.
   */
  ghost predicate Reading(replies: seq<Reply>, i: nat, chunk: seq<char>, received: int,
                          done: seq<seq<char>>, whole: ReadOutcome, start: seq<char>, buf: seq<char>)
  {
    Pending(replies, i, chunk, received, done, whole) && Room(start, whole) &&
    NulFree(Concat(done)) && StrLen(start) + |Concat(done)| < |start| &&
    buf == Append(start, Concat(done))
  }

  /** A turn of the loop that ends it. */
  lemma ReadTurnStops(replies: seq<Reply>, i: nat, chunk: seq<char>, received: int,
                      done: seq<seq<char>>, whole: ReadOutcome, start: seq<char>, buf: seq<char>)
    requires Reading(replies, i, chunk, received, done, whole, start, buf) && !replies[i].Data?
    ensures buf == Append(start, Concat(whole.appends))
    ensures whole.result == if replies[i].Closed? then received else RecvResult(replies[i])
  {
    assert replies[i..][0] == replies[i];
    ReadLoopStops(replies[i..], chunk, received);
    assert whole.appends == done;
  }

  /** The strcat of a turn that receives data fits in the buffer. */
  lemma ReadTurnFits(replies: seq<Reply>, i: nat, before: seq<char>, now: seq<char>, received: int,
                     done: seq<seq<char>>, whole: ReadOutcome, start: seq<char>, buf: seq<char>)
    requires Reading(replies, i, before, received, done, whole, start, buf)
    requires replies[i].Data? && now == Received(before, replies[i].bytes)
    ensures Terminated(buf) && Terminated(now) && StrLen(buf) + StrLen(now) < |buf|
  {
    ReadTurnAppend(replies, i, before, now, received, done, whole, start);
  }

  /** A turn of the loop that receives data and appends the chunk string to the buffer. */
  lemma ReadTurnData(replies: seq<Reply>, i: nat, before: seq<char>, received: int, done: seq<seq<char>>,
                     whole: ReadOutcome, start: seq<char>, buf: seq<char>,
                     i': nat, now: seq<char>, received': int, done': seq<seq<char>>, buf': seq<char>)
    requires Reading(replies, i, before, received, done, whole, start, buf)
    requires replies[i].Data? && now == Received(before, replies[i].bytes)
    requires i' == i + 1 && received' == received + |replies[i].bytes| && done' == done + [Str(now)]
    requires Terminated(buf) && Terminated(now) && StrLen(buf) + StrLen(now) < |buf|
    requires buf' == Append(buf, Str(now))
    ensures Reading(replies, i', now, received', done', whole, start, buf')
  {
    PendingStep(replies, i, before, received, done, whole, i', now, received', done');
    ReadTurnAppend(replies, i, before, now, received, done, whole, start);
  }

  /** `Pending` moves on by one reply of data. */
  lemma PendingStep(replies: seq<Reply>, i: nat, before: seq<char>, received: int, done: seq<seq<char>>,
                    whole: ReadOutcome, i': nat, now: seq<char>, received': int, done': seq<seq<char>>)
    requires Pending(replies, i, before, received, done, whole)
    requires replies[i].Data? && now == Received(before, replies[i].bytes)
    requires i' == i + 1 && received' == received + |replies[i].bytes| && done' == done + [Str(now)]
    ensures Pending(replies, i', now, received', done', whole)
  {
    var b := replies[i].bytes;
    var after := ReadLoop(replies[i + 1..], now, received + |b|);
    assert RecvScriptEnds(replies[i + 1..]) && ChunkOk(now) &&
      ReadLoop(replies[i..], before, received) == ReadOutcome(after.result, after.calls + 1, [Str(now)] + after.appends) by {
      assert replies[i..][0] == replies[i];
      ReadLoopStep(replies[i..], before, received, b, now);
      assert replies[i..][1..] == replies[i + 1..];
    }
    assert (done + [Str(now)]) + after.appends == done + ([Str(now)] + after.appends);
  }

  /** The buffer facts of a turn that receives data. */
  lemma ReadTurnAppend(replies: seq<Reply>, i: nat, before: seq<char>, now: seq<char>, received: int,
                       done: seq<seq<char>>, whole: ReadOutcome, start: seq<char>)
    requires Pending(replies, i, before, received, done, whole) && Room(start, whole)
    requires replies[i].Data? && now == Received(before, replies[i].bytes)
    ensures Terminated(now) && NulFree(Concat(done)) && StrLen(start) + |Concat(done)| < |start|
    ensures NulFree(Concat(done + [Str(now)])) && StrLen(start) + |Concat(done + [Str(now)])| < |start|
    ensures StrLen(Append(start, Concat(done))) + StrLen(now) < |start|
    ensures Append(Append(start, Concat(done)), Str(now)) == Append(start, Concat(done + [Str(now)]))
  {
    var b := replies[i].bytes;
    assert replies[i..][0] == replies[i];
    ReadLoopStep(replies[i..], before, received, b, now);
    assert replies[i..][1..] == replies[i + 1..];
    var after := ReadLoop(replies[i + 1..], now, received + |b|);
    assert whole.appends == done + ([Str(now)] + after.appends);
    BufferStep(start, done, Str(now), after.appends);
  }

  /**
   * read_response(socket, buffer, buffer_length), with None or null for a
   * null pointer. buffer_length is only checked to be at least 1: it never
   * limits what strcat writes, so the buffer must be large enough.
   */
  method ReadResponse(socket: Option<Socket>, buffer: array?<char>, bufferLength: int) returns (result: int)
    requires socket.Some? && buffer != null && bufferLength >= 1 ==> Fits(socket.value.recvReplies, buffer[..])
    modifies buffer
    ensures socket.None? || buffer == null || bufferLength < 1 ==>
      result == ErrorParameter && (buffer != null ==> buffer[..] == old(buffer[..]))
    ensures socket.Some? && buffer != null && bufferLength >= 1 ==>
      var o := ReadSpec(socket.value.recvReplies);
      result == o.result && buffer[..] == Append(old(buffer[..]), Concat(o.appends))
  {
    if socket.None? || buffer == null || bufferLength < 1 {
      return ErrorParameter;
    }
    var replies := socket.value.recvReplies;
    ghost var start := buffer[..];
    var remainingBytes := bufferLength;
    var receivedBytes := 0;
    var chunk := new char[RecvLimit + 1](_ => '\0');
    assert chunk[..] == EmptyChunk();
    ghost var whole := ReadSpec(replies);
    ghost var done: seq<seq<char>> := [];
    assert Concat(done) == [];
    result := 1;
    var i := 0;
    assert replies[0..] == replies;
    while result > 0
      invariant Reading(replies, i, chunk[..], receivedBytes, done, whole, start, buffer[..])
      decreases |replies| - i
    {
      ghost var before, cur := chunk[..], buffer[..];
      result := Recv(replies, i, chunk);
      if result <= 0 {
        ReadTurnStops(replies, i, before, receivedBytes, done, whole, start, cur);
        if result == 0 {
          break;
        }
        return;
      }
      ghost var now := chunk[..];
      ghost var i0, received0, done0 := i, receivedBytes, done;
      assert replies[i].Data? && result == |replies[i].bytes|;
      ReadTurnFits(replies, i, before, now, receivedBytes, done, whole, start, cur);
      receivedBytes := receivedBytes + result;
      remainingBytes := remainingBytes - result;
      StrCat(buffer, chunk);
      done := done + [Str(now)];
      i := i + 1;
      ReadTurnData(replies, i0, before, received0, done0, whole, start, cur, i, chunk[..], receivedBytes, done, buffer[..]);
    }
    result := receivedBytes;
  }

  /** The bytes of the data replies before the first reply that is not data. */
  function Payloads(replies: seq<Reply>): (ps: seq<seq<char>>)
    requires RecvScriptEnds(replies)
    ensures |ps| < |replies| && !replies[|ps|].Data?
    ensures forall j :: 0 <= j < |ps| ==> replies[j] == Data(ps[j]) && 1 <= |ps[j]| <= RecvLimit
    decreases |replies|
  {
    if replies[0].Data? then [replies[0].bytes] + Payloads(replies[1..]) else []
  }

  /**
   * The loop makes one recv call per payload and one for the reply that
   * ends it, and one strcat per payload. It returns the reply's error code
   * verbatim, or on an orderly close the count so far plus the lengths of
   * all payloads.
   */
  lemma {:induction false} ReadLoopResult(replies: seq<Reply>, chunk: seq<char>, received: int)
    requires RecvScriptEnds(replies) && ChunkOk(chunk)
    ensures var o := ReadLoop(replies, chunk, received);
      var ps := Payloads(replies);
      o.calls == |ps| + 1 && |o.appends| == |ps| &&
      o.result == match replies[|ps|]
        case Failed(c) => c
        case _ => received + |Concat(ps)|
  {
    var ps := Payloads(replies);
    if replies[0].Data? {
      var b := replies[0].bytes;
      var next := Received(chunk, b);
      ReadLoopStep(replies, chunk, received, b, next);
      ReadLoopResult(replies[1..], next, received + |b|);
      assert ps[1..] == Payloads(replies[1..]);
      assert replies[|ps|] == replies[1..][|ps| - 1];
    }
  }

  /** Every strcat appends at most RecvLimit characters: the chunk's last slot stays NUL. */
  lemma {:induction false} AppendsWithinChunk(replies: seq<Reply>, chunk: seq<char>, received: int)
    requires RecvScriptEnds(replies) && ChunkOk(chunk)
    ensures var o := ReadLoop(replies, chunk, received);
      forall k :: 0 <= k < |o.appends| ==> |o.appends[k]| <= RecvLimit
  {
    if replies[0].Data? {
      var b := replies[0].bytes;
      var next := Received(chunk, b);
      ReadLoopStep(replies, chunk, received, b, next);
      AppendsWithinChunk(replies[1..], next, received + |b|);
      StrLenAt(next, StrLen(next));
    }
  }

  function Max(a: nat, b: nat): nat {
    if a < b then b else a
  }

  /** The length of the longest text. */
  function MaxLen(ts: seq<seq<char>>): nat {
    if ts == [] then 0 else Max(|ts[0]|, MaxLen(ts[1..]))
  }

  /** `MaxLen` bounds every text and is reached by one of them. */
  lemma {:induction false} MaxLenIsLongest(ts: seq<seq<char>>)
    ensures forall j :: 0 <= j < |ts| ==> |ts[j]| <= MaxLen(ts)
    ensures ts != [] ==> exists j :: 0 <= j < |ts| && |ts[j]| == MaxLen(ts)
  {
    if ts != [] {
      MaxLenIsLongest(ts[1..]);
      forall j | 1 <= j < |ts| ensures |ts[j]| <= MaxLen(ts) {
        assert ts[j] == ts[1..][j - 1];
      }
      if |ts[0]| < MaxLen(ts[1..]) {
        var j :| 0 <= j < |ts[1..]| && |ts[1..][j]| == MaxLen(ts[1..]);
        assert ts[j + 1] == ts[1..][j];
      }
    }
  }

  /** A chunk whose first m slots hold text and whose other slots are all NUL. */
  predicate ChunkHolds(chunk: seq<char>, m: nat) {
    ChunkOk(chunk) && m <= RecvLimit && NulFree(chunk[..m]) &&
    forall j :: m <= j < |chunk| ==> chunk[j] == '\0'
  }

  /** recv over a chunk holding m characters of text, with NUL-free bytes. */
  lemma ReceivedHolds(chunk: seq<char>, m: nat, b: seq<char>)
    requires ChunkHolds(chunk, m) && NulFree(b) && |b| <= RecvLimit
    ensures ChunkHolds(Received(chunk, b), Max(m, |b|))
    ensures Str(Received(chunk, b)) == Overlay(chunk[..m], b)
  {
    var next := Received(chunk, b);
    var n := Max(m, |b|);
    assert NulFree(next[..n]) by {
      forall j | 0 <= j < n ensures next[..n][j] != '\0' {
        if j < |b| {
          assert next[j] == b[j];
        } else {
          assert next[j] == chunk[..m][j];
        }
      }
    }
    StrLenAt(next, n);
    var o := Overlay(chunk[..m], b);
    assert next[..n] == o by {
      forall j | 0 <= j < n ensures next[..n][j] == o[j] {
        if j >= |b| {
          assert next[j] == chunk[..m][j];
        }
      }
    }
  }

  /** The text `b` written over the start of the text `prev`. */
  function Overlay(prev: seq<char>, b: seq<char>): (t: seq<char>)
    ensures |t| == Max(|prev|, |b|) && t[..|b|] == b
    ensures forall j :: |b| <= j < |t| ==> t[j] == prev[j]
  {
    if |b| < |prev| then b + prev[|b|..] else b
  }

  /**
   * The texts a chunk that is never cleared yields for the payloads `ps`,
   * when it starts out holding the text `prev`: each payload laid over the
   * text before it.
   */
  function StaleTexts(ps: seq<seq<char>>, prev: seq<char>): (ts: seq<seq<char>>)
    ensures |ts| == |ps|
  {
    if ps == [] then [] else
      var t := Overlay(prev, ps[0]);
      [t] + StaleTexts(ps[1..], t)
  }

  /**
   * With NUL-free payloads the strcats append exactly the stale texts:
   * recv overwrites the chunk's start and leaves the longer text of an
   * earlier call behind it.
   */
  lemma {:induction false} AppendsAreStaleTexts(replies: seq<Reply>, chunk: seq<char>, received: int, m: nat)
    requires RecvScriptEnds(replies) && ChunkHolds(chunk, m)
    requires forall j :: 0 <= j < |Payloads(replies)| ==> NulFree(Payloads(replies)[j])
    ensures ReadLoop(replies, chunk, received).appends == StaleTexts(Payloads(replies), chunk[..m])
  {
    if replies[0].Data? {
      var b := replies[0].bytes;
      var next := Received(chunk, b);
      var ps := Payloads(replies);
      assert ps[0] == b && ps[1..] == Payloads(replies[1..]);
      ReadLoopStep(replies, chunk, received, b, next);
      ReceivedHolds(chunk, m, b);
      var n := Max(m, |b|);
      AppendsAreStaleTexts(replies[1..], next, received + |b|, n);
    }
  }

  /** Each stale text is its payload written over the text before it. */
  lemma {:induction false} StaleTextsAt(ps: seq<seq<char>>, prev: seq<char>, k: nat)
    requires k < |ps|
    ensures var ts := StaleTexts(ps, prev);
      ts[k] == Overlay(if k == 0 then prev else ts[k - 1], ps[k])
  {
    if k > 0 {
      var t := Overlay(prev, ps[0]);
      var ts, rest := StaleTexts(ps, prev), StaleTexts(ps[1..], t);
      assert ts == [t] + rest;
      StaleTextsAt(ps[1..], t, k - 1);
      assert ts[k] == rest[k - 1] && ts[k - 1] == (if k == 1 then t else rest[k - 2]);
    }
  }

  /** Each stale text is as long as the longest payload so far, or the text it started from. */
  lemma {:induction false} StaleTextsLength(ps: seq<seq<char>>, prev: seq<char>, k: nat)
    requires k < |ps|
    ensures |StaleTexts(ps, prev)[k]| == Max(|prev|, MaxLen(ps[..k + 1]))
  {
    var t := Overlay(prev, ps[0]);
    var ts, rest := StaleTexts(ps, prev), StaleTexts(ps[1..], t);
    assert ts == [t] + rest;
    if k == 0 {
      assert ps[..1] == [ps[0]] && MaxLen([ps[0]]) == |ps[0]| by { assert [ps[0]][1..] == []; }
    } else {
      var m := MaxLen(ps[1..][..k]);
      StaleTextsLength(ps[1..], t, k - 1);
      assert MaxLen(ps[..k + 1]) == Max(|ps[0]|, m) by {
        assert ps[..k + 1][1..] == ps[1..][..k];
      }
      assert ts[k] == rest[k - 1];
    }
  }

  /**
   * From the zeroed chunk, with NUL-free payloads: the k-th strcat appends
   * as many characters as the longest of the first k + 1 payloads, its own
   * payload first and then stale bytes from the append before it.
   */
  lemma AppendsCarryStaleBytes(replies: seq<Reply>, k: nat)
    requires RecvScriptEnds(replies) && k < |Payloads(replies)|
    requires forall j :: 0 <= j < |Payloads(replies)| ==> NulFree(Payloads(replies)[j])
    ensures var a := ReadSpec(replies).appends;
      var ps := Payloads(replies);
      |a| == |ps| && |a[k]| == MaxLen(ps[..k + 1]) && |ps[k]| <= |a[k]| && a[k][..|ps[k]|] == ps[k] &&
      (k > 0 ==>
         |a[k]| == Max(|a[k - 1]|, |ps[k]|) &&
         forall j :: |ps[k]| <= j < |a[k]| ==> a[k][j] == a[k - 1][j])
  {
    assert EmptyChunk()[..0] == [];
    AppendsAreStaleTexts(replies, EmptyChunk(), 0, 0);
    var ps := Payloads(replies);
    StaleTextsAt(ps, [], k);
    StaleTextsLength(ps, [], k);
  }

  /** The chunks of the example below: the second still holds "bc" from the first. */
  lemma StaleExampleChunks(c1: seq<char>, c2: seq<char>)
    requires c1 == Received(EmptyChunk(), "abc") && c2 == Received(c1, "x")
    ensures ChunkOk(c1) && ChunkOk(c2) && Str(c1) == "abc" && Str(c2) == "xbc"
  {
    var c0 := EmptyChunk();
    assert c1[RecvLimit] == c0[RecvLimit] && c2[RecvLimit] == c1[RecvLimit];
    assert Str(c1) == "abc" by { StrLenAt(c1, 3); assert c1[..3] == "abc"; }
    assert Str(c2) == "xbc" by { StrLenAt(c2, 3); assert c2[..3] == "xbc"; }
  }

  /**
   * The quirk made concrete: "abc" then "x" then a close leaves "abcxbc"
   * appended to the buffer, not "abcx", while 4 is returned.
   */
  lemma ReadRepeatsStaleBytes()
    ensures var o := ReadSpec([Data("abc"), Data("x"), Closed]);
      o.result == 4 && o.appends == ["abc", "xbc"] &&
      Concat(o.appends) == "abcxbc" && Concat(Payloads([Data("abc"), Data("x"), Closed])) == "abcx"
  {
    var replies := [Data("abc"), Data("x"), Closed];
    var c1 := Received(EmptyChunk(), "abc");
    var c2 := Received(c1, "x");
    StaleExampleChunks(c1, c2);
    assert ReadLoop([Closed], c2, 4) == ReadOutcome(4, 1, []);
    assert ReadLoop([Data("x"), Closed], c1, 3) == ReadOutcome(4, 2, ["xbc"]) by {
      ReadLoopStep([Data("x"), Closed], c1, 3, "x", c2);
      assert [Data("x"), Closed][1..] == [Closed];
    }
    assert ReadLoop(replies, EmptyChunk(), 0) == ReadOutcome(4, 3, ["abc", "xbc"]) by {
      ReadLoopStep(replies, EmptyChunk(), 0, "abc", c1);
      assert replies[1..] == [Data("x"), Closed];
    }
    assert Concat(["abc", "xbc"]) == "abcxbc" by {
      assert ["abc", "xbc"][1..] == ["xbc"] && ["xbc"][1..] == [];
    }
    assert Payloads(replies) == ["abc", "x"] by {
      assert Payloads(replies[1..][1..]) == [];
    }
    assert Concat(["abc", "x"]) == "abcx" by {
      assert ["abc", "x"][1..] == ["x"] && ["x"][1..] == [];
    }
  }

  /**
   * read_response's loop as evidently intended: after each recv the chunk
   * is terminated right after the bytes received.
   */
  function TerminatedReadLoop(replies: seq<Reply>, chunk: seq<char>, received: int): (o: ReadOutcome)
    requires RecvScriptEnds(replies) && ChunkOk(chunk)
    ensures o.calls == |o.appends| + 1 <= |replies|
    ensures forall k :: 0 <= k < |o.appends| ==> |o.appends[k]| <= RecvLimit
    decreases |replies|
  {
    match replies[0]
    case Closed => ReadOutcome(received, 1, [])
    case Failed(c) => ReadOutcome(c, 1, [])
    case Data(b) =>
      var next := Received(chunk, b)[|b| := '\0'];
      var rest := TerminatedReadLoop(replies[1..], next, received + |b|);
      ReadOutcome(rest.result, rest.calls + 1, [Str(next)] + rest.appends)
  }

  /**
   * With the chunk terminated after each recv, the strcats append exactly
   * the payloads, so the buffer gains their concatenation.
   */
  lemma {:induction false} TerminatedReadAppendsPayloads(replies: seq<Reply>, chunk: seq<char>, received: int)
    requires RecvScriptEnds(replies) && ChunkOk(chunk)
    requires forall j :: 0 <= j < |Payloads(replies)| ==> NulFree(Payloads(replies)[j])
    ensures TerminatedReadLoop(replies, chunk, received).appends == Payloads(replies)
  {
    if replies[0].Data? {
      var b := replies[0].bytes;
      var next := Received(chunk, b)[|b| := '\0'];
      assert Payloads(replies)[0] == b;
      assert next[..|b|] == b;
      StrLenAt(next, |b|);
      TerminatedReadAppendsPayloads(replies[1..], next, received + |b|);
    }
  }
}
