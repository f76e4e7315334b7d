/**
 * send_request (main.cpp:14-45): drains the C string `request` to the
 * socket, one partial send at a time.
 */
module Sender {
  import opened Wrappers
  import opened CString
  import opened Transport

  /** One call socket->send(request + offset, length). */
  datatype SendCall = SendCall(offset: nat, length: nat)

  /**
   * What send_request returns, the send calls it makes, and the bytes the
   * socket accepted from those calls, in order.
   */
  datatype SendOutcome = SendOutcome(result: int, calls: seq<SendCall>, accepted: seq<char>)

  /** Sum of a sequence of counts. */
  function Sum(s: seq<int>): int {
    if s == [] then 0 else s[0] + Sum(s[1..])
  }

  /**
   * The send results carry the loop through while `remaining` bytes are
   * left: no call returns 0 (the loop would spin for ever), none returns
   * more than it was asked to send (the unsigned bytes_to_send would wrap),
   * and the script lasts until the loop ends.
   */
  predicate SendScriptLasts(results: seq<int>, remaining: nat)
    decreases |results|
  {
    remaining == 0 ||
    (|results| > 0 && results[0] != 0 && results[0] <= remaining &&
     (results[0] < 0 || SendScriptLasts(results[1..], remaining - results[0])))
  }

  /**
   * The loop of send_request entered with `sent` the count the previous
   * call returned (bytes_sent) and `remaining` bytes still to send
   * (bytes_to_send).
   */
  function SendLoop(request: seq<char>, results: seq<int>, sent: nat, remaining: nat): (o: SendOutcome)
    requires sent + remaining <= |request|
    requires SendScriptLasts(results, remaining)
    ensures o.result <= 0 && |o.calls| <= |results| && |o.accepted| <= remaining
    decreases remaining
  {
    if remaining == 0 then SendOutcome(0, [], [])
    else
      var r := results[0];
      var call := SendCall(sent, remaining);
      if r < 0 then SendOutcome(r, [call], [])
      else
        var rest := SendLoop(request, results[1..], r, remaining - r);
        SendOutcome(rest.result, [call] + rest.calls, request[sent..sent + r] + rest.accepted)
  }

  /** The arguments send_request can run on: a terminated request and a script that lasts. */
  predicate Admissible(socket: Option<Socket>, request: Option<seq<char>>) {
    socket.Some? && request.Some? ==>
      Terminated(request.value) && SendScriptLasts(socket.value.sendResults, StrLen(request.value))
  }

  /** send_request(socket, request), with None for a null pointer. */
  function SendRequestSpec(socket: Option<Socket>, request: Option<seq<char>>): SendOutcome
    requires Admissible(socket, request)
  {
    if socket.None? || request.None? then SendOutcome(ErrorParameter, [], [])
    else SendLoop(request.value, socket.value.sendResults, 0, StrLen(request.value))
  }

  /**
   * The state of send_request's loop at its head: `calls` and `accepted`
   * record what happened so far, and the rest of the loop, run from
   * result i with this offset and remaining count, completes `whole`.
   */
  ghost predicate SendPending(request: seq<char>, results: seq<int>, i: nat, sent: int, remaining: nat,
                              calls: seq<SendCall>, accepted: seq<char>, whole: SendOutcome)
  {
    i <= |results| && 0 <= sent && sent + remaining <= |request| && SendScriptLasts(results[i..], remaining) &&
    var rest := SendLoop(request, results[i..], sent, remaining);
    whole == SendOutcome(rest.result, calls + rest.calls, accepted + rest.accepted)
  }

  /** A call that fails ends the loop with its result. */
  lemma SendTurnFails(request: seq<char>, results: seq<int>, i: nat, sent: int, remaining: nat,
                      calls: seq<SendCall>, accepted: seq<char>, whole: SendOutcome)
    requires SendPending(request, results, i, sent, remaining, calls, accepted, whole)
    requires remaining != 0 && results[i] < 0
    ensures whole == SendOutcome(results[i], calls + [SendCall(sent, remaining)], accepted)
  {
    assert results[i..][0] == results[i];
  }

  /** A call that makes progress leaves the loop in the state for the next call. */
  lemma SendTurnProgress(request: seq<char>, results: seq<int>, i: nat, sent: int, remaining: nat,
                         calls: seq<SendCall>, accepted: seq<char>, whole: SendOutcome,
                         i': nat, sent': int, remaining': nat, calls': seq<SendCall>, accepted': seq<char>)
    requires SendPending(request, results, i, sent, remaining, calls, accepted, whole)
    requires remaining != 0 && results[i] >= 0
    requires i' == i + 1 && sent' == results[i] && remaining' == remaining - results[i]
    requires calls' == calls + [SendCall(sent, remaining)]
    requires accepted' == accepted + request[sent..sent + results[i]]
    ensures SendPending(request, results, i', sent', remaining', calls', accepted', whole)
  {
    assert results[i..][0] == results[i] && results[i..][1..] == results[i + 1..];
    var call := SendCall(sent, remaining);
    var piece := request[sent..sent + results[i]];
    var after := SendLoop(request, results[i + 1..], results[i], remaining - results[i]);
    assert SendLoop(request, results[i..], sent, remaining)
      == SendOutcome(after.result, [call] + after.calls, piece + after.accepted);
    assert calls + ([call] + after.calls) == calls' + after.calls;
    assert accepted + (piece + after.accepted) == accepted' + after.accepted;
  }

  /** send_request: returns its result, the calls it made and the bytes the socket accepted. */
  method SendRequest(socket: Option<Socket>, request: Option<seq<char>>)
    returns (result: int, calls: seq<SendCall>, accepted: seq<char>)
    requires Admissible(socket, request)
    ensures socket.None? || request.None? ==> result == ErrorParameter && calls == [] && accepted == []
    ensures SendOutcome(result, calls, accepted) == SendRequestSpec(socket, request)
  {
    if socket.None? || request.None? {
      return ErrorParameter, [], [];
    }
    var results, req := socket.value.sendResults, request.value;
    var bytesToSend: nat := StrLen(req);
    var bytesSent: int := 0;
    var i: nat := 0;
    calls, accepted := [], [];
    ghost var whole := SendLoop(req, results, 0, bytesToSend);
    assert results[0..] == results;
    assert calls + whole.calls == whole.calls && accepted + whole.accepted == whole.accepted;
    while bytesToSend != 0
      invariant SendPending(req, results, i, bytesSent, bytesToSend, calls, accepted, whole)
      decreases bytesToSend
    {
      var offset: nat := bytesSent;
      // socket->send(request + bytes_sent, bytes_to_send)
      var r := results[i];
      if r < 0 {
        SendTurnFails(req, results, i, bytesSent, bytesToSend, calls, accepted, whole);
        return r, calls + [SendCall(offset, bytesToSend)], accepted;
      }
      ghost var i0, toSend0, calls0, accepted0 := i, bytesToSend, calls, accepted;
      bytesSent := r;
      calls := calls + [SendCall(offset, bytesToSend)];
      accepted := accepted + req[offset..offset + r];
      bytesToSend := bytesToSend - r;
      i := i + 1;
      SendTurnProgress(req, results, i0, offset, toSend0, calls0, accepted0, whole,
                       i, bytesSent, bytesToSend, calls, accepted);
    }
    assert calls + [] == calls && accepted + [] == accepted;
    result := 0;
  }

  /**
   * The loop returns 0 or the first negative send result verbatim, and
   * issues no call after it; when it returns 0 every call made progress and
   * the counts add up to the bytes there were to send.
   */
  lemma {:induction false} SendLoopResult(request: seq<char>, results: seq<int>, sent: nat, remaining: nat)
    requires sent + remaining <= |request|
    requires SendScriptLasts(results, remaining)
    ensures var o := SendLoop(request, results, sent, remaining);
      var k := |o.calls|;
      k <= |results| && (k == 0 <==> remaining == 0) &&
      (forall i :: 0 <= i < k - 1 ==> results[i] > 0) &&
      o.result == (if k > 0 && results[k - 1] < 0 then results[k - 1] else 0) &&
      (o.result == 0 ==> (forall i :: 0 <= i < k ==> results[i] > 0) && Sum(results[..k]) == remaining) &&
      (o.result == 0 ==> |o.accepted| == remaining)
  {
    if remaining > 0 && results[0] > 0 {
      var r := results[0];
      SendLoopResult(request, results[1..], r, remaining - r);
      var rest := SendLoop(request, results[1..], r, remaining - r);
      var k := |rest.calls| + 1;
      assert results[..k][1..] == results[1..][..k - 1];
    }
  }

  /**
   * Every call after the first starts at the count the previous call
   * returned, not at the running total, and asks for exactly the bytes
   * still unsent.
   */
  lemma {:induction false} SendLoopOffsets(request: seq<char>, results: seq<int>, sent: nat, remaining: nat)
    requires sent + remaining <= |request|
    requires SendScriptLasts(results, remaining)
    ensures var o := SendLoop(request, results, sent, remaining);
      |o.calls| <= |results| &&
      forall i :: 0 <= i < |o.calls| ==>
        o.calls[i].offset == (if i == 0 then sent else results[i - 1]) &&
        o.calls[i].length == remaining - Sum(results[..i])
  {
    SendLoopResult(request, results, sent, remaining);
    if remaining > 0 && results[0] > 0 {
      var r := results[0];
      SendLoopOffsets(request, results[1..], r, remaining - r);
      var o := SendLoop(request, results, sent, remaining);
      forall i | 1 <= i < |o.calls|
        ensures o.calls[i].offset == results[i - 1]
        ensures o.calls[i].length == remaining - Sum(results[..i])
      {
        assert results[..i][1..] == results[1..][..i - 1];
      }
    }
  }

  /**
   * From the top of send_request, call i starts at the cumulative count of
   * the calls before it exactly when i is 0 or 1.
   */
  lemma SendOffsetCumulativeIff(request: seq<char>, results: seq<int>, i: nat)
    requires Terminated(request) && SendScriptLasts(results, StrLen(request))
    requires i < |SendLoop(request, results, 0, StrLen(request)).calls|
    ensures i < |results|
    ensures SendLoop(request, results, 0, StrLen(request)).calls[i].offset == Sum(results[..i]) <==> i <= 1
  {
    var n := StrLen(request);
    SendLoopResult(request, results, 0, n);
    SendLoopOffsets(request, results, 0, n);
    if i == 1 {
      assert results[..1] == [results[0]];
    } else if i >= 2 {
      assert results[..i] == [results[0]] + results[1..i];
      SumPositive(results[1..i]);
      assert results[1..i] == results[1..i - 1] + [results[i - 1]];
      SumSplit(results[1..i - 1], [results[i - 1]]);
      SumPositive(results[1..i - 1]);
    }
  }

  /** A sum of positive counts is at least zero. */
  lemma {:induction false} SumPositive(s: seq<int>)
    requires forall i :: 0 <= i < |s| ==> s[i] > 0
    ensures Sum(s) >= 0
  {
    if s != [] {
      SumPositive(s[1..]);
    }
  }

  /** Sum distributes over concatenation. */
  lemma {:induction false} SumSplit(s: seq<int>, t: seq<int>)
    ensures Sum(s + t) == Sum(s) + Sum(t)
  {
    if s == [] {
      assert s + t == t;
    } else {
      assert (s + t)[1..] == s[1..] + t;
      SumSplit(s[1..], t);
    }
  }

  /**
   * When send_request completes within two calls, the socket accepted
   * exactly the request.
   */
  lemma SendAcceptsRequestWithinTwoCalls(request: seq<char>, results: seq<int>)
    requires Terminated(request) && SendScriptLasts(results, StrLen(request))
    requires var o := SendLoop(request, results, 0, StrLen(request)); o.result == 0 && |o.calls| <= 2
    ensures SendLoop(request, results, 0, StrLen(request)).accepted == Str(request)
  {
    var n := StrLen(request);
    SendLoopResult(request, results, 0, n);
    if n > 0 {
      var r := results[0];
      var rest := SendLoop(request, results[1..], r, n - r);
      SendLoopResult(request, results[1..], r, n - r);
      if n - r > 0 {
        var r2 := results[1..][0];
        assert SendLoop(request, results[1..][1..], r2, n - r - r2).calls == [];
        assert rest.accepted == request[r..r + r2];
      }
    }
  }

  /**
   * The quirk made concrete: for the request "abc" and a socket that takes
   * one byte per call, the socket receives "abb".
   */
  lemma SendRepeatsBytes()
    ensures var o := SendRequestSpec(Some(Socket([1, 1, 1], [])), Some("abc\0"));
      o.result == 0 && o.calls == [SendCall(0, 3), SendCall(1, 2), SendCall(1, 1)] &&
      o.accepted == "abb" && o.accepted != Str("abc\0")
  {
    var req := "abc\0";
    assert StrLen(req) == 3 && Str(req) == "abc" by { StrLenAt(req, 3); assert req[..3] == "abc"; }
    assert SendScriptLasts([1], 1) && SendLoop(req, [1], 1, 1) == SendOutcome(0, [SendCall(1, 1)], "b") by {
      assert [1][1..] == [] && req[1..2] == "b";
    }
    assert SendScriptLasts([1, 1], 2) && SendLoop(req, [1, 1], 1, 2) == SendOutcome(0, [SendCall(1, 2), SendCall(1, 1)], "bb") by {
      assert [1, 1][1..] == [1] && req[1..2] == "b";
    }
    assert SendLoop(req, [1, 1, 1], 0, 3) == SendOutcome(0, [SendCall(0, 3), SendCall(1, 2), SendCall(1, 1)], "abb") by {
      assert [1, 1, 1][1..] == [1, 1] && req[0..1] == "a";
    }
  }

  /**
   * send_request's loop as evidently intended: each call starts at the
   * running total of accepted bytes.
   */
  function CumulativeSendLoop(request: seq<char>, results: seq<int>, sent: nat, remaining: nat): (o: SendOutcome)
    requires sent + remaining <= |request|
    requires SendScriptLasts(results, remaining)
    ensures o.result <= 0 && |o.calls| <= |results| && |o.accepted| <= remaining
    decreases remaining
  {
    if remaining == 0 then SendOutcome(0, [], [])
    else
      var r := results[0];
      var call := SendCall(sent, remaining);
      if r < 0 then SendOutcome(r, [call], [])
      else
        var rest := CumulativeSendLoop(request, results[1..], sent + r, remaining - r);
        SendOutcome(rest.result, [call] + rest.calls, request[sent..sent + r] + rest.accepted)
  }

  /** Adjacent slices join into one. */
  lemma SliceJoin(s: seq<char>, a: nat, b: nat, c: nat)
    requires a <= b <= c <= |s|
    ensures s[a..b] + s[b..c] == s[a..c]
  {
  }

  /**
   * With cumulative offsets the socket always receives a prefix of the
   * unsent text, and all of it when the loop completes.
   */
  lemma {:induction false} CumulativeSendDeliversRequest(request: seq<char>, results: seq<int>, sent: nat, remaining: nat)
    requires sent + remaining <= |request|
    requires SendScriptLasts(results, remaining)
    ensures var o := CumulativeSendLoop(request, results, sent, remaining);
      |o.accepted| <= remaining && o.accepted == request[sent..sent + |o.accepted|] &&
      (o.result == 0 ==> o.accepted == request[sent..sent + remaining])
  {
    var o := CumulativeSendLoop(request, results, sent, remaining);
    if remaining == 0 || results[0] < 0 {
      assert o.accepted == [];
    } else {
      var r := results[0];
      var rest := CumulativeSendLoop(request, results[1..], sent + r, remaining - r);
      assert o.result == rest.result && o.accepted == request[sent..sent + r] + rest.accepted;
      CumulativeSendDeliversRequest(request, results[1..], sent + r, remaining - r);
      SliceJoin(request, sent, sent + r, sent + r + |rest.accepted|);
      SliceJoin(request, sent, sent + r, sent + remaining);
    }
  }
}
