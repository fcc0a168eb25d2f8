/**
 * One peer session: `receive_data` (one read, its decode, dispatch and
 * reply) and `manage_connexion` (the loop that keeps calling it while its
 * `connected` flag is set). The results of `select` and of the peeking `recv`
 * are inputs: each round of the loop is an Event.
 */
module Connection {
  import opened Bytes
  import opened Messages
  import Varint
  import Framing
  import opened Dispatch
  import opened Streams

  /**
   * What the system calls of one round report: the result of `select`, the
   * byte count of the peeking `recv`, and the bytes the round's fresh input
   * stream gets to read.
   */
  datatype Event = Event(numReady: int, bytecount: int, chunk: seq<byte>)

  /** What one `receive_data` call returns and writes back to the peer. */
  datatype Step = Step(code: int, reply: seq<byte>)

  /**
   * What `receive_data` writes back for the bytes of one read: the frame of
   * the response when the read holds a frame and the response has something
   * to send, nothing otherwise.
   */
  function Respond(chunk: seq<byte>): seq<byte>
  {
    var request := Framing.Decode(DefaultEnvelope, chunk);
    if request.Some? && ByteSize(ProcessMessage(request.value)) > 0 then
      Framing.Encode(ProcessMessage(request.value))
    else
      []
  }

  /**
   * `receive_data`: with bytes available, decode one frame and reply to it;
   * return 1 either way. With nothing available (the peer has shut down its end) or a failed
   * peek, return -1 without decoding.
   */
  function ReceiveStep(bytecount: int, chunk: seq<byte>): (r: Step)
    ensures r.code == 1 || r.code == -1
    ensures r.code == 1 <==> bytecount > 0
    ensures bytecount <= 0 ==> r.reply == []
  {
    if bytecount > 0 then Step(1, Respond(chunk)) else Step(-1, [])
  }

  /**
   * `receive_data` on the socket: peeks (`bytecount` is the result), then
   * decodes, dispatches and replies through `out`.
   */
  method ReceiveData(bytecount: int, chunk: seq<byte>, out: OutputStream) returns (code: int)
    modifies out
    ensures code == ReceiveStep(bytecount, chunk).code
    ensures out.written == old(out.written) + ReceiveStep(bytecount, chunk).reply
  {
    if bytecount > 0 {
      var ok, request := Framing.RecvMessage(chunk, DefaultEnvelope);
      if ok {
        var response := ProcessMessage(request);
        if ByteSize(response) > 0 {
          Framing.SendMessage(response, out);
        }
      }
      return 1;
    } else {
      return -1;
    }
  }

  /** A GET_DISPLAY request is answered with a frame the peer decodes into the display response. */
  lemma DisplayRequestReplied(bytecount: int, chunk: seq<byte>, request: Envelope)
    requires bytecount > 0
    requires Framing.Decode(DefaultEnvelope, chunk) == Some(request)
    requires request.msgType == Some(GET_DISPLAY)
    ensures var step := ReceiveStep(bytecount, chunk);
      && step.code == 1
      && Framing.Decode(DefaultEnvelope, step.reply) == Some(ProcessMessage(request))
      && ParseDisplay(ProcessMessage(request).message.value) == Some(FixedDisplay)
  {
    var response := ProcessMessage(request);
    Framing.RoundTrip(response, []);
    assert Framing.Encode(response) + [] == Framing.Encode(response);
    DisplayRequestAnswered(request);
  }

  /**
   * Only a GET_DISPLAY request is answered: `receive_data` writes something
   * exactly when the peek reports bytes, they hold a frame, and the frame's
   * request has type GET_DISPLAY.
   */
  lemma RepliesOnlyToDisplayRequests(bytecount: int, chunk: seq<byte>)
    ensures var request := Framing.Decode(DefaultEnvelope, chunk);
      ReceiveStep(bytecount, chunk).reply != [] <==>
        bytecount > 0 && request.Some? && request.value.msgType == Some(GET_DISPLAY)
  {
    var request := Framing.Decode(DefaultEnvelope, chunk);
    if bytecount > 0 && request.Some? && request.value.msgType == Some(GET_DISPLAY) {
      var body := SerializeEnvelope(ProcessMessage(request.value));
      assert Framing.Encode(ProcessMessage(request.value)) == Varint.Encode(|body|) + body;
    }
  }

  /** A round leaves `connected` set exactly when `select` and the peek both report data. */
  predicate KeepsConnected(ev: Event)
  {
    ev.numReady > 0 && ev.bytecount > 0
  }

  /**
   * Where `manage_connexion` stops over a sequence of rounds: whether it
   * cleared `connected` and left its loop, and after how many rounds. A loop
   * still running when the rounds run out has not ended. Leaving the loop
   * closes nothing: the socket stays open.
   */
  datatype Outcome = Outcome(ended: bool, rounds: nat)

  /**
   * The control flow of `manage_connexion`: a `select` result of 0 or less
   * clears `connected`, and so does a `receive_data` result of -1, which
   * it returns exactly when the peek reports no bytes.
   */
  function Rounds(events: seq<Event>): (r: Outcome)
    ensures r.rounds <= |events|
    ensures !r.ended ==> r.rounds == |events|
    decreases |events|
  {
    if events == [] then Outcome(false, 0)
    else if !KeepsConnected(events[0]) then Outcome(true, 1)
    else
      var rest := Rounds(events[1..]);
      Outcome(rest.ended, rest.rounds + 1)
  }

  /**
   * Everything `manage_connexion` writes: the replies of the rounds that
   * keep `connected` set, in order (the round that ends the loop writes nothing).
   */
  function Sent(events: seq<Event>): seq<byte>
    decreases |events|
  {
    if events == [] || !KeepsConnected(events[0]) then []
    else ReceiveStep(events[0].bytecount, events[0].chunk).reply + Sent(events[1..])
  }

  /** The loop ends exactly when some round clears `connected`. */
  lemma {:induction false} EndsOnFailure(events: seq<Event>)
    ensures Rounds(events).ended <==> exists j :: 0 <= j < |events| && !KeepsConnected(events[j])
    decreases |events|
  {
    if events != [] && KeepsConnected(events[0]) {
      var tail := events[1..];
      EndsOnFailure(tail);
      assert forall j :: 1 <= j < |events| ==> events[j] == tail[j - 1];
      assert forall j :: 0 <= j < |tail| ==> tail[j] == events[j + 1];
    }
  }

  /**
   * The loop stops at the first round that clears `connected`: an ended
   * session's last round is such a round, and every round before the last
   * left `connected` set.
   */
  lemma {:induction false} StopsAtFirstFailure(events: seq<Event>)
    ensures var r := Rounds(events);
      && (r.ended ==> 1 <= r.rounds && !KeepsConnected(events[r.rounds - 1]))
      && (forall j :: 0 <= j < r.rounds - 1 ==> KeepsConnected(events[j]))
      && (!r.ended ==> forall j :: 0 <= j < |events| ==> KeepsConnected(events[j]))
    decreases |events|
  {
    if events != [] && KeepsConnected(events[0]) {
      var tail := events[1..];
      StopsAtFirstFailure(tail);
      assert forall j :: 1 <= j < |events| ==> events[j] == tail[j - 1];
    }
  }

  /**
   * Nothing is written when no round's read holds a GET_DISPLAY request.
   */
  lemma {:induction false} SilentWithoutDisplayRequests(events: seq<Event>)
    requires forall j :: 0 <= j < |events| ==>
      var request := Framing.Decode(DefaultEnvelope, events[j].chunk);
      !(request.Some? && request.value.msgType == Some(GET_DISPLAY))
    ensures Sent(events) == []
    decreases |events|
  {
    if events != [] && KeepsConnected(events[0]) {
      RepliesOnlyToDisplayRequests(events[0].bytecount, events[0].chunk);
      var tail := events[1..];
      assert forall j :: 0 <= j < |tail| ==> tail[j] == events[j + 1];
      SilentWithoutDisplayRequests(tail);
    }
  }

  /**
   * One pass of the loop in `manage_connexion`: with `select` reporting the
   * socket readable, run `receive_data`; `connected` stays set exactly
   * when `select` and the peek both succeed, and only such a round writes anything.
   */
  method Round(ev: Event, out: OutputStream) returns (connected: bool)
    modifies out
    ensures connected == KeepsConnected(ev)
    ensures connected ==> out.written == old(out.written) + ReceiveStep(ev.bytecount, ev.chunk).reply
    ensures !connected ==> out.written == old(out.written)
  {
    connected := true;
    if ev.numReady > 0 {
      var code := ReceiveData(ev.bytecount, ev.chunk, out);
      if code == -1 {
        connected := false;
      }
    } else {
      connected := false;
    }
  }

  /** A round that leaves `connected` set: one more round, and its reply is written. */
  lemma RoundContinues(events: seq<Event>, i: nat, sent: seq<byte>)
    requires i < |events| && KeepsConnected(events[i])
    requires var r := Rounds(events[i..]);
      Rounds(events) == Outcome(r.ended, i + r.rounds) && Sent(events) == sent + Sent(events[i..])
    ensures var r := Rounds(events[i + 1..]);
      var reply := ReceiveStep(events[i].bytecount, events[i].chunk).reply;
      Rounds(events) == Outcome(r.ended, i + 1 + r.rounds) && Sent(events) == (sent + reply) + Sent(events[i + 1..])
  {
    assert events[i..][0] == events[i] && events[i..][1..] == events[i + 1..];
    var reply := ReceiveStep(events[i].bytecount, events[i].chunk).reply;
    AppendAssoc(sent, reply, Sent(events[i + 1..]));
  }

  /** A round that clears `connected` is the last, and writes nothing. */
  lemma RoundEnds(events: seq<Event>, i: nat, sent: seq<byte>)
    requires i < |events| && !KeepsConnected(events[i])
    requires var r := Rounds(events[i..]);
      Rounds(events) == Outcome(r.ended, i + r.rounds) && Sent(events) == sent + Sent(events[i..])
    ensures Rounds(events) == Outcome(true, i + 1) && Sent(events) == sent
  {
    assert events[i..][0] == events[i];
    assert sent + [] == sent;
  }

  /** Concatenation of what the loop writes regroups freely. */
  lemma AppendAssoc(a: seq<byte>, b: seq<byte>, c: seq<byte>)
    ensures a + (b + c) == (a + b) + c
  {
  }

  /**
   * `manage_connexion`: while connected, wait for readability and run
   * `receive_data`; stop at the first failed `select` or the first -1.
   */
  method ManageConnexion(events: seq<Event>, out: OutputStream) returns (ended: bool, rounds: nat)
    modifies out
    ensures Outcome(ended, rounds) == Rounds(events)
    ensures out.written == old(out.written) + Sent(events)
  {
    var connected := true;
    var i := 0;
    ghost var sent: seq<byte> := [];
    assert events[0..] == events;
    while connected && i < |events|
      invariant 0 <= i <= |events|
      invariant out.written == old(out.written) + sent
      invariant connected ==> var r := Rounds(events[i..]);
        Rounds(events) == Outcome(r.ended, i + r.rounds) && Sent(events) == sent + Sent(events[i..])
      invariant !connected ==> Rounds(events) == Outcome(true, i) && Sent(events) == sent
      decreases |events| - i
    {
      var ev := events[i];
      connected := Round(ev, out);
      if connected {
        RoundContinues(events, i, sent);
        AppendAssoc(old(out.written), sent, ReceiveStep(ev.bytecount, ev.chunk).reply);
        sent := sent + ReceiveStep(ev.bytecount, ev.chunk).reply;
      } else {
        RoundEnds(events, i, sent);
      }
      i := i + 1;
    }
    if connected {
      assert events[i..] == [];
      assert sent + [] == sent;
    }
    ended := !connected;
    rounds := i;
  }

}
