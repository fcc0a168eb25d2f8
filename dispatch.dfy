/** `process_message`: the response the agent builds for a request. */
module Dispatch {
  import opened Bytes
  import Varint
  import opened Messages
  import Framing

  /** The synthetic display the agent always reports. */
  const FixedDisplay: DisplayResponse := DisplayResponse(
    success := true, width := 240, height := 320, secure := false,
    xdpi := 240, ydpi := 320, fps := 2, rotation := 0, density := 280)

  /**
   * A GET_DISPLAY request is answered with its own id, the type GET_DISPLAY
   * and the serialised fixed display; any other request gets the untouched
   * default Envelope.
   */
  function ProcessMessage(request: Envelope): (response: Envelope)
    ensures Framing.Sendable(response)
    ensures ByteSize(response) > 0 <==> request.msgType == Some(GET_DISPLAY)
  {
    if request.msgType == Some(GET_DISPLAY) then
      DisplayReplySize(IdOf(request), FixedDisplay);
      Envelope(Some(IdOf(request)), Some(GET_DISPLAY), Some(SerializeDisplay(FixedDisplay)))
    else
      DefaultEnvelope
  }

  /**
   * A reply carrying a display response is well formed and at most 64
   * bytes long, whatever the id: six for the id, two for the type, and two
   * plus at most 54 for the payload.
   */
  lemma DisplayReplySize(id: uint32, d: DisplayResponse)
    ensures var e := Envelope(Some(id), Some(GET_DISPLAY), Some(SerializeDisplay(d)));
      WellFormed(e) && 0 < ByteSize(e) <= 64
  {
    DisplaySizeBound(d);
    Varint.Size32IsLength(id);
  }

  /**
   * A GET_DISPLAY request gets its own id and type back, and a payload that
   * parses to the fixed display record.
   */
  lemma DisplayRequestAnswered(request: Envelope)
    requires request.msgType == Some(GET_DISPLAY)
    ensures var response := ProcessMessage(request);
      && response.id == Some(IdOf(request))
      && response.msgType == Some(GET_DISPLAY)
      && response.message == Some(SerializeDisplay(FixedDisplay))
      && ParseDisplay(response.message.value) == Some(FixedDisplay)
  {
    DisplayRoundTrip(FixedDisplay);
  }

  /** Any other request gets the default Envelope, which has nothing to send. */
  lemma OtherRequestsUnanswered(request: Envelope)
    requires request.msgType != Some(GET_DISPLAY)
    ensures ProcessMessage(request) == DefaultEnvelope
    ensures SerializeEnvelope(ProcessMessage(request)) == []
  {
    DefaultEnvelopeEmpty();
  }
}
