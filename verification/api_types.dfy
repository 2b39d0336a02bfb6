/**
 * The small parameter encoders of the public API: the suction cap's state
 * as the flag pair the firmware expects, and the handheld-teaching
 * trigger mode as a parameter buffer.
 */
module ApiTypes {
  import opened Wire
  import opened Wrappers
  import opened Messages
  import opened Packets
  import ProtocolIds

  // ----- suction cap -----

  datatype EndEffectorSuctionCapState = Off | In | Out

  /** Whether the cap is under control at all, and if so whether it sucks or blows. */
  datatype EndEffectorSuctionCapParams = EndEffectorSuctionCapParams(enableCtrl: bool, suck: bool)

  /**
   * `Into<EndEffectorSuctionCapParams>`: the cap is controlled unless it
   * is off, and it sucks exactly when it is pulling in.
   */
  function SuctionCapParams(s: EndEffectorSuctionCapState): (p: EndEffectorSuctionCapParams)
    ensures p.enableCtrl <==> !s.Off?
    ensures p.suck <==> s.In?
    ensures !p.enableCtrl ==> !p.suck
  {
    match s
    case Off => EndEffectorSuctionCapParams(false, false)
    case In => EndEffectorSuctionCapParams(true, true)
    case Out => EndEffectorSuctionCapParams(true, false)
  }

  /**
   * The state a flag pair stands for, if any: an uncontrolled cap that
   * sucks is not a state the mapping produces.
   */
  function SuctionCapState(p: EndEffectorSuctionCapParams): (s: Option<EndEffectorSuctionCapState>)
    ensures s.None? <==> !p.enableCtrl && p.suck
    ensures s.Some? ==> (s.value.Off? <==> !p.enableCtrl)
  {
    if !p.enableCtrl then (if p.suck then None else Some(Off))
    else if p.suck then Some(In)
    else Some(Out)
  }

  /** Reading back the flag pair of a state gives that state. */
  lemma SuctionCapRoundTrip(s: EndEffectorSuctionCapState)
    ensures SuctionCapState(SuctionCapParams(s)) == Some(s)
  {
  }

  /** Every flag pair that stands for a state is the one that state maps to. */
  lemma SuctionCapStateExact(p: EndEffectorSuctionCapParams)
    ensures SuctionCapState(p).Some? ==> SuctionCapParams(SuctionCapState(p).value) == p
  {
  }

  /** Distinct states give distinct flag pairs. */
  lemma SuctionCapInjective(a: EndEffectorSuctionCapState, b: EndEffectorSuctionCapState)
    ensures SuctionCapParams(a) == SuctionCapParams(b) ==> a == b
  {
    SuctionCapRoundTrip(a);
    SuctionCapRoundTrip(b);
  }

  // ----- handheld-teaching trigger mode -----

  datatype HHTTrigMode = TriggeredOnKeyReleased | TriggeredOnPeriodicInterval

  /**
   * `HHTTrigMode::to_params`: one meaningful byte, 0 for key release and
   * 1 for the periodic trigger, with that same byte filling the whole
   * parameter buffer.
   */
  function HhtTrigModeParams(mode: HHTTrigMode): (e: EncodedParams)
    ensures e.size == 1
    ensures forall i :: 0 <= i < PARAMS_SIZE ==> e.buffer[i] == e.buffer[0]
    ensures e.buffer[0] == 0 <==> mode.TriggeredOnKeyReleased?
    ensures e.buffer[0] == 1 <==> mode.TriggeredOnPeriodicInterval?
  {
    var b: Byte := match mode
      case TriggeredOnKeyReleased => 0
      case TriggeredOnPeriodicInterval => 1;
    EncodedParams(1, seq(PARAMS_SIZE, _ => b))
  }

  /**
   * The trigger mode a message's first declared parameter byte names, if
   * it declares one and that byte is 0 or 1.
   */
  function HhtTrigModeOf(m: Message): (r: Option<HHTTrigMode>)
    ensures r.Some? ==> 1 <= m.paramsLen && m.params[0] <= 1
    ensures r == Some(TriggeredOnKeyReleased) <==> 1 <= m.paramsLen && m.params[0] == 0
  {
    if m.paramsLen == 0 then None
    else if m.params[0] == 0 then Some(TriggeredOnKeyReleased)
    else if m.params[0] == 1 then Some(TriggeredOnPeriodicInterval)
    else None
  }

  /**
   * A trigger-mode request survives the wire: the message `Message::new`
   * builds from a mode, written to a buffer with room for its frame and
   * parsed back, still names that mode.
   */
  lemma HhtTrigModeRoundTrip(mode: HHTTrigMode, isQueued: bool, buf: seq<Byte>)
    requires |buf| >= 1 + 2 + 4
    ensures var m := New(ProtocolIds.ProtocolHHTTrigMode, 1, isQueued, Some(HhtTrigModeParams(mode)));
            var out := ToBytes(FromMessage(m), buf).1;
            && FromBytes(out).Some?
            && HhtTrigModeOf(ToMessage(FromBytes(out).value)) == Some(mode)
  {
    var m := New(ProtocolIds.ProtocolHHTTrigMode, 1, isQueued, Some(HhtTrigModeParams(mode)));
    assert m.paramsLen == 1 && HhtTrigModeOf(m) == Some(mode);
    WireRoundTrip(m, buf);
    HhtTrigModeReceived(m);
  }

  /** The trigger mode a message names survives the reduction to what a peer receives. */
  lemma HhtTrigModeReceived(m: Message)
    requires Encodable(m)
    ensures HhtTrigModeOf(Received(m)) == HhtTrigModeOf(m)
  {
    if m.paramsLen > 0 {
      assert Received(m).params[0] == m.params[0];
    }
  }
}
