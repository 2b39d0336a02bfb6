/**
 * The public driver surface: how `set_ptp_cmd` and
 * `set_queued_cmd_start_exec` build their requests and turn the
 * dispatcher's status into a result, which serial ports `search_dobot`
 * offers, and which port and baud rate `connect_dobot` settles on.
 *
 * The operating system's port list is a parameter, and opening the port
 * is represented by the settings it would be opened with.
 */
module Api {
  import opened Wrappers
  import opened Messages
  import opened Packets
  import opened Communication
  import ProtocolIds

  /** A connector failure; its causes belong to the serial layer and are not modelled. */
  datatype DobotError = CommunicationError(status: CommunicateStatus) | ConnectorError | PortNotFound

  // ----- set_ptp_cmd -----

  /**
   * The request `set_ptp_cmd` submits: the point-to-point command, a
   * write, queued as asked, carrying the command's encoded parameters.
   */
  function PtpCmdMessage(encoded: EncodedParams, isQueued: bool): (m: Message)
    ensures m.id == 84 && m.rw == 1
    ensures IsQueued(m) <==> isQueued
    ensures m.paramsLen == encoded.size % 256 && m.params == encoded.buffer
  {
    ProtocolIds.SampleValues();
    Messages.New(ProtocolIds.ProtocolPTPCmd, 1, isQueued, Some(encoded))
  }

  /**
   * The result of `set_ptp_cmd` once its entry is resolved: a reply to a
   * queued command yields the device's queue index, read from the first
   * reply byte only; a reply to an immediate command yields no index; any
   * other status is handed back inside `CommunicationError`.
   */
  function PtpCmdOutcome(isQueued: bool, status: CommunicateStatus): (r: Result<Option<nat>, DobotError>)
    ensures r.Ok? <==> status.NoError?
    ensures r.Ok? ==> (r.value.Some? <==> isQueued)
    ensures r.Ok? && isQueued ==> r.value.value == status.reply.params[0] < 256
    ensures r.Err? ==> r.error == CommunicationError(status)
  {
    if status.NoError? then
      if isQueued then Ok(Some(status.reply.params[0])) else Ok(None)
    else
      Err(CommunicationError(status))
  }

  // ----- set_queued_cmd_start_exec -----

  /** The request `set_queued_cmd_start_exec` submits: start the device queue, an immediate write with no parameters. */
  function StartExecMessage(): (m: Message)
    ensures m.id == 240 && m.rw == 1 && !IsQueued(m) && m.paramsLen == 0
    ensures forall i :: 0 <= i < PARAMS_SIZE ==> m.params[i] == 0
  {
    ProtocolIds.QueuedCmdBlock();
    Messages.New(ProtocolIds.ProtocolQueuedCmdStartExec, 1, false, None)
  }

  /** The result of `set_queued_cmd_start_exec`: success on any reply, the status itself otherwise. */
  function StartExecOutcome(status: CommunicateStatus): (r: Result<(), DobotError>)
    ensures r.Ok? <==> status.NoError?
    ensures r.Err? ==> r.error == CommunicationError(status)
  {
    if status.NoError? then Ok(()) else Err(CommunicationError(status))
  }

  /**
   * A request submitted to an idle dispatcher is queued, and the next
   * `run` step resolves its handle with what `Process` makes of it and
   * leaves the queue empty.
   */
  lemma SubmitToIdle(c: Communicator, m: Message, replies: seq<Option<Packet>>, handle: nat)
    requires c.handlers == [] && Encodable(m)
    ensures var ins := InsertMessage(c, m, handle);
            var s := Run(ins.comm, replies, 0);
            && ins.immediate.None?
            && s.comm.handlers == []
            && s.resolved == Some(Resolution(handle, Process(m, replies, 0).status))
  {
    var ins := InsertMessage(c, m, handle);
    assert ins.comm.handlers == [MessageHandler(m, handle)];
  }

  /**
   * `set_ptp_cmd` with a dispatcher that takes up its entry from write
   * `pos` on fails exactly when the entry times out, and then with
   * `CommunicationError(Timeout)`; on success it yields an index exactly
   * for a queued command.
   */
  lemma PtpCmdExchange(m: Message, isQueued: bool, replies: seq<Option<Packet>>, pos: nat)
    requires Encodable(m) && m.id == 84 && (IsQueued(m) <==> isQueued)
    ensures var r := PtpCmdOutcome(isQueued, Process(m, replies, pos).status);
            && (r.Err? <==> Process(m, replies, pos).status.Timeout?)
            && (r.Err? ==> r.error == CommunicationError(Timeout))
            && (r.Ok? ==> (r.value.Some? <==> isQueued))
  {
    var o := Process(m, replies, pos);
    var r := PtpCmdOutcome(isQueued, o.status);
    assert r.Err? <==> o.status.Timeout? by {
      assert Settled(o.status, m);
      assert r.Ok? <==> o.status.NoError?;
    }
  }

  /** An immediate `set_ptp_cmd` fails exactly when none of its four replies carries id 84. */
  lemma PtpCmdImmediateTimeout(m: Message, replies: seq<Option<Packet>>, pos: nat)
    requires Encodable(m) && m.id == 84 && !IsQueued(m)
    ensures PtpCmdOutcome(false, Process(m, replies, pos).status).Err?
            <==> forall i :: pos <= i < pos + MAX_ATTEMPTS ==> !Acknowledges(Reply(replies, i), 84)
  {
    var o := Process(m, replies, pos);
    assert o == Request(m, replies, pos);
    PtpCmdExchange(m, false, replies, pos);
  }

  /** The request `set_ptp_cmd` builds meets the conditions of `PtpCmdExchange` whenever it can be framed. */
  lemma PtpCmdMessageFits(encoded: EncodedParams, isQueued: bool)
    ensures var m := PtpCmdMessage(encoded, isQueued);
            m.id == 84 && (IsQueued(m) <==> isQueued) && (Encodable(m) <==> encoded.size % 256 <= PARAMS_SIZE)
  {
  }

  // ----- search_dobot -----

  /** How the operating system describes a serial port; only a USB port carries a product name. */
  datatype PortType = UsbPort(product: Option<string>) | PciPort | BluetoothPort | UnknownPort

  datatype PortInfo = PortInfo(portName: string, portType: PortType)

  /** `needle` occurs in `s` starting at index `i`. */
  predicate OccursAt(s: string, needle: string, i: nat) {
    i + |needle| <= |s| && s[i..i + |needle|] == needle
  }

  /** `str::contains`: some window of `s` is `needle`, tried from the front. */
  function Contains(s: string, needle: string): (b: bool)
    ensures OccursAt(s, needle, 0) ==> b
    decreases |s|
  {
    OccursAt(s, needle, 0) || (|s| > 0 && Contains(s[1..], needle))
  }

  /** `Contains` holds exactly when the needle occurs at some index. */
  lemma {:induction false} ContainsOccurs(s: string, needle: string)
    ensures Contains(s, needle) <==> exists i :: 0 <= i <= |s| && OccursAt(s, needle, i)
    decreases |s|
  {
    if Contains(s, needle) {
      if !OccursAt(s, needle, 0) {
        ContainsOccurs(s[1..], needle);
        var i :| 0 <= i <= |s[1..]| && OccursAt(s[1..], needle, i);
        assert s[1..][i..i + |needle|] == s[i + 1..i + 1 + |needle|];
        assert OccursAt(s, needle, i + 1);
      }
    } else {
      if exists i :: 0 <= i <= |s| && OccursAt(s, needle, i) {
        var i :| 0 <= i <= |s| && OccursAt(s, needle, i);
        assert i != 0;
        ContainsOccurs(s[1..], needle);
        assert s[1..][i - 1..i - 1 + |needle|] == s[i..i + |needle|];
        assert OccursAt(s[1..], needle, i - 1);
        assert false;
      }
    }
  }

  /** The product names of the USB-serial bridges a Dobot controller shows up behind. */
  predicate IsDobotProduct(product: string) {
    || Contains(product, "USB-to-Serial")
    || Contains(product, "CH340")
    || Contains(product, "CP210")
    || Contains(product, "USB2.0-Serial")
    || Contains(product, "USB Serial Port")
  }

  /** What the `filter_map` closure makes of one port: its name when it looks like a Dobot. */
  function Candidate(p: PortInfo): (r: Option<string>)
    ensures r.Some? <==> p.portType.UsbPort? && p.portType.product.Some? && IsDobotProduct(p.portType.product.value)
    ensures r.Some? ==> r.value == p.portName
  {
    match p.portType
    case UsbPort(product) =>
      (match product
       case Some(name) => if IsDobotProduct(name) then Some(p.portName) else None
       case None => None)
    case _ => None
  }

  /** `search_dobot` over the port list: the names of the candidate ports, in list order. */
  function SearchDobot(ports: seq<PortInfo>): (names: seq<string>)
    ensures |names| <= |ports|
    ensures |names| == 0 <==> forall i :: 0 <= i < |ports| ==> Candidate(ports[i]).None?
    decreases |ports|
  {
    if |ports| == 0 then []
    else
      var rest := SearchDobot(ports[1..]);
      assert forall i :: 1 <= i < |ports| ==> ports[1..][i - 1] == ports[i];
      match Candidate(ports[0])
      case Some(name) => [name] + rest
      case None => rest
  }

  /** Searching a concatenation searches each part, in order. */
  lemma {:induction false} SearchDobotAppend(a: seq<PortInfo>, b: seq<PortInfo>)
    ensures SearchDobot(a + b) == SearchDobot(a) + SearchDobot(b)
    decreases |a|
  {
    if |a| > 0 {
      assert (a + b)[1..] == a[1..] + b;
      SearchDobotAppend(a[1..], b);
    } else {
      assert a + b == b;
    }
  }

  /** A one-port list yields that port's name exactly when it is a candidate. */
  lemma SearchDobotSingle(p: PortInfo)
    ensures SearchDobot([p]) == if Candidate(p).Some? then [p.portName] else []
  {
    assert [p][1..] == [];
  }

  /** A name is offered exactly when some port in the list is a candidate under that name. */
  lemma {:induction false} SearchDobotMembers(ports: seq<PortInfo>, name: string)
    ensures name in SearchDobot(ports) <==> exists i :: 0 <= i < |ports| && Candidate(ports[i]) == Some(name)
    decreases |ports|
  {
    if |ports| > 0 {
      SearchDobotMembers(ports[1..], name);
      if exists i :: 1 <= i < |ports| && Candidate(ports[i]) == Some(name) {
        var i :| 1 <= i < |ports| && Candidate(ports[i]) == Some(name);
        assert ports[1..][i - 1] == ports[i];
      }
      if exists i :: 0 <= i < |ports[1..]| && Candidate(ports[1..][i]) == Some(name) {
        var i :| 0 <= i < |ports[1..]| && Candidate(ports[1..][i]) == Some(name);
        assert ports[i + 1] == ports[1..][i];
      }
    }
  }

  // ----- connect_dobot -----

  /** The baud rate used when none is given. */
  const DEFAULT_BAUD_RATE: nat := 115200

  /** The port name and baud rate the connector is opened with. */
  datatype ConnectSettings = ConnectSettings(portName: string, baudRate: nat)

  /**
   * `connect_dobot` up to opening the port. The baud rate defaults to
   * 115200. The search runs whether or not a port name is given, and an
   * empty result fails with `PortNotFound` even when one is; otherwise a
   * given name is used as is, and without one the first candidate is.
   */
  function ConnectDobot(portName: Option<string>, baudRate: Option<nat>, ports: seq<PortInfo>)
    : (r: Result<ConnectSettings, DobotError>)
    ensures r.Err? <==> forall i :: 0 <= i < |ports| ==> Candidate(ports[i]).None?
    ensures r.Err? ==> r.error == PortNotFound
    ensures r.Ok? ==> r.value.baudRate == (if baudRate.Some? then baudRate.value else DEFAULT_BAUD_RATE)
    ensures r.Ok? && portName.Some? ==> r.value.portName == portName.value
    ensures r.Ok? && portName.None? ==> r.value.portName in SearchDobot(ports)
  {
    var baud := baudRate.GetOr(DEFAULT_BAUD_RATE);
    var found := SearchDobot(ports);
    if |found| == 0 then Err(PortNotFound)
    else Ok(ConnectSettings(portName.GetOr(found[0]), baud))
  }

  /**
   * Without a port name, `connect_dobot` opens the first port in list
   * order that is a candidate.
   */
  lemma {:induction false} ConnectDobotPicksFirst(baudRate: Option<nat>, ports: seq<PortInfo>, k: nat)
    requires k < |ports| && Candidate(ports[k]).Some?
    requires forall i :: 0 <= i < k ==> Candidate(ports[i]).None?
    ensures ConnectDobot(None, baudRate, ports).Ok?
    ensures ConnectDobot(None, baudRate, ports).value.portName == ports[k].portName
  {
    assert ports == ports[..k] + ports[k..];
    SearchDobotAppend(ports[..k], ports[k..]);
    assert ports[k..] == [ports[k]] + ports[k + 1..];
    SearchDobotAppend([ports[k]], ports[k + 1..]);
    SearchDobotSingle(ports[k]);
    assert SearchDobot(ports[..k]) == [] by {
      assert forall i :: 0 <= i < k ==> ports[..k][i] == ports[i];
    }
  }

  /**
   * A port name given by the caller is not enough on a machine with no
   * candidate port: the search result is unwrapped before the name is
   * looked at.
   */
  lemma ExplicitPortNeedsCandidate()
    ensures ConnectDobot(Some("/dev/ttyUSB0"), None, [PortInfo("/dev/ttyUSB0", PciPort)]) == Err(PortNotFound)
  {
    assert Candidate(PortInfo("/dev/ttyUSB0", PciPort)).None?;
  }

  /**
   * The port selection with the search run only when no name is given:
   * a given name is always used, and only a search that finds nothing
   * fails.
   */
  function ConnectDobotWithLazySearch(portName: Option<string>, baudRate: Option<nat>, ports: seq<PortInfo>)
    : (r: Result<ConnectSettings, DobotError>)
    ensures r.Err? <==> portName.None? && forall i :: 0 <= i < |ports| ==> Candidate(ports[i]).None?
    ensures r.Err? ==> r.error == PortNotFound
    ensures r.Ok? ==> r.value.baudRate == (if baudRate.Some? then baudRate.value else DEFAULT_BAUD_RATE)
    ensures r.Ok? && portName.Some? ==> r.value.portName == portName.value
    ensures r.Ok? && portName.None? ==> r.value.portName in SearchDobot(ports)
  {
    var baud := baudRate.GetOr(DEFAULT_BAUD_RATE);
    match portName
    case Some(name) => Ok(ConnectSettings(name, baud))
    case None =>
      var found := SearchDobot(ports);
      if |found| == 0 then Err(PortNotFound) else Ok(ConnectSettings(found[0], baud))
  }

  /** The two selections differ only when a name is given and no candidate port exists. */
  lemma LazySearchAgrees(portName: Option<string>, baudRate: Option<nat>, ports: seq<PortInfo>)
    ensures ConnectDobotWithLazySearch(portName, baudRate, ports) != ConnectDobot(portName, baudRate, ports)
            <==> portName.Some? && forall i :: 0 <= i < |ports| ==> Candidate(ports[i]).None?
  {
  }
}
