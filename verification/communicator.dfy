/**
 * The dispatcher: a FIFO of pending requests, drained one entry per `Run`
 * step. Each exchange writes the request's packet and reads one reply,
 * retrying up to three more times on silence or on a reply for another
 * command. A queued request is preceded by a "left space" probe, whose
 * failure ends the entry with `Timeout` before the request is written.
 *
 * The serial transport is an oracle: `replies[i]` is what the read after
 * the i-th write returns (`None` is silence until the timeout), and once
 * the oracle is exhausted every read is silent. Every write is recorded.
 * The completion channel of an entry is a handle number; resolving it is
 * reported as a `Resolution`.
 */
module Communication {
  import opened Wire
  import opened Wrappers
  import opened Messages
  import opened Packets

  /** More than this many pending entries makes `InsertMessage` reject. */
  const MAX_MESSAGES: nat := 128

  /** Retries after the first attempt of an exchange. */
  const MAX_RETRIES: nat := 3

  /** Attempts an exchange makes at most. */
  const MAX_ATTEMPTS: nat := MAX_RETRIES + 1

  /** The initial value of the (never consulted) device queue space. */
  const INITIAL_LEFT_SPACE: nat := 128

  datatype CommunicateStatus = NoError(reply: Message) | BufferFull | Timeout | InvalidParams

  datatype Control = Retry | Abort

  /** A pending entry: the request and the handle its outcome is sent to. */
  datatype MessageHandler = MessageHandler(message: Message, handle: nat)

  datatype Communicator = Communicator(handlers: seq<MessageHandler>, leftSpace: nat)

  /** `Communicator::new`: an empty queue; the transport and the wait time are outside the model. */
  function New(): (c: Communicator)
    ensures c.handlers == [] && c.leftSpace == INITIAL_LEFT_SPACE
  {
    Communicator([], INITIAL_LEFT_SPACE)
  }

  // ----- insert_message -----

  /** The new state, and the status already sent on the handle if the entry was refused. */
  datatype Inserted = Inserted(comm: Communicator, immediate: Option<CommunicateStatus>)

  /**
   * `insert_message`: a queue holding more than `MAX_MESSAGES` entries
   * refuses the request at once with `BufferFull` and is left as it was;
   * otherwise the request joins the back of the queue.
   */
  function InsertMessage(c: Communicator, m: Message, handle: nat): (r: Inserted)
    ensures |c.handlers| > MAX_MESSAGES ==> r.comm == c && r.immediate == Some(BufferFull)
    ensures |c.handlers| <= MAX_MESSAGES ==>
              && r.immediate.None?
              && r.comm == c.(handlers := c.handlers + [MessageHandler(m, handle)])
  {
    if |c.handlers| > MAX_MESSAGES then Inserted(c, Some(BufferFull))
    else Inserted(c.(handlers := c.handlers + [MessageHandler(m, handle)]), None)
  }

  /** Inserting a batch of requests in order, with no `Run` in between. */
  function InsertAll(c: Communicator, hs: seq<MessageHandler>): Communicator
    decreases |hs|
  {
    if |hs| == 0 then c
    else InsertAll(InsertMessage(c, hs[0].message, hs[0].handle).comm, hs[1..])
  }

  /**
   * Inserts alone never grow a queue of at most 129 entries past 129:
   * the first `129 - |queue|` requests of a batch are queued in order,
   * and every later one is refused.
   */
  lemma {:induction false} InsertAllBounded(c: Communicator, hs: seq<MessageHandler>)
    requires |c.handlers| <= MAX_MESSAGES + 1
    ensures var accepted := Min(|hs|, MAX_MESSAGES + 1 - |c.handlers|);
            InsertAll(c, hs) == c.(handlers := c.handlers + hs[..accepted])
    ensures |InsertAll(c, hs).handlers| <= MAX_MESSAGES + 1
    decreases |hs|
  {
    if |hs| > 0 {
      var c' := InsertMessage(c, hs[0].message, hs[0].handle).comm;
      InsertAllBounded(c', hs[1..]);
      if |c.handlers| <= MAX_MESSAGES {
        assert c.handlers + hs[..Min(|hs|, MAX_MESSAGES + 1 - |c.handlers|)]
            == c'.handlers + hs[1..][..Min(|hs| - 1, MAX_MESSAGES + 1 - |c'.handlers|)];
      } else {
        assert hs[..0] == [] && hs[1..][..0] == [];
      }
    } else {
      assert hs[..0] == [];
    }
  }

  // ----- the transport oracle -----

  /** The read after the i-th write: silence once the oracle is exhausted. */
  function Reply(replies: seq<Option<Packet>>, i: nat): Option<Packet> {
    if i < |replies| then replies[i] else None
  }

  /**
   * A reply acknowledges a request when the message it decodes to carries
   * the request's id (`to_message` copies the id byte unchanged).
   */
  predicate Acknowledges(reply: Option<Packet>, id: Byte) {
    reply.Some? && reply.value.payload.id == id
  }

  /**
   * `send_and_wait_command_ack` as the write numbered `pos`: write the
   * request's packet once and take reply `pos`; silence or a reply for
   * another command asks for a retry, a reply for this command is the
   * result.
   */
  function SendAndWaitCommandAck(m: Message, replies: seq<Option<Packet>>, pos: nat): (ctl: Result<Message, Control>)
    requires Encodable(m)
    ensures ctl.Ok? <==> Acknowledges(Reply(replies, pos), m.id)
    ensures ctl.Ok? ==> ctl.value == ToMessage(Reply(replies, pos).value)
    ensures ctl.Err? ==> ctl.error == Retry
  {
    var _ := FromMessage(m);
    match Reply(replies, pos)
    case Some(packet) =>
      var mes := ToMessage(packet);
      if mes.id != m.id then Err(Retry) else Ok(mes)
    case None => Err(Retry)
  }

  /** `check_retry`: only a `Retry` error asks for another attempt; a result or an `Abort` stops the loop. */
  function CheckRetry<T>(ctl: Result<T, Control>): (b: bool)
    ensures b <==> ctl.Err? && ctl.error == Retry
  {
    match ctl
    case Err(Retry) => true
    case _ => false
  }

  /** The state of the retry loop: the latest outcome, the retries made, and the writes made so far. */
  datatype LoopState = LoopState(ctl: Result<Message, Control>, numRetry: nat, pos: nat)

  /**
   * The `while check_retry(&ctl) && num_retry < 3` loop of `run`, entered
   * with the outcome `ctl` of the attempt that used reply `pos - 1`. If
   * that attempt asked for a retry, the loop makes further attempts, all
   * but the last of them unacknowledged; it stops at the first
   * acknowledged one or when the retries run out.
   */
  function RetryLoop(m: Message, replies: seq<Option<Packet>>, ctl: Result<Message, Control>,
                     numRetry: nat, pos: nat): (e: LoopState)
    requires Encodable(m) && numRetry <= MAX_RETRIES
    ensures numRetry <= e.numRetry <= MAX_RETRIES
    ensures e.pos == pos + (e.numRetry - numRetry)
    ensures !CheckRetry(ctl) ==> e == LoopState(ctl, numRetry, pos)
    ensures CheckRetry(ctl) ==>
              forall i :: pos <= i < e.pos - 1 ==> !Acknowledges(Reply(replies, i), m.id)
    ensures CheckRetry(ctl) && e.ctl.Ok? ==>
              && e.pos > pos
              && Acknowledges(Reply(replies, e.pos - 1), m.id)
              && e.ctl.value == ToMessage(Reply(replies, e.pos - 1).value)
    ensures CheckRetry(ctl) && e.ctl.Err? ==>
              && e.ctl.error == Retry && e.numRetry == MAX_RETRIES
              && (e.pos > pos ==> !Acknowledges(Reply(replies, e.pos - 1), m.id))
    decreases MAX_RETRIES - numRetry
  {
    if CheckRetry(ctl) && numRetry < MAX_RETRIES then
      RetryLoop(m, replies, SendAndWaitCommandAck(m, replies, pos), numRetry + 1, pos + 1)
    else
      LoopState(ctl, numRetry, pos)
  }

  /**
   * One exchange as `run` performs it: a first attempt at write `pos`,
   * then the retry loop. It makes between one and four attempts; it fails
   * exactly when none of the four replies from `pos` on acknowledges the
   * request, and otherwise returns the first acknowledging reply.
   */
  function SendWithRetry(m: Message, replies: seq<Option<Packet>>, pos: nat): (e: LoopState)
    requires Encodable(m)
    ensures pos < e.pos <= pos + MAX_ATTEMPTS
    ensures forall i :: pos <= i < e.pos - 1 ==> !Acknowledges(Reply(replies, i), m.id)
    ensures e.ctl.Ok? ==>
              && Acknowledges(Reply(replies, e.pos - 1), m.id)
              && e.ctl.value == ToMessage(Reply(replies, e.pos - 1).value)
              && e.ctl.value.id == m.id
    ensures e.ctl.Err? ==>
              && e.ctl.error == Retry
              && e.pos == pos + MAX_ATTEMPTS
              && forall i :: pos <= i < pos + MAX_ATTEMPTS ==> !Acknowledges(Reply(replies, i), m.id)
  {
    RetryLoop(m, replies, SendAndWaitCommandAck(m, replies, pos), 0, pos + 1)
  }

  /** The status an exchange resolves its entry with: `Timeout` for any error, else the reply. */
  function StatusOf(ctl: Result<Message, Control>): CommunicateStatus {
    if ctl.Err? then Timeout else NoError(ctl.value)
  }

  /** `n` writes of the same packet. */
  function Repeat(p: Packet, n: nat): (s: seq<Packet>)
    ensures |s| == n && AllOf(s, p)
  {
    seq(n, _ => p)
  }

  /** Every packet written is `p`. */
  predicate AllOf(written: seq<Packet>, p: Packet) {
    forall i :: 0 <= i < |written| ==> written[i] == p
  }

  /** An entry's handle and the status sent on it. */
  datatype Resolution = Resolution(handle: nat, status: CommunicateStatus)

  /** The state after a step, the entry it resolved, the packets it wrote, and the writes made so far. */
  datatype Step = Step(comm: Communicator, resolved: Option<Resolution>, written: seq<Packet>, pos: nat)

  /** `from_message` of the front entry must not panic. */
  predicate FrontEncodable(c: Communicator) {
    |c.handlers| > 0 ==> Encodable(c.handlers[0].message)
  }

  /** What a run may send on a handle: a timeout, or a reply carrying the request's id. */
  predicate Settled(status: CommunicateStatus, m: Message) {
    status.Timeout? || (status.NoError? && status.reply.id == m.id)
  }

  /** The status for one entry, the packets written for it, and the writes made so far. */
  datatype Outcome = Outcome(status: CommunicateStatus, written: seq<Packet>, pos: nat)

  /**
   * The request exchange at the end of `run`: the status is the reply if
   * one of the four attempts from write `pos` is acknowledged, `Timeout`
   * after all four writes if none is; every write is the request's packet.
   */
  function Request(m: Message, replies: seq<Option<Packet>>, pos: nat): (o: Outcome)
    requires Encodable(m)
    ensures o.pos == pos + |o.written| && 1 <= |o.written| <= MAX_ATTEMPTS
    ensures o.status.Timeout? ==> |o.written| == MAX_ATTEMPTS
    ensures AllOf(o.written, FromMessage(m))
    ensures Settled(o.status, m)
    ensures o.status.Timeout? <==>
              forall i :: pos <= i < pos + MAX_ATTEMPTS ==> !Acknowledges(Reply(replies, i), m.id)
    ensures forall i :: pos <= i < o.pos - 1 ==> !Acknowledges(Reply(replies, i), m.id)
    ensures o.status.NoError? ==>
              && Acknowledges(Reply(replies, o.pos - 1), m.id)
              && o.status.reply == ToMessage(Reply(replies, o.pos - 1).value)
  {
    var e := SendWithRetry(m, replies, pos);
    Outcome(StatusOf(e.ctl), Repeat(FromMessage(m), e.pos - pos), e.pos)
  }

  /**
   * The request exchange is decided by the first acknowledging reply: if
   * attempt `k` (within the four from `pos`) is the first acknowledged
   * one, exactly `k - pos + 1` copies of the request are written and the
   * entry resolves with the message that reply decodes to.
   */
  lemma FirstAcknowledgementDecides(m: Message, replies: seq<Option<Packet>>, pos: nat, k: nat)
    requires Encodable(m)
    requires pos <= k < pos + MAX_ATTEMPTS
    requires forall i :: pos <= i < k ==> !Acknowledges(Reply(replies, i), m.id)
    requires Acknowledges(Reply(replies, k), m.id)
    ensures Request(m, replies, pos)
            == Outcome(NoError(ToMessage(Reply(replies, k).value)), Repeat(FromMessage(m), k - pos + 1), k + 1)
  {
    var o := Request(m, replies, pos);
    assert o.status.NoError?;
    assert o.pos - 1 == k;
    assert o.written == Repeat(FromMessage(m), k - pos + 1);
  }

  /**
   * The queued branch of `run` with the probe message as a parameter: the
   * probe is exchanged first; if none of its four attempts is acknowledged
   * the entry times out after four probe writes and the request is never
   * written, otherwise the request exchange follows.
   */
  function ProbeThenRequest(m: Message, probe: Message, replies: seq<Option<Packet>>, pos: nat): (o: Outcome)
    requires Encodable(m) && Encodable(probe)
    ensures o.status.NoError? ==> 2 <= |o.written| && o.written[|o.written| - 1] == FromMessage(m)
    ensures 1 <= |o.written| <= 2 * MAX_ATTEMPTS && o.pos == pos + |o.written|
    ensures o.written[0] == FromMessage(probe)
    ensures Settled(o.status, m)
    ensures (forall i :: pos <= i < pos + MAX_ATTEMPTS ==> !Acknowledges(Reply(replies, i), probe.id))
            ==> o == Outcome(Timeout, Repeat(FromMessage(probe), MAX_ATTEMPTS), pos + MAX_ATTEMPTS)
  {
    var e := SendWithRetry(probe, replies, pos);
    var probes := Repeat(FromMessage(probe), e.pos - pos);
    assert 1 <= |probes| <= MAX_ATTEMPTS && probes[0] == FromMessage(probe);
    if e.ctl.Err? then
      Outcome(Timeout, probes, e.pos)
    else
      var r := Request(m, replies, e.pos);
      var written := probes + r.written;
      assert |written| == |probes| + |r.written| && written[0] == probes[0];
      Outcome(r.status, written, r.pos)
  }

  /**
   * A queued entry whose probe is acknowledged goes on to the request: if
   * probe attempt `k` (within the four from `pos`) is the first
   * acknowledged one, `k - pos + 1` probes are written, then the request
   * exchange runs from write `k + 1`, and its status is the entry's.
   */
  lemma ProbeAcknowledged(m: Message, probe: Message, replies: seq<Option<Packet>>, pos: nat, k: nat)
    requires Encodable(m) && Encodable(probe)
    requires pos <= k < pos + MAX_ATTEMPTS
    requires forall i :: pos <= i < k ==> !Acknowledges(Reply(replies, i), probe.id)
    requires Acknowledges(Reply(replies, k), probe.id)
    ensures var r := Request(m, replies, k + 1);
            ProbeThenRequest(m, probe, replies, pos)
            == Outcome(r.status, Repeat(FromMessage(probe), k - pos + 1) + r.written, r.pos)
  {
    var e := SendWithRetry(probe, replies, pos);
    assert e.ctl.Ok?;
    assert e.pos == k + 1;
  }

  /**
   * What `run` does with a popped entry: a queued request (any non-zero
   * queued byte) goes through the left-space probe first, a non-queued one
   * is exchanged directly.
   */
  function Process(m: Message, replies: seq<Option<Packet>>, pos: nat): (o: Outcome)
    requires Encodable(m)
    ensures o.pos == pos + |o.written| && 1 <= |o.written| <= 2 * MAX_ATTEMPTS
    ensures Settled(o.status, m)
    ensures !IsQueued(m) ==> o == Request(m, replies, pos)
    ensures IsQueued(m) ==> o.written[0] == FromMessage(NewGetLeftSpace())
  {
    if m.isQueued != 0 then ProbeThenRequest(m, NewGetLeftSpace(), replies, pos)
    else Request(m, replies, pos)
  }

  /**
   * A queued entry is exactly the probe-then-request exchange with the
   * left-space message as its probe: it times out after four probe writes
   * when no probe is acknowledged (`ProbeThenRequest`), and otherwise runs
   * the request exchange after the first acknowledged probe
   * (`ProbeAcknowledged`).
   */
  lemma QueuedProcess(m: Message, replies: seq<Option<Packet>>, pos: nat)
    requires Encodable(m) && IsQueued(m)
    ensures Process(m, replies, pos) == ProbeThenRequest(m, NewGetLeftSpace(), replies, pos)
  {
  }

  /**
   * `Communicator::run`, with the oracle read from write `pos` on. An empty
   * queue is left alone and nothing is written. Otherwise the front entry,
   * and only it, leaves the queue and its handle is resolved once, with
   * what `Process` made of it; `left_space` is neither read nor changed.
   */
  function Run(c: Communicator, replies: seq<Option<Packet>>, pos: nat): (s: Step)
    requires FrontEncodable(c)
    ensures |c.handlers| == 0 ==> s == Step(c, None, [], pos)
    ensures |c.handlers| > 0 ==>
              var o := Process(c.handlers[0].message, replies, pos);
              && s.comm == c.(handlers := c.handlers[1..])
              && s.resolved == Some(Resolution(c.handlers[0].handle, o.status))
              && s.written == o.written && s.pos == o.pos
  {
    if |c.handlers| == 0 then Step(c, None, [], pos)
    else
      var mh := c.handlers[0];
      var o := Process(mh.message, replies, pos);
      Step(c.(handlers := c.handlers[1..]), Some(Resolution(mh.handle, o.status)), o.written, o.pos)
  }

  /**
   * Entry `h` was handled by the exchange outcome `o`, which ran from
   * write `from` to write `to`: its handle got `o`'s status and
   * `written[from..to]` are the packets `o` wrote.
   */
  predicate ResolvedBy(h: MessageHandler, o: Outcome, from: nat, to: nat, r: Resolution, written: seq<Packet>) {
    && r == Resolution(h.handle, o.status)
    && o.pos == to && from <= to <= |written|
    && written[from..to] == o.written
  }

  /** Writing more packets afterwards does not change what an entry's exchange wrote. */
  lemma ResolvedExtends(h: MessageHandler, o: Outcome, from: nat, to: nat,
                        r: Resolution, written: seq<Packet>, more: seq<Packet>)
    requires ResolvedBy(h, o, from, to, r, written)
    ensures ResolvedBy(h, o, from, to, r, written + more)
  {
    assert (written + more)[from..to] == written[from..to];
  }

  /** Entry `h` was handled by the exchange `run` performs for it from write `from`. */
  predicate Resolved(h: MessageHandler, replies: seq<Option<Packet>>, from: nat, to: nat,
                     r: Resolution, written: seq<Packet>)
    requires Encodable(h.message)
  {
    ResolvedBy(h, Process(h.message, replies, from), from, to, r, written)
  }

  /** One `run` step on a non-empty queue, described in the terms `Drain` needs. */
  method RunOnce(c: Communicator, replies: seq<Option<Packet>>, pos: nat) returns (s: Step)
    requires |c.handlers| > 0 && FrontEncodable(c)
    ensures s.comm.leftSpace == c.leftSpace && s.comm.handlers == c.handlers[1..]
    ensures s.pos == pos + |s.written| && |s.written| <= 8
    ensures var o := Process(c.handlers[0].message, replies, pos);
            && s.resolved == Some(Resolution(c.handlers[0].handle, o.status))
            && s.written == o.written && s.pos == o.pos
  {
    s := Run(c, replies, pos);
    var o := Process(c.handlers[0].message, replies, pos);
    assert o.pos == pos + |o.written| && |o.written| <= 2 * MAX_ATTEMPTS;
  }

  /** Every queued message can be framed. */
  predicate AllEncodable(c: Communicator) {
    forall i :: 0 <= i < |c.handlers| ==> Encodable(c.handlers[i].message)
  }

  /**
   * The first `|resolutions|` entries of `c0` have been handled, entry `i`
   * by the exchange from write `starts[i]` to write `starts[i + 1]`, and
   * `written` holds exactly the packets of those exchanges.
   */
  predicate DrainedUpTo(c0: Communicator, replies: seq<Option<Packet>>,
                        resolutions: seq<Resolution>, written: seq<Packet>, starts: seq<nat>)
    requires AllEncodable(c0)
  {
    && |resolutions| <= |c0.handlers|
    && |starts| == |resolutions| + 1 && starts[0] == 0 && starts[|resolutions|] == |written|
    && forall i :: 0 <= i < |resolutions| ==>
         Resolved(c0.handlers[i], replies, starts[i], starts[i + 1], resolutions[i], written)
  }

  /** Entries already handled stay handled when more packets are written and more entries resolved. */
  lemma DrainedKept(c0: Communicator, replies: seq<Option<Packet>>, resolutions: seq<Resolution>,
                    written: seq<Packet>, starts: seq<nat>, r: Resolution, more: seq<Packet>, next: nat)
    requires AllEncodable(c0) && DrainedUpTo(c0, replies, resolutions, written, starts)
    ensures var rs, ws, ss := resolutions + [r], written + more, starts + [next];
            forall i :: 0 <= i < |resolutions| ==>
              Resolved(c0.handlers[i], replies, ss[i], ss[i + 1], rs[i], ws)
  {
    var rs, ws, ss := resolutions + [r], written + more, starts + [next];
    forall i | 0 <= i < |resolutions|
      ensures Resolved(c0.handlers[i], replies, ss[i], ss[i + 1], rs[i], ws)
    {
      var o := Process(c0.handlers[i].message, replies, starts[i]);
      assert ResolvedBy(c0.handlers[i], o, starts[i], starts[i + 1], resolutions[i], written);
      ResolvedExtends(c0.handlers[i], o, starts[i], starts[i + 1], resolutions[i], written, more);
    }
  }

  /** Resolving the next entry with the exchange from the current write extends what has been drained. */
  lemma DrainStep(c0: Communicator, replies: seq<Option<Packet>>, resolutions: seq<Resolution>,
                  written: seq<Packet>, starts: seq<nat>, r: Resolution, more: seq<Packet>, next: nat)
    requires AllEncodable(c0) && DrainedUpTo(c0, replies, resolutions, written, starts)
    requires |resolutions| < |c0.handlers|
    requires Resolved(c0.handlers[|resolutions|], replies, |written|, next, r, written + more)
    requires next == |written + more|
    ensures DrainedUpTo(c0, replies, resolutions + [r], written + more, starts + [next])
  {
    DrainedKept(c0, replies, resolutions, written, starts, r, more, next);
  }

  /** A handled entry keeps its handle and is settled with a timeout or a reply for its own command. */
  lemma ResolvedSettles(h: MessageHandler, replies: seq<Option<Packet>>, from: nat, to: nat,
                        r: Resolution, written: seq<Packet>)
    requires Encodable(h.message) && Resolved(h, replies, from, to, r, written)
    ensures r.handle == h.handle && Settled(r.status, h.message)
  { }

  /** The exchange for the next entry, from the current write, resolves it with the packets appended. */
  lemma NextResolved(h: MessageHandler, replies: seq<Option<Packet>>, written: seq<Packet>, s: Step)
    requires Encodable(h.message)
    requires var o := Process(h.message, replies, |written|);
             && s.resolved == Some(Resolution(h.handle, o.status))
             && s.written == o.written && s.pos == o.pos
    ensures Resolved(h, replies, |written|, s.pos, s.resolved.value, written + s.written)
  {
    assert (written + s.written)[|written|..s.pos] == s.written;
  }

  /**
   * Repeated `run` steps until the queue is empty. Entry `i` is handled
   * by the exchange that starts at write `starts[i]`, the first write
   * after the previous entry's exchange: its handle gets that exchange's
   * status and the packets it wrote follow the previous entry's in
   * `written`. Entries are thus resolved one each, in the order they were
   * queued, each with a timeout or a reply for its own command, and each
   * costs at most eight writes.
   */
  method Drain(c0: Communicator, replies: seq<Option<Packet>>)
    returns (c: Communicator, resolutions: seq<Resolution>, written: seq<Packet>, starts: seq<nat>)
    requires AllEncodable(c0)
    ensures c == c0.(handlers := [])
    ensures |resolutions| == |c0.handlers|
    ensures |starts| == |c0.handlers| + 1 && starts[0] == 0 && starts[|c0.handlers|] == |written|
    ensures forall i :: 0 <= i < |c0.handlers| ==>
              Resolved(c0.handlers[i], replies, starts[i], starts[i + 1], resolutions[i], written)
    ensures forall i :: 0 <= i < |c0.handlers| ==>
              resolutions[i].handle == c0.handlers[i].handle
              && Settled(resolutions[i].status, c0.handlers[i].message)
    ensures |written| <= 2 * MAX_ATTEMPTS * |c0.handlers|
  {
    assert 2 * MAX_ATTEMPTS == 8;
    c := c0;
    resolutions := [];
    written := [];
    starts := [0];
    while |c.handlers| > 0
      invariant DrainedUpTo(c0, replies, resolutions, written, starts)
      invariant c.leftSpace == c0.leftSpace
      invariant c.handlers == c0.handlers[|resolutions|..]
      invariant |written| <= 8 * |resolutions|
      decreases |c.handlers|
    {
      var k := |resolutions|;
      assert c.handlers[0] == c0.handlers[k];
      var s := RunOnce(c, replies, |written|);
      NextResolved(c0.handlers[k], replies, written, s);
      DrainStep(c0, replies, resolutions, written, starts, s.resolved.value, s.written, s.pos);
      assert s.comm.handlers == c0.handlers[k + 1..];
      resolutions := resolutions + [s.resolved.value];
      written := written + s.written;
      starts := starts + [s.pos];
      c := s.comm;
    }
    assert c.handlers == [];
    forall i | 0 <= i < |c0.handlers|
      ensures resolutions[i].handle == c0.handlers[i].handle
      ensures Settled(resolutions[i].status, c0.handlers[i].message)
    {
      ResolvedSettles(c0.handlers[i], replies, starts[i], starts[i + 1], resolutions[i], written);
    }
  }
}
