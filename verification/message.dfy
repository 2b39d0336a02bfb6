/**
 * The protocol-level request/response unit. A message carries a command id,
 * a read/write byte, a queued byte, the count of meaningful parameter bytes
 * and a fixed-capacity parameter buffer of which only the first
 * `paramsLen` bytes are meaningful.
 */
module Messages {
  import opened Wire
  import opened Wrappers
  import ProtocolIds

  /** Largest payload a frame may declare: one less than the sync byte. */
  const MAX_PAYLOAD_SIZE: Byte := SYNC_BYTE - 1

  /** Capacity of the parameter buffer: the payload minus its id and ctrl bytes. */
  const PARAMS_SIZE: nat := MAX_PAYLOAD_SIZE - 2

  /** A `[u8; PARAMS_SIZE]` array. */
  type Params = s: seq<Byte> | |s| == PARAMS_SIZE witness seq(PARAMS_SIZE, _ => 0)

  datatype Message = Message(id: Byte, rw: Byte, isQueued: Byte, paramsLen: Byte, params: Params)

  /**
   * What a `ToParams` implementation reports for a value: the number of
   * bytes it wrote and the padded buffer holding them.
   */
  datatype EncodedParams = EncodedParams(size: nat, buffer: Params)

  /** The all-zero parameter buffer. */
  function ZeroParams(): (p: Params)
    ensures forall i :: 0 <= i < PARAMS_SIZE ==> p[i] == 0
  {
    Zeros(PARAMS_SIZE)
  }

  /** How the dispatcher reads the queued byte: any non-zero value means queued. */
  predicate IsQueued(m: Message) {
    m.isQueued != 0
  }

  /**
   * `Message::new`: the id is the command's discriminant, `rw` is copied,
   * the queued flag becomes exactly 0 or 1, and the parameters come from
   * the value's encoding (its size truncated to a byte) or are empty.
   */
  function New(pid: ProtocolIds.ProtocolId, rw: Byte, isQueued: bool, value: Option<EncodedParams>): (m: Message)
    ensures m.id == ProtocolIds.Value(pid)
    ensures m.rw == rw
    ensures m.isQueued <= 1 && (IsQueued(m) <==> isQueued)
    ensures value.None? ==> m.paramsLen == 0 && m.params == ZeroParams()
    ensures value.Some? ==> m.paramsLen == value.value.size % 256 && m.params == value.value.buffer
  {
    var (size, params) := match value
      case Some(p) => (p.size, p.buffer)
      case None => (0, ZeroParams());
    Message(ProtocolIds.Value(pid), rw, if isQueued then 1 else 0, size % 256, params)
  }

  /** `Message::new_get_left_space`: the read request for the device's free queue space. */
  function NewGetLeftSpace(): (m: Message)
    ensures m.id == 247 && m.rw == 0 && !IsQueued(m) && m.paramsLen == 0
    ensures forall i :: 0 <= i < PARAMS_SIZE ==> m.params[i] == 0
  {
    Message(ProtocolIds.Value(ProtocolIds.ProtocolQueuedCmdLeftSpace), 0, 0, 0, ZeroParams())
  }

  /** The probe is exactly what `Message::new` builds for the left-space command with no value. */
  lemma LeftSpaceIsNew()
    ensures NewGetLeftSpace() == New(ProtocolIds.ProtocolQueuedCmdLeftSpace, 0, false, None)
  {
  }

  /** `PARAMS_SIZE` is 167. */
  lemma ParamsSizeValue()
    ensures PARAMS_SIZE == (0xAA - 1) - 2 == 167
  {
  }
}
