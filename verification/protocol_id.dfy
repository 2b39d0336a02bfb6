/**
 * The command-id table of the Dobot serial protocol. Commands come in
 * groups; each group reserves a block of ten ids starting at a fixed base,
 * and each command's id (the `#[repr(u8)]` discriminant) is its group's
 * base plus a small offset. A command is therefore modelled by its group
 * and its offset, restricted to the offsets the enumeration declares, with
 * one named constant per enumeration variant. The numbers are what the
 * device firmware expects on the wire.
 */
module ProtocolIds {
  import opened Wire
  import opened Wrappers

  const DEVICE_INFO_BASE: Byte := 0
  const POSE_BASE: Byte := 10
  const ALARM_BASE: Byte := 20
  const HOME_BASE: Byte := 30
  const HHT_BASE: Byte := 40
  const ARM_ORIENTATION_BASE: Byte := 50
  const END_EFFECTOR_BASE: Byte := 60
  const JOG_BASE: Byte := 70
  const PTP_BASE: Byte := 80
  const CP_BASE: Byte := 90
  const ARC_BASE: Byte := 100
  const WAIT_BASE: Byte := 110
  const TRIG_BASE: Byte := 120
  const EIO_BASE: Byte := 130
  const CAL_BASE: Byte := 140
  const WIFI_BASE: Byte := 150
  const FIRMWARE_BASE: Byte := 160
  const LOST_STEP_BASE: Byte := 170
  const CHECK_MODEL_BASE: Byte := 180
  const PULSE_MODE_BASE: Byte := 190
  const TEST_BASE: Byte := 220
  const QUEUED_CMD_BASE: Byte := 240

  /** The command groups, in the order of their bases. */
  datatype Group =
    | DeviceInfo
    | Pose
    | Alarm
    | Home
    | Hht
    | ArmOrientation
    | EndEffector
    | Jog
    | Ptp
    | Cp
    | Arc
    | Wait
    | Trig
    | Eio
    | Cal
    | Wifi
    | Firmware
    | LostStep
    | CheckModel
    | PulseMode
    | Test
    | QueuedCmd

  /** The first id of a group's block. */
  function Base(g: Group): Byte {
    match g
    case DeviceInfo => DEVICE_INFO_BASE
    case Pose => POSE_BASE
    case Alarm => ALARM_BASE
    case Home => HOME_BASE
    case Hht => HHT_BASE
    case ArmOrientation => ARM_ORIENTATION_BASE
    case EndEffector => END_EFFECTOR_BASE
    case Jog => JOG_BASE
    case Ptp => PTP_BASE
    case Cp => CP_BASE
    case Arc => ARC_BASE
    case Wait => WAIT_BASE
    case Trig => TRIG_BASE
    case Eio => EIO_BASE
    case Cal => CAL_BASE
    case Wifi => WIFI_BASE
    case Firmware => FIRMWARE_BASE
    case LostStep => LOST_STEP_BASE
    case CheckModel => CHECK_MODEL_BASE
    case PulseMode => PULSE_MODE_BASE
    case Test => TEST_BASE
    case QueuedCmd => QUEUED_CMD_BASE
  }

  /**
   * The declared offsets of a group are `FirstOffset(g) <= k < EndOffset(g)`;
   * the check-model and pulse-mode groups declare nothing at offset 0.
   */
  function FirstOffset(g: Group): nat {
    match g
    case CheckModel | PulseMode => 1
    case _ => 0
  }

  function EndOffset(g: Group): nat {
    match g
    case DeviceInfo => 5
    case Pose => 4
    case Alarm => 1
    case Home => 3
    case Hht => 3
    case ArmOrientation => 1
    case EndEffector => 4
    case Jog => 5
    case Ptp => 10
    case Cp => 5
    case Arc => 4
    case Wait => 1
    case Trig => 1
    case Eio => 9
    case Cal => 4
    case Wifi => 8
    case Firmware => 2
    case LostStep => 2
    case CheckModel => 3
    case PulseMode => 2
    case Test => 5
    case QueuedCmd => 8
  }

  /** A command as its group and its offset within the group's block. */
  datatype Command = Command(group: Group, offset: nat)

  predicate Declared(c: Command) {
    FirstOffset(c.group) <= c.offset < EndOffset(c.group)
  }

  /** A variant of the `ProtocolID` enumeration. */
  type ProtocolId = c: Command | Declared(c) witness Command(DeviceInfo, 0)

  const ProtocolDeviceSN: ProtocolId := Command(DeviceInfo, 0)
  const ProtocolDeviceName: ProtocolId := Command(DeviceInfo, 1)
  const ProtocolDeviceVersion: ProtocolId := Command(DeviceInfo, 2)
  const ProtocolDeviceWithL: ProtocolId := Command(DeviceInfo, 3)
  const ProtocolDeviceTime: ProtocolId := Command(DeviceInfo, 4)

  const ProtocolGetPose: ProtocolId := Command(Pose, 0)
  const ProtocolResetPose: ProtocolId := Command(Pose, 1)
  const ProtocolGetKinematics: ProtocolId := Command(Pose, 2)
  const ProtocolGetPoseL: ProtocolId := Command(Pose, 3)

  const ProtocolAlarmsState: ProtocolId := Command(Alarm, 0)

  const ProtocolHOMEParams: ProtocolId := Command(Home, 0)
  const ProtocolHOMECmd: ProtocolId := Command(Home, 1)
  const ProtocolAutoLeveling: ProtocolId := Command(Home, 2)

  const ProtocolHHTTrigMode: ProtocolId := Command(Hht, 0)
  const ProtocolHHTTrigOutputEnabled: ProtocolId := Command(Hht, 1)
  const ProtocolHHTTrigOutput: ProtocolId := Command(Hht, 2)

  const ProtocolArmOrientation: ProtocolId := Command(ArmOrientation, 0)

  const ProtocolEndEffectorParams: ProtocolId := Command(EndEffector, 0)
  const ProtocolEndEffectorLaser: ProtocolId := Command(EndEffector, 1)
  const ProtocolEndEffectorSuctionCup: ProtocolId := Command(EndEffector, 2)
  const ProtocolEndEffectorGripper: ProtocolId := Command(EndEffector, 3)

  const ProtocolJOGJointParams: ProtocolId := Command(Jog, 0)
  const ProtocolJOGCoordinateParams: ProtocolId := Command(Jog, 1)
  const ProtocolJOGCommonParams: ProtocolId := Command(Jog, 2)
  const ProtocolJOGCmd: ProtocolId := Command(Jog, 3)
  const ProtocolJOGLParams: ProtocolId := Command(Jog, 4)

  const ProtocolPTPJointParams: ProtocolId := Command(Ptp, 0)
  const ProtocolPTPCoordinateParams: ProtocolId := Command(Ptp, 1)
  const ProtocolPTPJumpParams: ProtocolId := Command(Ptp, 2)
  const ProtocolPTPCommonParams: ProtocolId := Command(Ptp, 3)
  const ProtocolPTPCmd: ProtocolId := Command(Ptp, 4)
  const ProtocolPTPLParams: ProtocolId := Command(Ptp, 5)
  const ProtocolPTPWithLCmd: ProtocolId := Command(Ptp, 6)
  const ProtocolPTPJump2Params: ProtocolId := Command(Ptp, 7)
  const ProtocolPTPPOCmd: ProtocolId := Command(Ptp, 8)
  const ProtocolPTPPOWithLCmd: ProtocolId := Command(Ptp, 9)

  const ProtocolCPParams: ProtocolId := Command(Cp, 0)
  const ProtocolCPCmd: ProtocolId := Command(Cp, 1)
  const ProtocolCPLECmd: ProtocolId := Command(Cp, 2)
  const ProtocolCPRHoldEnable: ProtocolId := Command(Cp, 3)
  const ProtocolCPCommonParams: ProtocolId := Command(Cp, 4)

  const ProtocolARCParams: ProtocolId := Command(Arc, 0)
  const ProtocolARCCmd: ProtocolId := Command(Arc, 1)
  const ProtocolCircleCmd: ProtocolId := Command(Arc, 2)
  const ProtocolARCCommonParams: ProtocolId := Command(Arc, 3)

  const ProtocolWAITCmd: ProtocolId := Command(Wait, 0)

  const ProtocolTRIGCmd: ProtocolId := Command(Trig, 0)

  const ProtocolIOMultiplexing: ProtocolId := Command(Eio, 0)
  const ProtocolIODO: ProtocolId := Command(Eio, 1)
  const ProtocolIOPWM: ProtocolId := Command(Eio, 2)
  const ProtocolIODI: ProtocolId := Command(Eio, 3)
  const ProtocolIOADC: ProtocolId := Command(Eio, 4)
  const ProtocolEMotor: ProtocolId := Command(Eio, 5)
  const ProtocolEMotorS: ProtocolId := Command(Eio, 6)
  const ProtocolColorSensor: ProtocolId := Command(Eio, 7)
  const ProtocolIRSwitch: ProtocolId := Command(Eio, 8)

  const ProtocolAngleSensorStaticError: ProtocolId := Command(Cal, 0)
  const ProtocolAngleSensorCoef: ProtocolId := Command(Cal, 1)
  const ProtocolBaseDecoderStaticError: ProtocolId := Command(Cal, 2)
  const ProtocolLRHandCalibrateValue: ProtocolId := Command(Cal, 3)

  const ProtocolWIFIConfigMode: ProtocolId := Command(Wifi, 0)
  const ProtocolWIFISSID: ProtocolId := Command(Wifi, 1)
  const ProtocolWIFIPassword: ProtocolId := Command(Wifi, 2)
  const ProtocolWIFIIPAddress: ProtocolId := Command(Wifi, 3)
  const ProtocolWIFINetmask: ProtocolId := Command(Wifi, 4)
  const ProtocolWIFIGateway: ProtocolId := Command(Wifi, 5)
  const ProtocolWIFIDNS: ProtocolId := Command(Wifi, 6)
  const ProtocolWIFIConnectStatus: ProtocolId := Command(Wifi, 7)

  const ProtocolFirmwareSwitch: ProtocolId := Command(Firmware, 0)
  const ProtocolFirmwareMode: ProtocolId := Command(Firmware, 1)

  const ProtocolLostStepSet: ProtocolId := Command(LostStep, 0)
  const ProtocolLostStepDetect: ProtocolId := Command(LostStep, 1)

  const ProtocolCheckUART4PeripheralsModel: ProtocolId := Command(CheckModel, 1)
  const ProtocolUART4PeripheralsEnabled: ProtocolId := Command(CheckModel, 2)

  const ProtocolFunctionPulseMode: ProtocolId := Command(PulseMode, 1)

  const ProtocolUserParams: ProtocolId := Command(Test, 0)
  const ProtocolPTPTime: ProtocolId := Command(Test, 1)
  const ProtocolServoPIDParams: ProtocolId := Command(Test, 2)
  const ProtocolServoControlLoop: ProtocolId := Command(Test, 3)
  const ProtocolSaveServoPIDParams: ProtocolId := Command(Test, 4)

  const ProtocolQueuedCmdStartExec: ProtocolId := Command(QueuedCmd, 0)
  const ProtocolQueuedCmdStopExec: ProtocolId := Command(QueuedCmd, 1)
  const ProtocolQueuedCmdForceStopExec: ProtocolId := Command(QueuedCmd, 2)
  const ProtocolQueuedCmdStartDownload: ProtocolId := Command(QueuedCmd, 3)
  const ProtocolQueuedCmdStopDownload: ProtocolId := Command(QueuedCmd, 4)
  const ProtocolQueuedCmdClear: ProtocolId := Command(QueuedCmd, 5)
  const ProtocolQueuedCmdCurrentIndex: ProtocolId := Command(QueuedCmd, 6)
  const ProtocolQueuedCmdLeftSpace: ProtocolId := Command(QueuedCmd, 7)

  /**
   * The discriminant `id as u8`: every command lies in its group's block
   * of ten, and none is numbered above 247, so every id fits in a byte.
   */
  function Value(id: ProtocolId): (v: Byte)
    ensures Base(id.group) <= v < Base(id.group) + 10
    ensures v <= 247
  {
    Base(id.group) + id.offset
  }

  /** The group whose block starts at `base`, if one does. */
  function GroupAt(base: int): (r: Option<Group>)
    ensures r.Some? ==> Base(r.value) == base
  {
    match base
    case 0 => Some(DeviceInfo)
    case 10 => Some(Pose)
    case 20 => Some(Alarm)
    case 30 => Some(Home)
    case 40 => Some(Hht)
    case 50 => Some(ArmOrientation)
    case 60 => Some(EndEffector)
    case 70 => Some(Jog)
    case 80 => Some(Ptp)
    case 90 => Some(Cp)
    case 100 => Some(Arc)
    case 110 => Some(Wait)
    case 120 => Some(Trig)
    case 130 => Some(Eio)
    case 140 => Some(Cal)
    case 150 => Some(Wifi)
    case 160 => Some(Firmware)
    case 170 => Some(LostStep)
    case 180 => Some(CheckModel)
    case 190 => Some(PulseMode)
    case 220 => Some(Test)
    case 240 => Some(QueuedCmd)
    case _ => None
  }

  /**
   * The command a byte on the wire names, if any: the table read from
   * numbers back to commands, by block and then by offset.
   */
  function FromValue(v: Byte): (r: Option<ProtocolId>)
    ensures r.Some? ==> Value(r.value) == v
  {
    match GroupAt(v - v % 10)
    case None => None
    case Some(g) =>
      if Declared(Command(g, v % 10)) then Some(Command(g, v % 10)) else None
  }

  /** Reading a command's id back through the table gives the command. */
  lemma ValueRoundTrip(id: ProtocolId)
    ensures FromValue(Value(id)) == Some(id)
  {
    var g := id.group;
    BlockBase(g);
    var q := Base(g) / 10;
    assert Value(id) == 10 * q + id.offset;
    assert Value(id) % 10 == id.offset;
    assert Value(id) - Value(id) % 10 == Base(g);
  }

  /** Every base is a multiple of ten, and the table finds the group from it. */
  lemma BlockBase(g: Group)
    ensures Base(g) % 10 == 0
    ensures GroupAt(Base(g)) == Some(g)
  {
  }

  /** No two commands share an id. */
  lemma ValueInjective(a: ProtocolId, b: ProtocolId)
    ensures Value(a) == Value(b) ==> a == b
  {
    ValueRoundTrip(a);
    ValueRoundTrip(b);
  }

  /** The check-model and pulse-mode blocks leave their first ids, 180 and 190, unassigned. */
  lemma UnassignedBlockStarts(id: ProtocolId)
    ensures Value(id) != 180 && Value(id) != 190
  {
    ValueRoundTrip(id);
    assert FromValue(180) == None;
    assert FromValue(190) == None;
  }

  /** The queued-command group occupies 240..247, with the probe command at the top. */
  lemma QueuedCmdBlock()
    ensures Value(ProtocolQueuedCmdStartExec) == 240
    ensures Value(ProtocolQueuedCmdCurrentIndex) == 246
    ensures Value(ProtocolQueuedCmdLeftSpace) == 247
    ensures forall id: ProtocolId :: id.group == QueuedCmd ==> 240 <= Value(id) <= 247
  {
  }

  /** Fixed ids the firmware relies on. */
  lemma SampleValues()
    ensures Value(ProtocolPTPCmd) == PTP_BASE + 4 == 84
    ensures Value(ProtocolGetPose) == 10
    ensures Value(ProtocolHHTTrigMode) == 40
    ensures Value(ProtocolEndEffectorSuctionCup) == 62
  {
  }

  /** 247 is the largest id in use. */
  lemma MaximumValue()
    ensures forall id: ProtocolId :: Value(id) <= Value(ProtocolQueuedCmdLeftSpace) == 247
  {
  }
}
