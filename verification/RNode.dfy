/** RNode command frames and the transmit flow control they drive. */
module RNode {
  import opened Base
  import opened Kiss

  datatype HardwareError = InitRadio | TxFailed | EepromLocked | QueueFull | MemoryLow | ModemTimeout | UnknownError(code: Byte)

  datatype RadioMode = Off | On | Ask

  datatype ConfigReport =
    | FrequencyHz(hz: nat) | BandwidthHz(hz: nat) | TxPowerDbm(value: Byte) | SpreadingFactor(value: Byte)
    | CodingRate(value: Byte) | RadioState(mode: RadioMode) | Platform(value: Byte) | Mcu(value: Byte)

  datatype Stat = RxBytes(bytes: nat) | TxBytes(bytes: nat) | RssiDbm(dbm: int) | SnrQuarterDb(quarters: int)

  datatype RNodeEvent =
    | Data(payload: Bytes)
    | Ready
    | HwError(error: HardwareError)
    | FirmwareVersion(major: Byte, minor: Byte, supported: bool)
    | Report(report: ConfigReport)
    | Statistic(stat: Stat)
    | Unknown(command: Byte, payload: Bytes)

  datatype RNodeError = InvalidPayloadLength(command: Byte, actual: nat, expected: nat)

  const CMD_FREQUENCY: Byte := 0x01
  const CMD_BANDWIDTH: Byte := 0x02
  const CMD_TXPOWER: Byte := 0x03
  const CMD_SF: Byte := 0x04
  const CMD_CR: Byte := 0x05
  const CMD_RADIO_STATE: Byte := 0x06
  const CMD_READY: Byte := 0x0F
  const CMD_STAT_RX: Byte := 0x21
  const CMD_STAT_TX: Byte := 0x22
  const CMD_STAT_RSSI: Byte := 0x23
  const CMD_STAT_SNR: Byte := 0x24
  const CMD_PLATFORM: Byte := 0x48
  const CMD_MCU: Byte := 0x49
  const CMD_FW_VERSION: Byte := 0x50
  const CMD_ERROR: Byte := 0x90

  function ExpectLen(f: Frame, expected: nat): Result<(), RNodeError> {
    if |f.payload| == expected then Ok(()) else Err(InvalidPayloadLength(f.command, |f.payload|, expected))
  }

  function ParseU8(f: Frame): Result<Byte, RNodeError> {
    var _ :- ExpectLen(f, 1);
    Ok(f.payload[0])
  }

  function ParseU32(f: Frame): Result<nat, RNodeError> {
    var _ :- ExpectLen(f, 4);
    Ok(FromBigEndian(f.payload))
  }

  function ErrorOfCode(code: Byte): HardwareError {
    match code
    case 1 => InitRadio
    case 2 => TxFailed
    case 3 => EepromLocked
    case 4 => QueueFull
    case 5 => MemoryLow
    case 6 => ModemTimeout
    case _ => UnknownError(code)
  }

  function FirmwareSupported(major: Byte, minor: Byte): bool {
    major > 1 || (major == 1 && minor >= 52)
  }

  function ParseCommandFrame(f: Frame): Result<RNodeEvent, RNodeError> {
    var c := f.command;
    if c == CMD_DATA then Ok(Data(f.payload))
    else if c == CMD_READY then
      if |f.payload| <= 1 then Ok(Ready) else Err(InvalidPayloadLength(c, |f.payload|, 1))
    else if c == CMD_ERROR then
      var code :- ParseU8(f);
      Ok(HwError(ErrorOfCode(code)))
    else if c == CMD_FW_VERSION then
      var _ :- ExpectLen(f, 2);
      Ok(FirmwareVersion(f.payload[0], f.payload[1], FirmwareSupported(f.payload[0], f.payload[1])))
    else if c == CMD_STAT_RX then
      var n :- ParseU32(f);
      Ok(Statistic(RxBytes(n)))
    else if c == CMD_STAT_TX then
      var n :- ParseU32(f);
      Ok(Statistic(TxBytes(n)))
    else if c == CMD_STAT_RSSI then
      var b :- ParseU8(f);
      var raw: int := b;
      Ok(Statistic(RssiDbm(raw - 157)))
    else if c == CMD_STAT_SNR then
      var b :- ParseU8(f);
      var raw: int := b;
      Ok(Statistic(SnrQuarterDb(if raw < 128 then raw else raw - 256)))
    else if c == CMD_FREQUENCY then
      var n :- ParseU32(f);
      Ok(Report(FrequencyHz(n)))
    else if c == CMD_BANDWIDTH then
      var n :- ParseU32(f);
      Ok(Report(BandwidthHz(n)))
    else if c == CMD_TXPOWER then
      var b :- ParseU8(f);
      Ok(Report(TxPowerDbm(b)))
    else if c == CMD_SF then
      var b :- ParseU8(f);
      Ok(Report(SpreadingFactor(b)))
    else if c == CMD_CR then
      var b :- ParseU8(f);
      Ok(Report(CodingRate(b)))
    else if c == CMD_RADIO_STATE then
      var b :- ParseU8(f);
      if b == 0x00 then Ok(Report(RadioState(Off)))
      else if b == 0x01 then Ok(Report(RadioState(On)))
      else if b == 0xFF then Ok(Report(RadioState(Ask)))
      else Ok(Unknown(c, f.payload))
    else if c == CMD_PLATFORM then
      var b :- ParseU8(f);
      Ok(Report(Platform(b)))
    else if c == CMD_MCU then
      var b :- ParseU8(f);
      Ok(Report(Mcu(b)))
    else Ok(Unknown(c, f.payload))
  }

  // ---- flow control ----

  datatype Radio = Radio(flowControl: bool, ready: bool, lastError: Option<HardwareError>) {
    predicate CanTransmit() {
      !flowControl || ready
    }

    function TxStarted(): Radio {
      if flowControl then this.(ready := false) else this
    }

    function Apply(event: RNodeEvent): Radio {
      match event
      case Ready => this.(ready := true)
      case HwError(e) => this.(lastError := Some(e), ready := false)
      case _ => this
    }
  }

  function NewRadio(flowControl: bool): Radio {
    Radio(flowControl, !flowControl, None)
  }

  class RNodeState {
    const flowControl: bool
    var interfaceReady: bool
    var lastError: Option<HardwareError>

    function Value(): Radio
      reads this
    {
      Radio(flowControl, interfaceReady, lastError)
    }

    constructor (flowControl: bool)
      ensures Value() == NewRadio(flowControl)
    {
      this.flowControl, interfaceReady, lastError := flowControl, !flowControl, None;
    }

    method MarkTxStarted()
      modifies this
      ensures Value() == old(Value()).TxStarted()
    {
      if flowControl {
        interfaceReady := false;
      }
    }

    method ApplyEvent(event: RNodeEvent)
      modifies this
      ensures Value() == old(Value()).Apply(event)
    {
      match event
      case Ready => interfaceReady := true;
      case HwError(e) =>
        lastError := Some(e);
        interfaceReady := false;
      case _ =>
    }
  }

  // ---- what flow control guarantees over whole runs ----

  datatype Action = Sent | Applied(event: RNodeEvent)

  /** The radio after a run of actions; a send the radio forbids is no run at all. */
  function RunRadio(radio: Radio, actions: seq<Action>): Option<Radio>
    decreases |actions|
  {
    if actions == [] then Some(radio)
    else
      match actions[0]
      case Sent => if radio.CanTransmit() then RunRadio(radio.TxStarted(), actions[1..]) else None
      case Applied(event) => RunRadio(radio.Apply(event), actions[1..])
  }

  predicate Revokes(a: Action) {
    a.Sent? || a.event.HwError?
  }

  predicate Grants(a: Action) {
    a.Applied? && a.event.Ready?
  }

  /** Before position `i` there is a Ready with neither a send nor a hardware error after it. */
  ghost predicate Licensed(actions: seq<Action>, i: nat)
    requires i <= |actions|
  {
    exists j | 0 <= j < i :: Grants(actions[j]) && Undisturbed(actions, j, i)
  }

  ghost predicate Undisturbed(actions: seq<Action>, j: nat, i: nat)
    requires j < i <= |actions|
  {
    forall k | j < k < i :: !Revokes(actions[k])
  }

  ghost predicate AllLicensed(actions: seq<Action>) {
    forall i | 0 <= i < |actions| && actions[i].Sent? :: Licensed(actions, i)
  }

  lemma {:induction false} RunSnoc(radio: Radio, actions: seq<Action>, a: Action)
    ensures RunRadio(radio, actions + [a]) ==
      match RunRadio(radio, actions) { case None => None case Some(r) => RunRadio(r, [a]) }
    decreases |actions|
  {
    if actions == [] {
      assert actions + [a] == [a];
    } else {
      assert (actions + [a])[1..] == actions[1..] + [a];
      match actions[0]
      case Sent => RunSnoc(radio.TxStarted(), actions[1..], a);
      case Applied(event) => RunSnoc(radio.Apply(event), actions[1..], a);
    }
  }

  lemma UndisturbedPrefix(actions: seq<Action>, a: Action, j: nat, i: nat)
    requires j < i <= |actions|
    ensures Undisturbed(actions + [a], j, i) <==> Undisturbed(actions, j, i)
  {
    var more := actions + [a];
    forall k | j < k < i ensures more[k] == actions[k] {
    }
    if Undisturbed(more, j, i) {
      forall k | j < k < i ensures !Revokes(actions[k]) {
        assert !Revokes(more[k]);
      }
    }
  }

  lemma LicensedSnoc(actions: seq<Action>, a: Action)
    ensures Licensed(actions + [a], |actions| + 1) <==> Grants(a) || (!Revokes(a) && Licensed(actions, |actions|))
  {
    var more, n := actions + [a], |actions|;
    if Grants(a) {
      assert Grants(more[n]) && Undisturbed(more, n, n + 1);
    }
    if !Revokes(a) && Licensed(actions, n) {
      var j :| 0 <= j < n && Grants(actions[j]) && Undisturbed(actions, j, n);
      assert Grants(more[j]) && Undisturbed(more, j, n + 1);
    }
    if Licensed(more, n + 1) && !Grants(a) {
      var j :| 0 <= j < n + 1 && Grants(more[j]) && Undisturbed(more, j, n + 1);
      assert j < n && !Revokes(more[n]);
      assert Undisturbed(more, j, n);
      UndisturbedPrefix(actions, a, j, n);
      assert Grants(actions[j]) && Undisturbed(actions, j, n);
    }
  }

  lemma LicensedPrefix(actions: seq<Action>, a: Action, i: nat)
    requires i <= |actions|
    ensures Licensed(actions + [a], i) <==> Licensed(actions, i)
  {
    var more := actions + [a];
    if Licensed(actions, i) {
      var j :| 0 <= j < i && Grants(actions[j]) && Undisturbed(actions, j, i);
      assert Grants(more[j]) && Undisturbed(more, j, i);
    }
    if Licensed(more, i) {
      var j :| 0 <= j < i && Grants(more[j]) && Undisturbed(more, j, i);
      UndisturbedPrefix(actions, a, j, i);
      assert Grants(actions[j]) && Undisturbed(actions, j, i);
    }
  }

  /** With flow control on, a run is possible exactly when every send follows a Ready that
      no earlier send has used up and no hardware error has withdrawn. */
  lemma {:induction false} FlowControlIff(actions: seq<Action>)
    ensures RunRadio(NewRadio(true), actions).Some? <==> AllLicensed(actions)
    ensures RunRadio(NewRadio(true), actions).Some? ==>
      var radio := RunRadio(NewRadio(true), actions).value;
      radio.flowControl && (radio.ready <==> Licensed(actions, |actions|))
    decreases |actions|
  {
    hide RunRadio;
    if actions == [] {
      EmptyRun();
    } else {
      var init, last := actions[..|actions| - 1], actions[|actions| - 1];
      assert actions == init + [last];
      FlowControlIff(init);
      RunSnoc(NewRadio(true), init, last);
      LicensedSnoc(init, last);
      forall i | 0 <= i <= |init| ensures Licensed(actions, i) <==> Licensed(init, i) {
        LicensedPrefix(init, last, i);
      }
      AllLicensedSnoc(init, last);
      if RunRadio(NewRadio(true), init).Some? {
        RunOne(RunRadio(NewRadio(true), init).value, last);
      }
    }
  }

  lemma EmptyRun()
    ensures RunRadio(NewRadio(true), []) == Some(NewRadio(true))
  {
  }

  lemma RunOne(radio: Radio, a: Action)
    ensures RunRadio(radio, [a]) ==
      match a {
        case Sent => if radio.CanTransmit() then Some(radio.TxStarted()) else None
        case Applied(event) => Some(radio.Apply(event))
      }
  {
    assert [a][1..] == [];
  }

  lemma AllLicensedSnoc(actions: seq<Action>, a: Action)
    ensures AllLicensed(actions + [a]) <==> AllLicensed(actions) && (a.Sent? ==> Licensed(actions, |actions|))
  {
    var more := actions + [a];
    forall i | 0 <= i <= |actions| ensures Licensed(more, i) <==> Licensed(actions, i) {
      LicensedPrefix(actions, a, i);
    }
    if AllLicensed(more) {
      forall i | 0 <= i < |actions| && actions[i].Sent? ensures Licensed(actions, i) {
        assert more[i].Sent?;
      }
      assert a.Sent? ==> more[|actions|].Sent?;
    }
  }

  function CountIf(actions: seq<Action>, ready: bool): nat {
    if actions == [] then 0
    else (if (if ready then Grants(actions[0]) else actions[0].Sent?) then 1 else 0) + CountIf(actions[1..], ready)
  }

  /** Sends never outnumber Ready events. */
  lemma {:induction false} SendsBounded(radio: Radio, actions: seq<Action>)
    requires radio.flowControl && RunRadio(radio, actions).Some?
    ensures CountIf(actions, false) <= CountIf(actions, true) + (if radio.ready then 1 else 0)
    decreases |actions|
  {
    if actions != [] {
      match actions[0]
      case Sent => SendsBounded(radio.TxStarted(), actions[1..]);
      case Applied(event) => SendsBounded(radio.Apply(event), actions[1..]);
    }
  }
}
