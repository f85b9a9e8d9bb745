/** Commands sent to the radio: the frames they are encoded as, and what a peer that decodes
    and parses those frames makes of them. */
module RNodeCommands {
  import opened Base
  import opened Kiss
  import opened KissSync
  import opened RNode

  type U32 = n: int | 0 <= n < 0x1_0000_0000

  datatype Command =
    | SetFrequency(hz: U32)
    | SetBandwidth(hz: U32)
    | SetTxPower(dbm: Byte)
    | SetSpreadingFactor(factor: Byte)
    | SetCodingRate(rate: Byte)
    | SetRadioState(mode: RadioMode)
    | Detect
    | Leave
    | SetReady(enabled: bool)

  datatype CommandError =
    | InvalidFrequencyHz(actual: nat, minimum: nat, maximum: nat)
    | InvalidBandwidthHz(actual: nat, minimum: nat, maximum: nat)
    | InvalidTxPowerDbm(actual: nat, maximum: nat)
    | InvalidSpreadingFactor(actual: nat, minimum: nat, maximum: nat)
    | InvalidCodingRate(actual: nat, minimum: nat, maximum: nat)
    | KissFailure(kiss: KissError)

  const CMD_DETECT: Byte := 0x08
  const CMD_LEAVE: Byte := 0x0A

  function ModeByte(mode: RadioMode): Byte {
    match mode
    case Off => 0x00
    case On => 0x01
    case Ask => 0xFF
  }

  function CommandFrame(c: Command): Result<Frame, CommandError> {
    match c
    case SetFrequency(hz) =>
      if 137_000_000 <= hz <= 3_000_000_000 then Ok(Frame(CMD_FREQUENCY, BigEndian(hz, 4)))
      else Err(InvalidFrequencyHz(hz, 137_000_000, 3_000_000_000))
    case SetBandwidth(hz) =>
      if 7_800 <= hz <= 1_625_000 then Ok(Frame(CMD_BANDWIDTH, BigEndian(hz, 4)))
      else Err(InvalidBandwidthHz(hz, 7_800, 1_625_000))
    case SetTxPower(dbm) => if dbm <= 37 then Ok(Frame(CMD_TXPOWER, [dbm])) else Err(InvalidTxPowerDbm(dbm, 37))
    case SetSpreadingFactor(factor) =>
      if 5 <= factor <= 12 then Ok(Frame(CMD_SF, [factor])) else Err(InvalidSpreadingFactor(factor, 5, 12))
    case SetCodingRate(rate) => if 5 <= rate <= 8 then Ok(Frame(CMD_CR, [rate])) else Err(InvalidCodingRate(rate, 5, 8))
    case SetRadioState(mode) => Ok(Frame(CMD_RADIO_STATE, [ModeByte(mode)]))
    case Detect => Ok(Frame(CMD_DETECT, [0x73]))
    case Leave => Ok(Frame(CMD_LEAVE, [0xFF]))
    case SetReady(enabled) => Ok(Frame(CMD_READY, [if enabled then 1 else 0]))
  }

  /** A setting is sent exactly within the range the radio supports; outside it the error
      names the range. */
  lemma EncodableIff(c: Command)
    ensures CommandFrame(c).Ok? <==>
      match c {
        case SetFrequency(hz) => 137_000_000 <= hz <= 3_000_000_000
        case SetBandwidth(hz) => 7_800 <= hz <= 1_625_000
        case SetTxPower(dbm) => dbm <= 37
        case SetSpreadingFactor(factor) => 5 <= factor <= 12
        case SetCodingRate(rate) => 5 <= rate <= 8
        case _ => true
      }
    ensures CommandFrame(c).Err? ==>
      CommandFrame(c).error == match c {
        case SetFrequency(hz) => InvalidFrequencyHz(hz, 137_000_000, 3_000_000_000)
        case SetBandwidth(hz) => InvalidBandwidthHz(hz, 7_800, 1_625_000)
        case SetTxPower(dbm) => InvalidTxPowerDbm(dbm, 37)
        case SetSpreadingFactor(factor) => InvalidSpreadingFactor(factor, 5, 12)
        case SetCodingRate(rate) => InvalidCodingRate(rate, 5, 8)
        case _ => CommandFrame(c).error
      }
  {
    hide BigEndian;
  }

  /** The frames that carry no number. */
  lemma FixedFrames(enabled: bool)
    ensures CommandFrame(Detect) == Ok(Frame(0x08, [0x73])) && CommandFrame(Leave) == Ok(Frame(0x0A, [0xFF]))
    ensures CommandFrame(SetReady(enabled)) == Ok(Frame(0x0F, [if enabled then 0x01 else 0x00]))
  {
  }

  /** What the command looks like to a parser of radio events. */
  function Echo(c: Command): RNodeEvent {
    match c
    case SetFrequency(hz) => Report(FrequencyHz(hz))
    case SetBandwidth(hz) => Report(BandwidthHz(hz))
    case SetTxPower(dbm) => Report(TxPowerDbm(dbm))
    case SetSpreadingFactor(factor) => Report(SpreadingFactor(factor))
    case SetCodingRate(rate) => Report(CodingRate(rate))
    case SetRadioState(mode) => Report(RadioState(mode))
    case Detect => Unknown(CMD_DETECT, [0x73])
    case Leave => Unknown(CMD_LEAVE, [0xFF])
    case SetReady(_) => Ready
  }

  /** Every command that encodes travels: any decoder that can hold five bytes recovers its
      frame from any state, and the frame parses to the setting it carries. A Ready frame
      parses as Ready whatever its flag says. */
  lemma CommandArrives(c: Command, n: nat, st: DecoderState)
    requires CommandFrame(c).Ok? && n >= 5
    ensures var f := CommandFrame(c).value;
      && RunStream(n, st, Encode(f)) == Stream(Synced, Leftover(st) + [f], [])
      && ParseCommandFrame(f) == Ok(Echo(c))
  {
    hide RunStream, Encode, BigEndian, FromBigEndian;
    var f := CommandFrame(c).value;
    assert |f.payload| <= 4;
    FrameDecoded(n, st, f);
    WidthsOfMachineIntegers();
    match c
    case SetFrequency(hz) => FromBigEndianOf(hz, 4);
    case SetBandwidth(hz) => FromBigEndianOf(hz, 4);
    case _ =>
  }

  /** The payload is put together in a small buffer and framed from there. */
  method EncodeCommand(c: Command, out: array<Byte>) returns (r: Result<nat, CommandError>)
    modifies out
    ensures match CommandFrame(c) {
      case Err(e) => r == Err(e) && out[..] == old(out[..])
      case Ok(f) =>
        if out.Length < |Encode(f)| then r == Err(KissFailure(OutputBufferTooShort(out.Length, |Encode(f)|))) && out[..] == old(out[..])
        else r == Ok(|Encode(f)|) && out[..|Encode(f)|] == Encode(f) && out[|Encode(f)|..] == old(out[|Encode(f)|..])
    }
  {
    hide Encode, BigEndian;
    var frame :- CommandFrame(c);
    var payload := new Byte[4](_ => 0);
    forall i | 0 <= i < |frame.payload| {
      payload[i] := frame.payload[i];
    }
    assert payload[..|frame.payload|] == frame.payload;
    FrameLength(frame);
    var written := EncodeCommandFrame(frame.command, payload[..|frame.payload|], out);
    r := if written.Ok? then Ok(written.value) else Err(KissFailure(written.error));
  }

  lemma FrameLength(f: Frame)
    requires |f.payload| <= 4
    ensures |Encode(f)| <= 11
  {
    StuffAllBounds(f.payload);
  }
}
