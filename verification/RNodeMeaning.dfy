/** What a command frame from the radio stands for, byte by byte, and what flow control
    makes of the frames a link has taken. */
module RNodeMeaning {
  import opened Base
  import opened Kiss
  import opened RNode

  // ---- frames and events ----

  function CodeOf(e: HardwareError): Byte {
    match e
    case InitRadio => 0x01
    case TxFailed => 0x02
    case EepromLocked => 0x03
    case QueueFull => 0x04
    case MemoryLow => 0x05
    case ModemTimeout => 0x06
    case UnknownError(code) => code
  }

  /** The commands whose payload has one length only. */
  const FIXED_LENGTHS: map<Byte, nat> := map[
    0x01 := 4, 0x02 := 4, 0x03 := 1, 0x04 := 1, 0x05 := 1, 0x06 := 1, 0x21 := 4, 0x22 := 4,
    0x23 := 1, 0x24 := 1, 0x48 := 1, 0x49 := 1, 0x50 := 2, 0x90 := 1]

  ghost function WantedLength(command: Byte): nat {
    if command in FIXED_LENGTHS then FIXED_LENGTHS[command] else 1
  }

  /** A number on the wire: four bytes, most significant first. */
  ghost predicate Word(payload: Bytes, n: nat) {
    n < 0x1_0000_0000 && payload == BigEndian(n, 4)
  }

  ghost predicate ReportStands(f: Frame, report: ConfigReport) {
    match report
    case FrequencyHz(hz) => f.command == 0x01 && Word(f.payload, hz)
    case BandwidthHz(hz) => f.command == 0x02 && Word(f.payload, hz)
    case TxPowerDbm(value) => f == Frame(0x03, [value])
    case SpreadingFactor(value) => f == Frame(0x04, [value])
    case CodingRate(value) => f == Frame(0x05, [value])
    case RadioState(mode) => f == Frame(0x06, [match mode { case Off => 0x00 case On => 0x01 case Ask => 0xFF }])
    case Platform(value) => f == Frame(0x48, [value])
    case Mcu(value) => f == Frame(0x49, [value])
  }

  ghost predicate StatStands(f: Frame, stat: Stat) {
    match stat
    case RxBytes(n) => f.command == 0x21 && Word(f.payload, n)
    case TxBytes(n) => f.command == 0x22 && Word(f.payload, n)
    case RssiDbm(dbm) => 0 <= dbm + 157 < 0x100 && f == Frame(0x23, [dbm + 157])
    case SnrQuarterDb(q) => -0x80 <= q < 0x80 && f == Frame(0x24, [if q < 0 then 0x100 + q else q])
  }

  /** The frame `f` stands for the event `e`. */
  ghost predicate Stands(f: Frame, e: RNodeEvent) {
    match e
    case Data(payload) => f == Frame(0x00, payload)
    case Ready => f.command == 0x0F && |f.payload| <= 1
    case HwError(error) => f == Frame(0x90, [CodeOf(error)]) && (error.UnknownError? ==> error.code == 0 || error.code > 6)
    case FirmwareVersion(major, minor, supported) =>
      f == Frame(0x50, [major, minor]) && (supported <==> 0x100 * major + minor >= 0x100 * 1 + 52)
    case Report(report) => ReportStands(f, report)
    case Statistic(stat) => StatStands(f, stat)
    case Unknown(command, payload) =>
      && f == Frame(command, payload)
      && ((command !in FIXED_LENGTHS && command != 0x00 && command != 0x0F)
          || (command == 0x06 && |payload| == 1 && payload[0] !in {0x00, 0x01, 0xFF}))
  }

  lemma WordIs(payload: Bytes)
    requires |payload| == 4
    ensures Word(payload, FromBigEndian(payload))
  {
    BigEndianOfFrom(payload);
    WidthsOfMachineIntegers();
  }

  lemma WordReads(payload: Bytes, n: nat)
    requires Word(payload, n)
    ensures |payload| == 4 && FromBigEndian(payload) == n
  {
    WidthsOfMachineIntegers();
    FromBigEndianOf(n, 4);
  }

  lemma ParsedStands(f: Frame)
    ensures ParseCommandFrame(f).Ok? ==> Stands(f, ParseCommandFrame(f).value)
  {
    hide Word, FromBigEndian;
    if |f.payload| == 1 {
      assert f == Frame(f.command, [f.payload[0]]);
    } else if |f.payload| == 2 {
      assert f == Frame(f.command, [f.payload[0], f.payload[1]]);
    } else if |f.payload| == 4 {
      WordIs(f.payload);
    }
  }

  lemma StandsParses(f: Frame, e: RNodeEvent)
    requires Stands(f, e)
    ensures ParseCommandFrame(f) == Ok(e)
  {
    hide Word, FromBigEndian;
    match e
    case Report(FrequencyHz(hz)) => WordReads(f.payload, hz);
    case Report(BandwidthHz(hz)) => WordReads(f.payload, hz);
    case Statistic(RxBytes(n)) => WordReads(f.payload, n);
    case Statistic(TxBytes(n)) => WordReads(f.payload, n);
    case _ =>
  }

  /** Each frame stands for at most one event, the parser finds it, and a frame that stands
      for none has the wrong length for its command. */
  lemma ParseIff(f: Frame, e: RNodeEvent)
    ensures ParseCommandFrame(f) == Ok(e) <==> Stands(f, e)
    ensures ParseCommandFrame(f).Err? <==>
      (f.command in FIXED_LENGTHS && |f.payload| != FIXED_LENGTHS[f.command]) || (f.command == 0x0F && |f.payload| > 1)
    ensures ParseCommandFrame(f).Err? ==> ParseCommandFrame(f).error == InvalidPayloadLength(f.command, |f.payload|, WantedLength(f.command))
  {
    WrongLength(f);
    hide Stands, ParseCommandFrame;
    ParsedStands(f);
    if Stands(f, e) {
      StandsParses(f, e);
    }
  }

  lemma WrongLength(f: Frame)
    ensures ParseCommandFrame(f).Err? <==>
      (f.command in FIXED_LENGTHS && |f.payload| != FIXED_LENGTHS[f.command]) || (f.command == 0x0F && |f.payload| > 1)
    ensures ParseCommandFrame(f).Err? ==> ParseCommandFrame(f).error == InvalidPayloadLength(f.command, |f.payload|, WantedLength(f.command))
  {
    hide FromBigEndian;
  }

  // ---- flow control in terms of frames ----

  /** What a link did, seen from outside: it sent, or it took a frame. */
  datatype Mark = SendMark | FrameMark(frame: Frame)

  /** A frame that stands for no event changes nothing, as an unknown command does. */
  function EventOf(f: Frame): RNodeEvent {
    var event := ParseCommandFrame(f);
    if event.Ok? then event.value else Unknown(f.command, f.payload)
  }

  function ActionOf(m: Mark): Action {
    match m
    case SendMark => Sent
    case FrameMark(frame) => Applied(EventOf(frame))
  }

  function ActionsOf(marks: seq<Mark>): (actions: seq<Action>)
    ensures |actions| == |marks|
  {
    seq(|marks|, i requires 0 <= i < |marks| => ActionOf(marks[i]))
  }

  lemma ActionsConcat(a: seq<Mark>, b: seq<Mark>)
    ensures ActionsOf(a + b) == ActionsOf(a) + ActionsOf(b)
  {
  }

  /** A Ready frame: command 0x0F with at most one byte. */
  predicate ReadyFrame(m: Mark) {
    m.FrameMark? && m.frame.command == 0x0F && |m.frame.payload| <= 1
  }

  /** A hardware error frame: command 0x90 with its one code byte. */
  predicate ErrorFrame(m: Mark) {
    m.FrameMark? && m.frame.command == 0x90 && |m.frame.payload| == 1
  }

  /** Before position `i` a Ready frame was taken, and since then nothing was sent and no
      hardware error frame was taken. */
  ghost predicate FrameLicensed(marks: seq<Mark>, i: nat)
    requires i <= |marks|
  {
    exists j | 0 <= j < i :: ReadyFrame(marks[j]) && forall k | j < k < i :: !marks[k].SendMark? && !ErrorFrame(marks[k])
  }

  lemma MarksMean(m: Mark)
    ensures Grants(ActionOf(m)) <==> ReadyFrame(m)
    ensures Revokes(ActionOf(m)) <==> m.SendMark? || ErrorFrame(m)
    ensures ActionOf(m).Sent? <==> m.SendMark?
  {
    hide ParseCommandFrame;
    if m.FrameMark? {
      ParseIff(m.frame, Ready);
      ParsedStands(m.frame);
      WrongLength(m.frame);
    }
  }

  lemma LicensedByFrames(marks: seq<Mark>, i: nat)
    requires i <= |marks|
    ensures Licensed(ActionsOf(marks), i) <==> FrameLicensed(marks, i)
  {
    hide ActionOf, Grants, Revokes, ReadyFrame, ErrorFrame;
    var actions := ActionsOf(marks);
    forall k | 0 <= k < |marks| ensures
      (Grants(actions[k]) <==> ReadyFrame(marks[k])) && (Revokes(actions[k]) <==> marks[k].SendMark? || ErrorFrame(marks[k]))
    {
      MarksMean(marks[k]);
    }
    if Licensed(actions, i) {
      var j :| 0 <= j < i && Grants(actions[j]) && Undisturbed(actions, j, i);
      assert ReadyFrame(marks[j]);
    }
    if FrameLicensed(marks, i) {
      var j :| 0 <= j < i && ReadyFrame(marks[j]) && forall k | j < k < i :: !marks[k].SendMark? && !ErrorFrame(marks[k]);
      assert Grants(actions[j]) && Undisturbed(actions, j, i);
    }
  }
}
