/** The radio's mode: the program's `mode` flag and the chip's registers, changed by presets, sends and
    interrupts, each a whole step. */
module LoRa {
  import opened Bytes
  import opened Modem
  import opened Sx1276

  datatype LoRaMode = Receive | Transmit

  // ----- the control state and its steps -----

  /** The software flag with the two registers it must agree with. */
  datatype Control = Control(mode: LoRaMode, opMode: bv8, dio: bv8)

  const RECEIVING := Control(Receive, 0x85, 0x00)

  /** In Receive the chip listens and signals received packets; in Transmit it sends, or has just sent and fallen
      back to standby, and signals the end of transmission. */
  predicate Agrees(c: Control) {
    match c.mode
    case Receive => c.opMode == 0x85 && c.dio == 0x00
    case Transmit => (c.opMode == 0x83 || c.opMode == 0x81) && c.dio == 0x40
  }

  predicate Busy(c: Control) {
    c.opMode & OPMODE_TX == OPMODE_TX
  }

  datatype Action = Preset | Send | Interrupt | ChipDone

  function After(c: Control, a: Action): Control {
    match a
    case Preset => RECEIVING
    case Send => if Busy(c) then RECEIVING else Control(Transmit, 0x83, 0x40)
    case Interrupt => if c.mode == Transmit then RECEIVING else c
    case ChipDone => if c.opMode == 0x83 then c.(opMode := 0x81) else c
  }

  function AfterAll(c: Control, actions: seq<Action>): Control {
    if |actions| == 0 then c else After(AfterAll(c, actions[..|actions| - 1]), actions[|actions| - 1])
  }

  /** The flag and the registers agree at every point of every run. */
  lemma {:induction false} EveryRunAgrees(c: Control, actions: seq<Action>)
    requires Agrees(c)
    ensures Agrees(AfterAll(c, actions))
  {
    if |actions| > 0 {
      EveryRunAgrees(c, actions[..|actions| - 1]);
    }
  }

  /** After a run that ends with an interrupt the radio receives, whatever was going on. */
  lemma InterruptRestoresReceive(c: Control, actions: seq<Action>)
    requires Agrees(c)
    ensures AfterAll(c, actions + [Interrupt]) == RECEIVING
  {
    EveryRunAgrees(c, actions);
    assert (actions + [Interrupt])[..|actions|] == actions;
  }

  /** Sending twice without the chip finishing in between gives up the first packet: the second call reports
      failure and puts the radio back to receiving.  Once the chip has finished, a send is accepted. */
  lemma SendWhileSending(c: Control, actions: seq<Action>)
    requires Agrees(c)
    ensures var s := AfterAll(c, actions);
            && (Busy(s) ==> After(s, Send) == RECEIVING)
            && (!Busy(s) ==> After(s, Send) == Control(Transmit, 0x83, 0x40))
            && (Busy(s) <==> s.mode == Transmit && s.opMode == 0x83)
            && !Busy(After(s, ChipDone))
  {
    EveryRunAgrees(c, actions);
  }

  // ----- what goes on the air -----

  /** The control state with the frame being sent, if any, and the frames that have gone out in full. */
  datatype OnAir = OnAir(control: Control, current: seq<seq<bv8>>, sent: seq<seq<bv8>>)

  ghost predicate Tracks(a: OnAir) {
    Agrees(a.control) && |a.current| == if a.control.opMode == 0x83 then 1 else 0
  }

  /** One call of send; a refused call gives the frame in transmission up. */
  function SendCall(a: OnAir, frame: seq<bv8>): OnAir {
    OnAir(After(a.control, Send), if Busy(a.control) then [] else [frame], a.sent)
  }

  /** Calls of send until one succeeds. */
  function SendRepeated(a: OnAir, frame: seq<bv8>, tries: nat): OnAir
    requires tries > 0
    decreases tries
  {
    if !Busy(a.control) || tries == 1 then SendCall(a, frame) else SendRepeated(SendCall(a, frame), frame, tries - 1)
  }

  /** The second call succeeds at the latest; then the frame is in transmission and nothing else is. */
  lemma SecondTrySucceeds(a: OnAir, frame: seq<bv8>)
    requires Tracks(a)
    ensures var b := if Busy(a.control) then SendRepeated(a, frame, 2) else SendRepeated(a, frame, 1);
            Tracks(b) && b == OnAir(Control(Transmit, 0x83, 0x40), [frame], a.sent)
  {
    var b := SendCall(a, frame);
    assert SendRepeated(a, frame, 2) == if Busy(a.control) then SendRepeated(b, frame, 1) else b;
    assert SendRepeated(b, frame, 1) == SendCall(b, frame);
  }

  /** What happens before the next frame is handed over: the chip is still sending, or it has finished, and the
      interrupt routine may have run. */
  datatype Pause = Unfinished | Finished | Handled

  function AfterPause(a: OnAir, p: Pause): OnAir {
    match p
    case Unfinished => a
    case Finished => OnAir(After(a.control, ChipDone), [], a.sent + a.current)
    case Handled => OnAir(After(After(a.control, ChipDone), Interrupt), [], a.sent + a.current)
  }

  /** Frames handed over one after the other, each until send succeeds. */
  function TransmitAll(a: OnAir, frames: seq<seq<bv8>>, pauses: seq<Pause>): OnAir
    requires |frames| == |pauses|
  {
    if |frames| == 0 then a
    else
      var n := |frames| - 1;
      var before := TransmitAll(a, frames[..n], pauses[..n]);
      AfterPause(SendRepeated(before, frames[n], if Busy(before.control) then 2 else 1), pauses[n])
  }

  /** The frames that the chip finishes before the next one is handed over. */
  function FinishedOf(frames: seq<seq<bv8>>, pauses: seq<Pause>): seq<seq<bv8>>
    requires |frames| == |pauses|
  {
    if |frames| == 0 then []
    else
      var n := |frames| - 1;
      FinishedOf(frames[..n], pauses[..n]) + if pauses[n] == Unfinished then [] else [frames[n]]
  }

  /** Exactly those frames go out in full, in their order: a frame that is still in transmission when the next one is
      handed over is given up, and nobody learns of it. */
  lemma {:induction false} TransmittedExactly(a: OnAir, frames: seq<seq<bv8>>, pauses: seq<Pause>)
    requires Tracks(a) && |frames| == |pauses|
    ensures Tracks(TransmitAll(a, frames, pauses))
    ensures TransmitAll(a, frames, pauses).sent == a.sent + FinishedOf(frames, pauses)
  {
    if |frames| > 0 {
      var n := |frames| - 1;
      TransmittedExactly(a, frames[..n], pauses[..n]);
      SecondTrySucceeds(TransmitAll(a, frames[..n], pauses[..n]), frames[n]);
      hide SendRepeated;
    }
  }

  // ----- the registers after each call -----

  /** What a length parameter of one byte keeps of a length. */
  function LowByte(n: nat): (r: u8)
    ensures r <= n
  {
    n % 256
  }

  /** All of it below 256, and otherwise what is left of it after taking 256 away as often as possible. */
  lemma LowByteOf(n: nat)
    ensures n < 256 ==> LowByte(n) == n
    ensures LowByte(n + 256) == LowByte(n)
  {
  }

  /** Continuous reception, signalled on the interrupt line. */
  function Receiving(s: Registers): Registers {
    Listening(s, 0)[REG_DIO_MAPPING_1 := 0x00]
  }

  /** A range preset: modem and power are set in sleep mode, and the radio receives again. */
  function Range(s: Registers, sf: bv8, bw: bv8, rate: bv8, power: u8, preamble: u8, crc: bool): Registers {
    var asleep := s[REG_OP_MODE := 0x80];
    var spread := WithModem(asleep, SetSpreadingFactor(ModemOf(asleep), sf));
    var wide := WithModem(spread, SetBandwidth(ModemOf(spread), bw));
    var coded := WithModem(wide, SetCodingRate(ModemOf(wide), rate));
    var powered := WithPreamble(WithPower(coded, power, true), preamble);
    Receiving(WithModem(powered, SetCrc(ModemOf(powered), crc)))
  }

  /** What a range preset leaves in the registers. */
  predicate RangeSet(s: Registers, r: Registers, sf: bv8, bw: bv8, crc: bool, paConfig: bv8, highPower: bool,
                     preamble: u8) {
    && Consistent(ModemOf(r))
    && Decode(ModemOf(r)) == Decode(ModemOf(s)).(spreadingFactor := sf, bandwidth := bw, crc := crc)
    && r[REG_OP_MODE] == 0x85 && r[REG_DIO_MAPPING_1] == 0x00
    && r[REG_PA_CONFIG] == paConfig
    && (if highPower then r[REG_PA_DAC] == 0x87 && r[REG_OCP] == 0x31 else r[REG_PA_DAC] == 0x84 && r[REG_OCP] == 0x2a)
    && r[REG_PREAMBLE_MSB] == ToByte(0) && r[REG_PREAMBLE_LSB] == ToByte(preamble)
  }

  lemma RangeModem(s: Registers, sf: bv8, bw: bv8, rate: bv8, power: u8, preamble: u8, crc: bool)
    ensures ModemOf(Range(s, sf, bw, rate, power, preamble, crc))
         == SetCrc(SetCodingRate(SetBandwidth(SetSpreadingFactor(ModemOf(s), sf), bw), rate), crc)
  {
    hide ToByte, SetCrc, SetCodingRate, SetBandwidth, SetSpreadingFactor, WithModem, ModemOf, WithPower, WithPreamble,
         Receiving;
    var asleep := s[REG_OP_MODE := 0x80];
    var spread := SetSpreadingFactor(ModemOf(asleep), sf);
    var wide := SetBandwidth(spread, bw);
    var coded := SetCodingRate(wide, rate);
    ModemField(asleep, spread, wide);
    ModemField(asleep, wide, coded);
    ModemField(asleep, coded, coded);
    var powered := WithPreamble(WithPower(WithModem(asleep, coded), power, true), preamble);
    ModemField(powered, SetCrc(coded, crc), coded);
    ModemKept(s, 0x80, power, preamble);
    ModemKept(WithModem(asleep, coded), 0x80, power, preamble);
    ModemKept(WithModem(powered, SetCrc(coded, crc)), 0x80, power, preamble);
  }

  /** The other calls of a preset leave the modem's registers alone. */
  lemma ModemKept(s: Registers, opMode: bv8, power: u8, preamble: u8)
    ensures ModemOf(s[REG_OP_MODE := opMode]) == ModemOf(s)
    ensures ModemOf(WithPreamble(WithPower(s, power, true), preamble)) == ModemOf(s)
    ensures ModemOf(Receiving(s)) == ModemOf(s)
  {
    hide ToByte;
  }

  /** The long-range preset: spreading factor 8 at 62.5 kHz with checksum, at 20 dBm.  The misplaced coding-rate bits
      fall on a bandwidth bit that is set already, so the coding rate stays what it was. */
  lemma LongRangeSet(s: Registers)
    ensures RangeSet(s, Range(s, 8, BANDWIDTH_62_5_KHZ, 0x20, 20, 10, true), 8, BANDWIDTH_62_5_KHZ, true,
                     0x80 | ToByte(15), true, 10)
  {
    RangeModem(s, 8, BANDWIDTH_62_5_KHZ, 0x20, 20, 10, true);
    LongRangeFields(ModemOf(s));
    hide ToByte, SetCrc, SetCodingRate, SetBandwidth, SetSpreadingFactor, Decode, Consistent;
  }

  /** The short-range preset: spreading factor 7 at 125 kHz without checksum, at 10 dBm. */
  lemma ShortRangeSet(s: Registers)
    ensures RangeSet(s, Range(s, 7, BANDWIDTH_125_KHZ, 0x08, 10, 5, false), 7, BANDWIDTH_125_KHZ, false,
                     0x80 | ToByte(8), false, 5)
  {
    RangeModem(s, 7, BANDWIDTH_125_KHZ, 0x08, 10, 5, false);
    ShortRangeFields(ModemOf(s));
    hide ToByte, SetCrc, SetCodingRate, SetBandwidth, SetSpreadingFactor, Decode, Consistent;
  }

  /** Every register after each of the presets. */
  lemma LongRangeRegisters(s: Registers)
    ensures var r := Range(s, 8, BANDWIDTH_62_5_KHZ, 0x20, 20, 10, true);
            && r[0x01] == 0x85 && r[0x09] == 0x8f && r[0x0b] == 0x31 && r[0x0f] == 0x00 && r[0x12] == s[0x12] & 0x0f
            && r[0x1d] == 0x60 | (s[0x1d] & 0x0f) && r[0x1e] == 0x84 | (s[0x1e] & 0x0b)
            && r[0x20] == 0x00 && r[0x21] == 0x0a && r[0x26] == 0x04 && r[0x31] == 0xc3 && r[0x37] == 0x0a
            && r[0x40] == 0x00 && r[0x4d] == 0x87
            && forall a :: 0 <= a < 128 && a !in RangeAddresses() ==> r[a] == s[a]
  {
    RangeModem(s, 8, BANDWIDTH_62_5_KHZ, 0x20, 20, 10, true);
    LongRangeModem(ModemOf(s));
    RangeOthers(s, 8, BANDWIDTH_62_5_KHZ, 0x20, 20, 10, true);
    hide Range, WithPower, SetCrc, SetCodingRate, SetBandwidth, SetSpreadingFactor;
    PowerRegisters(s);
  }

  lemma ShortRangeRegisters(s: Registers)
    ensures var r := Range(s, 7, BANDWIDTH_125_KHZ, 0x08, 10, 5, false);
            && r[0x01] == 0x85 && r[0x09] == 0x88 && r[0x0b] == 0x2a && r[0x0f] == 0x00 && r[0x12] == s[0x12] & 0x0f
            && r[0x1d] == 0x70 | (s[0x1d] & 0x0f) && r[0x1e] == 0x70 | (s[0x1e] & 0x0b)
            && r[0x20] == 0x00 && r[0x21] == 0x05 && r[0x26] == 0x04 && r[0x31] == 0xc3 && r[0x37] == 0x0a
            && r[0x40] == 0x00 && r[0x4d] == 0x84
            && forall a :: 0 <= a < 128 && a !in RangeAddresses() ==> r[a] == s[a]
  {
    RangeModem(s, 7, BANDWIDTH_125_KHZ, 0x08, 10, 5, false);
    ShortRangeModem(ModemOf(s));
    RangeOthers(s, 7, BANDWIDTH_125_KHZ, 0x08, 10, 5, false);
    hide Range, WithPower, SetCrc, SetCodingRate, SetBandwidth, SetSpreadingFactor;
    PowerRegisters(s);
  }

  lemma LongRangeModem(m: Modem)
    ensures SetCrc(SetCodingRate(SetBandwidth(SetSpreadingFactor(m, 8), BANDWIDTH_62_5_KHZ), 0x20), true)
         == Modem(0x60 | (m.config1 & 0x0f), 0x84 | (m.config2 & 0x0b), 0x04, 0xc3, 0x0a)
  {
  }

  lemma ShortRangeModem(m: Modem)
    ensures SetCrc(SetCodingRate(SetBandwidth(SetSpreadingFactor(m, 7), BANDWIDTH_125_KHZ), 0x08), false)
         == Modem(0x70 | (m.config1 & 0x0f), 0x70 | (m.config2 & 0x0b), 0x04, 0xc3, 0x0a)
  {
  }

  lemma PowerRegisters(s: Registers)
    ensures var r := WithPower(s, 20, true); r[0x09] == 0x8f && r[0x0b] == 0x31 && r[0x4d] == 0x87
    ensures var r := WithPower(s, 10, true); r[0x09] == 0x88 && r[0x0b] == 0x2a && r[0x4d] == 0x84
  {
  }

  /** The registers of a preset that are not the modem's. */
  lemma RangeOthers(s: Registers, sf: bv8, bw: bv8, rate: bv8, power: u8, preamble: u8, crc: bool)
    requires preamble < 16
    ensures var r := Range(s, sf, bw, rate, power, preamble, crc); var powered := WithPower(s, power, true);
            && r[0x01] == 0x85 && r[0x0f] == 0x00 && r[0x12] == s[0x12] & 0x0f && r[0x40] == 0x00
            && r[0x09] == powered[0x09] && r[0x0b] == powered[0x0b] && r[0x4d] == powered[0x4d]
            && r[0x20] == 0x00 && r[0x21] == ToByte(preamble)
            && forall a :: 0 <= a < 128 && a !in RangeAddresses() ==> r[a] == s[a]
  {
    hide SetCrc, SetCodingRate, SetBandwidth, SetSpreadingFactor, ModemOf, WithModem, Receiving, WithPower,
         WithPreamble, RangeAddresses;
    var asleep := s[REG_OP_MODE := 0x80];
    var spread := SetSpreadingFactor(ModemOf(asleep), sf);
    var wide := SetBandwidth(spread, bw);
    var coded := SetCodingRate(wide, rate);
    ModemField(asleep, spread, wide);
    ModemField(asleep, wide, coded);
    var powered := WithPreamble(WithPower(WithModem(asleep, coded), power, true), preamble);
    OthersOf(s, coded, SetCrc(ModemOf(powered), crc), power, preamble);
  }

  lemma OthersOf(s: Registers, m: Modem, m': Modem, power: u8, preamble: u8)
    requires preamble < 16
    ensures var powered := WithPower(s, power, true);
            var t := WithPreamble(WithPower(WithModem(s[REG_OP_MODE := 0x80], m), power, true), preamble);
            var r := Receiving(WithModem(t, m'));
            && r[0x01] == 0x85 && r[0x0f] == 0x00 && r[0x12] == s[0x12] & 0x0f && r[0x40] == 0x00
            && r[0x09] == powered[0x09] && r[0x0b] == powered[0x0b] && r[0x4d] == powered[0x4d]
            && r[0x20] == 0x00 && r[0x21] == ToByte(preamble)
            && forall a :: 0 <= a < 128 && a !in RangeAddresses() ==> r[a] == s[a]
  {
    PowerOthers(s, WithModem(s[REG_OP_MODE := 0x80], m), power);
    hide WithPower;
  }

  /** The power registers do not depend on what was there, and no others are written. */
  lemma PowerOthers(s: Registers, t: Registers, power: u8)
    ensures var r, q := WithPower(s, power, true), WithPower(t, power, true);
            && r[0x09] == q[0x09] && r[0x0b] == q[0x0b] && r[0x4d] == q[0x4d]
            && forall a :: 0 <= a < 128 && a != 0x09 && a != 0x0b && a != 0x4d ==> q[a] == t[a]
  {
    hide ToByte;
  }

  function RangeAddresses(): set<int> {
    {0x01, 0x09, 0x0b, 0x0f, 0x12, 0x1d, 0x1e, 0x20, 0x21, 0x26, 0x31, 0x37, 0x40, 0x4d}
  }

  lemma LongRangeFields(m: Modem)
    ensures var m' := SetCrc(SetCodingRate(SetBandwidth(SetSpreadingFactor(m, 8), BANDWIDTH_62_5_KHZ), 0x20), true);
            && Consistent(m')
            && Decode(m') == Decode(m).(spreadingFactor := 8, bandwidth := BANDWIDTH_62_5_KHZ, crc := true)
  {
  }

  lemma ShortRangeFields(m: Modem)
    ensures var m' := SetCrc(SetCodingRate(SetBandwidth(SetSpreadingFactor(m, 7), BANDWIDTH_125_KHZ), 0x08), false);
            && Consistent(m')
            && Decode(m') == Decode(m).(spreadingFactor := 7, bandwidth := BANDWIDTH_125_KHZ, crc := false)
  {
  }

  /** The registers that the interrupt routine's reception starts from: a finished transmission gives way to it. */
  function BeforeFetch(mode: LoRaMode, s: Registers): Registers {
    if mode == Transmit then Receiving(s) else s
  }

  /** After a transmission nothing can be there yet: the routine fetches what is received while it waits, or
      nothing. */
  lemma NothingThereYet(s: Registers)
    ensures !Available(BeforeFetch(Transmit, s)[REG_IRQ_FLAGS])
    ensures StatusOf(BeforeFetch(Transmit, s)[REG_IRQ_FLAGS]) == LORA_EMPTY
  {
    FlagsCleared(s[REG_IRQ_FLAGS]);
    NotAvailable(s[REG_IRQ_FLAGS] & !IRQ_RX_ALL);
    hide Available, StatusOf;
  }

  lemma ReceivingKeeps(s: Registers)
    ensures ImplicitHeader(Receiving(s)) == ImplicitHeader(s)
    ensures Receiving(s)[REG_PAYLOAD_LENGTH] == s[REG_PAYLOAD_LENGTH]
  {
  }

  lemma FetchKeepsControl(s: Registers, during: seq<Signal>)
    requires AllFetchable(during, 254)
    ensures var r := Fetched(AfterWait(s, during));
            r[REG_OP_MODE] == s[REG_OP_MODE] && r[REG_DIO_MAPPING_1] == s[REG_DIO_MAPPING_1]
  {
    hide StatusOf, Available, QuietTime, PendingLength, Advanced;
  }

  lemma FlagsCleared(flags: bv8)
    ensures !Available(flags & !IRQ_RX_ALL)
  {
  }

  // ----- the class -----

  class LoRaShield {
    const radio: Radio
    var mode: LoRaMode

    ghost predicate Valid()
    {
      radio.Valid()
    }

    /** The register file. */
    ghost function Regs(): Registers
      requires Valid()
      reads radio.regs
    {
      radio.State()
    }

    ghost function ControlNow(): Control
      requires Valid()
      reads this, radio.regs
    {
      Control(mode, Regs()[REG_OP_MODE], Regs()[REG_DIO_MAPPING_1])
    }

    constructor ()
      ensures Valid() && fresh(radio) && fresh(radio.regs) && fresh(radio.fifo) && mode == Receive
    {
      radio := new Radio();
      mode := Receive;
    }

    method SetReceiveMode()
      requires Valid()
      modifies this`mode, radio.regs
      ensures ControlNow() == RECEIVING && Regs() == Receiving(old(Regs()))
    {
      radio.ModeReceiveContinuous(0);
      radio.EnableInterrupt(0x00);
      mode := Receive;
    }

    method SetTransmitMode()
      requires Valid()
      modifies this`mode, radio.regs
      ensures mode == Transmit && Regs() == old(Regs())[REG_DIO_MAPPING_1 := 0x40]
    {
      radio.EnableInterrupt(0x40);
      mode := Transmit;
    }

    /** `setup` and `isr` are what the GPIO library answers; if it fails the radio is not touched.  The result of
        lora_init is not looked at. */
    method Init(setup: int, isr: int)
      requires Valid()
      modifies this`mode, radio.regs
      ensures setup == -1 || isr < 0 ==> mode == old(mode) && Regs() == old(Regs())
      ensures setup != -1 && isr >= 0 ==> ControlNow() == RECEIVING
      ensures setup != -1 && isr >= 0 ==>
        Regs() == Receiving(if old(Regs())[REG_VERSION] == COMPATIBLE_VERSION then StartUp(old(Regs()), 868_000_000)
                            else old(Regs()))
    {
      hide StartUp, Receiving;
      if setup == -1 {
        return;
      }
      if isr < 0 {
        return;
      }
      var res := radio.LoraInit(868_000_000);
      SetReceiveMode();
    }

    method SetLongRange()
      requires Valid()
      modifies this`mode, radio.regs
      ensures ControlNow() == After(old(ControlNow()), Preset)
      ensures Regs() == Range(old(Regs()), 8, BANDWIDTH_62_5_KHZ, 0x20, 20, 10, true)
    {
      hide WithModem, ModemOf, WithPower, WithPreamble, SetCrc, SetCodingRate, SetBandwidth, SetSpreadingFactor,
           Receiving;
      radio.SetMode(OPMODE_SLEEP);
      radio.SetSpreading(8);
      radio.SetSignalBandwidth(BANDWIDTH_62_5_KHZ);
      radio.SetRate(0x20);
      radio.SetTxPower(20, true);
      radio.SetPreambleLength(10);
      radio.SetCrcMode(true);
      SetReceiveMode();
    }

    method SetShortRange()
      requires Valid()
      modifies this`mode, radio.regs
      ensures ControlNow() == After(old(ControlNow()), Preset)
      ensures Regs() == Range(old(Regs()), 7, BANDWIDTH_125_KHZ, 0x08, 10, 5, false)
    {
      hide WithModem, ModemOf, WithPower, WithPreamble, SetCrc, SetCodingRate, SetBandwidth, SetSpreadingFactor,
           Receiving;
      radio.SetMode(OPMODE_SLEEP);
      radio.SetSpreading(7);
      radio.SetSignalBandwidth(BANDWIDTH_125_KHZ);
      radio.SetRate(0x08);
      radio.SetTxPower(10, true);
      radio.SetPreambleLength(5);
      radio.SetCrcMode(false);
      SetReceiveMode();
    }

    /** Only the low byte of the length reaches the driver. */
    method SendFrame(data: seq<bv8>) returns (success: bool)
      requires Valid() && |data| < 0x1_0000
      modifies this`mode, radio.regs, radio.fifo
      ensures success == !old(Busy(ControlNow()))
      ensures ControlNow() == After(old(ControlNow()), Send)
      ensures Regs() == if success then Sending(old(Regs()), 0, LowByte(|data|))[REG_DIO_MAPPING_1 := 0x40]
                        else Receiving(old(Regs()))
      ensures success ==> radio.InFifo(0, data[..LowByte(|data|)])
      ensures success && |data| < 256 ==>
        radio.InFifo(0, data) && Regs()[0x22] == ToByte(|data|) && Regs()[0x01] == 0x83 && Regs()[0x40] == 0x40
    {
      hide ToByte, Advanced, LowByte;
      LowByteOf(|data|);
      assert |data| < 256 ==> data[..|data|] == data;
      var status := radio.SendPacket(data[..LowByte(|data|)], 0);
      success := status == LORA_OK;
      if success {
        SetTransmitMode();
      } else {
        SetReceiveMode();
      }
    }

    /** The packet handler's loop around send, without its pauses: the frame is in the packet memory and in
        transmission after at most two calls. */
    method SendUntilAccepted(data: seq<bv8>) returns (ghost calls: nat)
      requires Valid() && |data| < 0x1_0000 && Agrees(ControlNow())
      modifies this`mode, radio.regs, radio.fifo
      ensures calls == if old(Busy(ControlNow())) then 2 else 1
      ensures ControlNow() == Control(Transmit, 0x83, 0x40) && radio.InFifo(0, data[..LowByte(|data|)])
      ensures |data| < 256 ==> radio.InFifo(0, data) && Regs()[0x22] == ToByte(|data|)
    {
      hide Sending, Receiving, LowByte, ToByte;
      var success := false;
      calls := 0;
      while !success
        invariant calls <= 2
        invariant calls == 0 ==> ControlNow() == old(ControlNow()) && !success
        invariant calls == 1 ==> success == !old(Busy(ControlNow()))
        invariant calls == 2 ==> success && old(Busy(ControlNow()))
        invariant calls > 0 ==>
          if success then
            && ControlNow() == Control(Transmit, 0x83, 0x40) && radio.InFifo(0, data[..LowByte(|data|)])
            && (|data| < 256 ==> radio.InFifo(0, data) && Regs()[0x22] == ToByte(|data|))
          else ControlNow() == RECEIVING
        decreases 2 - calls
      {
        success := SendFrame(data);
        calls := calls + 1;
      }
    }

    /** The interrupt routine: a finished transmission gives way to reception; then, since the flag is tested
        again, a packet is fetched.  If none is there yet, as after a transmission, the routine waits for one for
        500 milliseconds, in the k-th of which the chip does during[k]. */
    method HandleInterrupt(buffer: array<bv8>, during: seq<Signal>) returns (len: u8, error: u8)
      requires Valid() && buffer != radio.regs && buffer != radio.fifo && |during| == 500
      requires PendingFits(Regs(), buffer.Length)
      requires ImplicitHeader(Regs()) ==> LengthFits(Regs()[REG_PAYLOAD_LENGTH], buffer.Length)
      requires AllFetchable(during, buffer.Length) && AllFetchable(during, 254)
      modifies this`mode, radio.regs, radio.fifo, buffer
      ensures ControlNow() == After(old(ControlNow()), Interrupt)
      ensures var s := AfterWait(BeforeFetch(old(mode), old(Regs())), during);
              && len <= buffer.Length && error == StatusOf(s[REG_IRQ_FLAGS]) && AnswerOnBits(s[REG_IRQ_FLAGS], error)
              && len == (if error == LORA_OK then FromByte(PendingLength(s)) else 0)
              && radio.InFifo(s[REG_FIFO_RX_CURRENT_ADDR], buffer[..len])
              && Regs() == Fetched(s)
      ensures var s := BeforeFetch(old(mode), old(Regs()));
              if Available(s[REG_IRQ_FLAGS]) || QuietTime(during) == 500 then radio.fifo[..] == old(radio.fifo[..])
              else radio.InFifo(during[QuietTime(during)].start, during[QuietTime(during)].data)
      ensures !Available(BeforeFetch(old(mode), old(Regs()))[REG_IRQ_FLAGS]) && QuietTime(during) < 500 ==>
        error == LORA_OK && !ImplicitHeader(old(Regs())) ==> buffer[..len] == during[QuietTime(during)].data
    {
      hide FromByte, StatusOf, AnswerOnBits, Available, QuietTime, Fetched, AfterWait, Receiving, ImplicitHeader,
           AllFetchable, LengthFits;
      len, error := 0, LORA_EMPTY;
      FetchKeepsControl(BeforeFetch(mode, Regs()), during);
      if mode == Transmit {
        NothingThereYet(Regs());
        ReceivingKeeps(Regs());
        SetReceiveMode();
      }
      if mode == Receive {
        len, error := radio.ReceivePacketBlocking(buffer, during);
      }
    }

    /** The chip's own step when a packet has been sent. */
    method ChipFinishes()
      requires Valid()
      modifies radio.regs
      ensures ControlNow() == After(old(ControlNow()), ChipDone)
    {
      if radio.regs[REG_OP_MODE] == 0x83 {
        radio.regs[REG_OP_MODE] := 0x81;
        radio.regs[REG_IRQ_FLAGS] := radio.regs[REG_IRQ_FLAGS] | IRQ_TX_DONE;
      }
    }
  }
}
