/** The SX1276 driver over the chip's register file: every call reads, modifies and writes registers in place. */
module Sx1276 {
  import opened Bytes
  import opened Modem

  const REG_OP_MODE := 0x01
  const REG_FRF_MSB := 0x06
  const REG_FRF_MID := 0x07
  const REG_FRF_LSB := 0x08
  const REG_PA_CONFIG := 0x09
  const REG_OCP := 0x0b
  const REG_LNA := 0x0c
  const REG_FIFO_ADDR_PTR := 0x0d
  const REG_FIFO_TX_BASE_ADDR := 0x0e
  const REG_FIFO_RX_BASE_ADDR := 0x0f
  const REG_FIFO_RX_CURRENT_ADDR := 0x10
  const REG_IRQ_FLAGS := 0x12
  const REG_RX_NB_BYTES := 0x13
  const REG_MODEM_CONFIG_1 := 0x1d
  const REG_MODEM_CONFIG_2 := 0x1e
  const REG_PREAMBLE_MSB := 0x20
  const REG_PREAMBLE_LSB := 0x21
  const REG_PAYLOAD_LENGTH := 0x22
  const REG_MODEM_CONFIG_3 := 0x26
  const REG_DETECTION_OPTIMIZE := 0x31
  const REG_DETECTION_THRESHOLD := 0x37
  const REG_DIO_MAPPING_1 := 0x40
  const REG_VERSION := 0x42
  const REG_PA_DAC := 0x4d

  const OPMODE_SLEEP: bv8 := 0x00
  const OPMODE_STDBY: bv8 := 0x01
  const OPMODE_TX: bv8 := 0x03
  const OPMODE_RX_CONTINUOUS: bv8 := 0x05
  const OPMODE_LONG_RANGE_MODE: bv8 := 0x80

  const IRQ_RX_TIMEOUT: bv8 := 0x80
  const IRQ_RX_DONE: bv8 := 0x40
  const IRQ_PAYLOAD_CRC_ERROR: bv8 := 0x20
  const IRQ_VALID_HEADER: bv8 := 0x10
  const IRQ_TX_DONE: bv8 := 0x08
  const IRQ_RX_ALL: bv8 := 0xf0

  const LORA_OK: u8 := 0
  const LORA_CRC_ERROR: u8 := 1
  const LORA_TIMEOUT: u8 := 2
  const LORA_INVALID_HEADER: u8 := 3
  const LORA_ERROR: u8 := 4
  const LORA_BUSY: u8 := 5
  const LORA_EMPTY: u8 := 6

  const COMPATIBLE_VERSION: bv8 := 0x12
  const DEFAULT_SF: bv8 := 7

  // ----- the register file as a value -----

  /** Seven address bits; the eighth tells the chip whether to read or to write. */
  type Registers = s: seq<bv8> | |s| == 128 witness seq(128, _ => 0)

  /** Writing a one to an interrupt flag clears it; other registers take the value. */
  function Written(s: Registers, address: nat, value: bv8): Registers
    requires address < 128
  {
    s[address := if address == REG_IRQ_FLAGS then s[address] & !value else value]
  }

  /** A write to the flags leaves no flag set that the value names and all others as they were; a write elsewhere is
      read back. */
  lemma WrittenBits(s: Registers, address: nat, value: bv8)
    requires address < 128
    ensures address == 0x12 ==>
      Written(s, address, value)[0x12] & value == 0 && Written(s, address, value)[0x12] | value == s[0x12] | value
    ensures address != 0x12 ==> Written(s, address, value)[address] == value
    ensures forall a :: 0 <= a < 128 && a != address ==> Written(s, address, value)[a] == s[a]
  {
  }

  function ModemOf(s: Registers): Modem {
    Modem(s[REG_MODEM_CONFIG_1], s[REG_MODEM_CONFIG_2], s[REG_MODEM_CONFIG_3],
          s[REG_DETECTION_OPTIMIZE], s[REG_DETECTION_THRESHOLD])
  }

  function WithModem(s: Registers, m: Modem): Registers {
    s[REG_MODEM_CONFIG_1 := m.config1][REG_MODEM_CONFIG_2 := m.config2][REG_MODEM_CONFIG_3 := m.config3]
     [REG_DETECTION_OPTIMIZE := m.detectionOptimize][REG_DETECTION_THRESHOLD := m.detectionThreshold]
  }

  /** The modem's registers form a field of the register file. */
  lemma ModemField(s: Registers, m: Modem, m': Modem)
    ensures ModemOf(WithModem(s, m)) == m
    ensures WithModem(s, ModemOf(s)) == s
    ensures WithModem(WithModem(s, m), m') == WithModem(s, m')
  {
  }

  predicate IsModemRegister(address: nat) {
    || address == REG_MODEM_CONFIG_1 || address == REG_MODEM_CONFIG_2 || address == REG_MODEM_CONFIG_3
    || address == REG_DETECTION_OPTIMIZE || address == REG_DETECTION_THRESHOLD
  }

  function Assigned(m: Modem, address: nat, value: bv8): Modem
    requires IsModemRegister(address)
  {
    if address == REG_MODEM_CONFIG_1 then m.(config1 := value)
    else if address == REG_MODEM_CONFIG_2 then m.(config2 := value)
    else if address == REG_MODEM_CONFIG_3 then m.(config3 := value)
    else if address == REG_DETECTION_OPTIMIZE then m.(detectionOptimize := value)
    else m.(detectionThreshold := value)
  }

  lemma ModemWritten(s: Registers, address: nat, value: bv8)
    requires IsModemRegister(address)
    ensures Written(s, address, value) == WithModem(s, Assigned(ModemOf(s), address, value))
  {
  }

  // ----- what calls make of the registers -----

  const CRYSTAL := 32_000_000

  /** The frequency in steps of 32 MHz / 2^19, computed in 64 bits. */
  function FrequencyWord(freq: nat): nat {
    freq * 0x8_0000 % 0x1_0000_0000_0000_0000 / CRYSTAL
  }

  /** On the PA_BOOST pin the power is held to 2..20 dBm, of which the amplifier adds 5 in its high-power mode, above
      17 dBm, and 2 otherwise; the current limit goes with the mode.  On the RFO pin it is held to 15 at most. */
  function WithPower(s: Registers, power: u8, boost: bool): Registers {
    if boost then WithBoost(s, power) else s[REG_PA_CONFIG := 0x70 | ToByte(if power > 15 then 15 else power)]
  }

  function WithBoost(s: Registers, power: u8): Registers {
    var p := if power > 20 then 20 else if power < 2 then 2 else power;
    if p > 17 then s[REG_PA_DAC := 0x87][REG_OCP := 0x31][REG_PA_CONFIG := 0x80 | ToByte(p - 5)]
    else s[REG_PA_DAC := 0x84][REG_OCP := 0x2a][REG_PA_CONFIG := 0x80 | ToByte(p - 2)]
  }

  /** The power in dBm that the amplifier registers stand for on the PA_BOOST pin: the output-power field plus 2, or
      plus 5 in the high-power mode. */
  function BoostPower(s: Registers): int {
    FromByte(s[REG_PA_CONFIG] & 0x0f) + if s[REG_PA_DAC] == 0x87 then 5 else 2
  }

  /** They stand for the requested power, held to 2..20 dBm, and the current limit is raised exactly above 17 dBm. */
  lemma BoostPowerSet(s: Registers, power: u8)
    ensures var r := WithPower(s, power, true);
            && BoostPower(r) == (if power > 20 then 20 else if power < 2 then 2 else power)
            && r[REG_PA_CONFIG] & 0xf0 == 0x80 && r[REG_OCP] == if power > 17 then 0x31 else 0x2a
  {
    PowerNibble(if power > 20 then 15 else if power > 17 then power - 5 else if power < 2 then 0 else power - 2);
    hide ToByte, FromByte;
  }

  /** On the RFO pin the output-power field is the requested power, held to 15, and nothing else is written. */
  lemma RfoPowerSet(s: Registers, power: u8)
    ensures var r := WithPower(s, power, false);
            && FromByte(r[0x09] & 0x0f) == (if power > 15 then 15 else power) && r[0x09] & 0xf0 == 0x70
            && forall a :: 0 <= a < 128 && a != 0x09 ==> r[a] == s[a]
  {
    RfoNibble(if power > 15 then 15 else power);
    hide ToByte, FromByte;
  }

  lemma RfoNibble(n: nat)
    requires n < 16
    ensures (0x70 | ToByte(n)) & 0x0f == ToByte(n) && (0x70 | ToByte(n)) & 0xf0 == 0x70
    ensures FromByte(ToByte(n)) == n
  {
    FromToByte(n);
  }

  lemma PowerNibble(n: nat)
    requires n < 16
    ensures (0x80 | ToByte(n)) & 0x0f == ToByte(n) && (0x80 | ToByte(n)) & 0xf0 == 0x80
    ensures FromByte(ToByte(n)) == n
  {
    FromToByte(n);
  }

  /** Only the low four bits of the second byte are written. */
  function WithPreamble(s: Registers, len: nat): Registers
    requires len < 0x1_0000
  {
    s[REG_PREAMBLE_MSB := ToByte(len / 256)][REG_PREAMBLE_LSB := ToByte(len % 16)]
  }

  function PreambleOf(s: Registers): nat {
    256 * FromByte(s[REG_PREAMBLE_MSB]) + FromByte(s[REG_PREAMBLE_LSB])
  }

  /** What the registers hold of a length: bits 4 to 7 are lost. */
  lemma PreambleSet(s: Registers, len: nat)
    requires len < 0x1_0000
    ensures PreambleOf(WithPreamble(s, len)) == len - len % 256 + len % 16
  {
    FromToByte(len / 256);
    FromToByte(len % 16);
    hide ToByte, FromByte;
  }

  /** So the registers hold the length exactly if its low byte fits four bits. */
  lemma PreambleExactly(s: Registers, len: nat)
    requires len < 0x1_0000
    ensures PreambleOf(WithPreamble(s, len)) == len <==> len % 256 < 16
  {
    FromToByte(len / 256);
    FromToByte(len % 16);
    hide ToByte, FromByte;
    assert len == 256 * (len / 256) + len % 256;
    LowNibble(len);
  }

  lemma LowNibble(n: nat)
    ensures n % 16 == n % 256 <==> n % 256 < 16
  {
    assert n == 256 * (n / 256) + n % 256;
    assert n % 16 == n % 256 % 16;
  }

  /** Three registers together hold the frequency word. */
  function WithFrequency(s: Registers, freq: nat): Registers {
    var frf := FrequencyWord(freq);
    s[REG_FRF_MSB := ToByte(frf / 0x1_0000 % 256)][REG_FRF_MID := ToByte(frf / 256 % 256)]
     [REG_FRF_LSB := ToByte(frf % 256)]
  }

  function FrequencyOf(s: Registers): nat {
    65536 * FromByte(s[REG_FRF_MSB]) + 256 * FromByte(s[REG_FRF_MID]) + FromByte(s[REG_FRF_LSB])
  }

  /** The program's 868 MHz in register values. */
  lemma FrequencyExample(s: Registers)
    ensures var r := WithFrequency(s, 868_000_000); r[0x06] == 0xd9 && r[0x07] == 0x00 && r[0x08] == 0x00
  {
    assert FrequencyWord(868_000_000) == 0xd9_0000;
    hide FrequencyWord;
  }

  /** Continuous reception, with the receive base address set and pending receive flags cleared. */
  function Listening(s: Registers, rxBaseAddr: bv8): Registers {
    s[REG_FIFO_RX_BASE_ADDR := rxBaseAddr][REG_IRQ_FLAGS := s[REG_IRQ_FLAGS] & !IRQ_RX_ALL][REG_OP_MODE := 0x85]
  }

  /** A packet of the given length is being sent from the packet memory's transmit base address. */
  function Sending(s: Registers, txBaseAddr: bv8, length: u8): Registers {
    s[REG_IRQ_FLAGS := s[REG_IRQ_FLAGS] & !IRQ_TX_DONE][REG_FIFO_TX_BASE_ADDR := txBaseAddr]
     [REG_PAYLOAD_LENGTH := ToByte(length)][REG_FIFO_ADDR_PTR := Advanced(txBaseAddr, length)][REG_OP_MODE := 0x83]
  }

  /** The pointer into the packet memory after a transfer of some bytes. */
  function Advanced(start: bv8, length: nat): bv8 {
    ToByte((FromByte(start) + length) % 256)
  }

  /** Reception and transmission in register values. */
  lemma ListeningFields(s: Registers, rxBaseAddr: bv8)
    ensures var r := Listening(s, rxBaseAddr);
            && r[0x01] == 0x85 && r[0x0f] == rxBaseAddr && r[0x12] == s[0x12] & 0x0f
            && forall a :: 0 <= a < 128 && a != 0x01 && a != 0x0f && a != 0x12 ==> r[a] == s[a]
  {
  }

  lemma SendingFields(s: Registers, txBaseAddr: bv8, length: u8)
    ensures var r := Sending(s, txBaseAddr, length);
            && r[0x01] == 0x83 && r[0x0e] == txBaseAddr && r[0x12] == s[0x12] & 0xf7
            && FromByte(r[0x0d]) == (FromByte(txBaseAddr) + length) % 256 && FromByte(r[0x22]) == length
            && forall a :: 0 <= a < 128 && a != 0x01 && a != 0x0d && a != 0x0e && a != 0x12 && a != 0x22 ==>
                 r[a] == s[a]
  {
    AdvancedValue(txBaseAddr, length);
    FromToByte(length);
    hide ToByte, FromByte, Advanced;
  }

  /** What start-up makes of the registers. */
  function StartUp(s: Registers, freq: nat): Registers {
    var tuned := WithFrequency(s[REG_OP_MODE := 0x80], freq);
    var spread := WithPreamble(WithModem(tuned, SetSpreadingFactor(ModemOf(tuned), DEFAULT_SF)), 10);
    var headed := WithModem(spread, SetHeaderMode(ModemOf(spread), false));
    WithPower(headed[REG_LNA := headed[REG_LNA] | 0x03][REG_MODEM_CONFIG_3 := AGC_AUTO], 17, true)[REG_OP_MODE := 0x81]
  }

  // ----- what the flags say -----

  /** How the flags are answered, in the order the driver tests them. */
  function StatusOf(flags: bv8): u8 {
    if flags & IRQ_RX_TIMEOUT != 0 then LORA_TIMEOUT
    else if flags & IRQ_RX_DONE == 0 then LORA_EMPTY
    else if flags & IRQ_VALID_HEADER == 0 then LORA_INVALID_HEADER
    else if flags & IRQ_PAYLOAD_CRC_ERROR != 0 then LORA_CRC_ERROR
    else LORA_OK
  }

  /** The answer bit by bit: timeout is bit 7, done bit 6, checksum error bit 5, valid header bit 4. */
  predicate AnswerOnBits(flags: bv8, error: u8) {
    && (error == LORA_OK <==> flags & 0xf0 == 0x50)
    && (error == LORA_CRC_ERROR <==> flags & 0xf0 == 0x70)
    && (error == LORA_INVALID_HEADER <==> flags & 0xd0 == 0x40)
    && (error == LORA_TIMEOUT <==> flags & 0x80 != 0)
    && (error == LORA_EMPTY <==> flags & 0xc0 == 0)
  }

  /** A packet is good exactly if the chip reports it done, with a valid header, no checksum error and no timeout. */
  lemma StatusOnBits(flags: bv8)
    ensures AnswerOnBits(flags, StatusOf(flags))
  {
  }

  /** What the flags say about a packet waiting to be fetched. */
  predicate Available(flags: bv8) {
    flags & (IRQ_RX_DONE | IRQ_RX_TIMEOUT) != 0
  }

  predicate ImplicitHeader(s: Registers) {
    s[REG_MODEM_CONFIG_1] & 0x01 != 0
  }

  /** The length of a received packet: fixed in implicit header mode, reported by the chip otherwise. */
  function PendingLength(s: Registers): bv8 {
    if ImplicitHeader(s) then s[REG_PAYLOAD_LENGTH] else s[REG_RX_NB_BYTES]
  }

  /** A packet of this length can be fetched into a buffer of the given size, which the driver does not look at: the
      transfer of the packet and one address byte counts its length in one byte. */
  predicate LengthFits(length: bv8, capacity: nat) {
    FromByte(length) < 255 && FromByte(length) <= capacity
  }

  /** So can whatever the flags announce as good. */
  predicate PendingFits(s: Registers, capacity: nat) {
    StatusOf(s[REG_IRQ_FLAGS]) == LORA_OK ==> LengthFits(PendingLength(s), capacity)
  }

  /** After a fetch the receive flags are cleared; if a packet was read the pointer stands behind it. */
  function Fetched(s: Registers): Registers {
    var cleared := s[REG_IRQ_FLAGS := s[REG_IRQ_FLAGS] & !IRQ_RX_ALL];
    if StatusOf(s[REG_IRQ_FLAGS]) != LORA_OK then cleared
    else cleared[REG_FIFO_ADDR_PTR := Advanced(s[REG_FIFO_RX_CURRENT_ADDR], FromByte(PendingLength(s)))]
  }

  /** A fetch clears the four receive flags and no other; the pointer moves only for a good packet, whose length is that
      of the payload-length register in implicit header mode and that of the received-bytes register otherwise. */
  lemma FetchedFields(s: Registers)
    ensures Fetched(s)[0x12] == s[0x12] & 0x0f
    ensures s[0x12] & 0xf0 != 0x50 ==> Fetched(s)[0x0d] == s[0x0d]
    ensures s[0x12] & 0xf0 == 0x50 ==>
      FromByte(Fetched(s)[0x0d]) == (FromByte(s[0x10]) + FromByte(s[if s[0x1d] & 1 != 0 then 0x22 else 0x13])) % 256
    ensures forall a :: 0 <= a < 128 && a != 0x12 && a != 0x0d ==> Fetched(s)[a] == s[a]
  {
    hide StatusOf, AnswerOnBits, FromByte, Advanced, PendingLength, ImplicitHeader;
    StatusOnBits(s[0x12]);
    OnlyGoodIsOk(s[0x12], StatusOf(s[0x12]));
    PendingLengthOf(s);
    AdvancedValue(s[0x10], FromByte(PendingLength(s)));
    ReceiveFlags(s[0x12]);
  }

  lemma OnlyGoodIsOk(flags: bv8, error: u8)
    requires AnswerOnBits(flags, error)
    ensures error == LORA_OK <==> flags & 0xf0 == 0x50
  {
  }

  lemma ReceiveFlags(flags: bv8)
    ensures flags & !IRQ_RX_ALL == flags & 0x0f
  {
  }

  lemma PendingLengthOf(s: Registers)
    ensures PendingLength(s) == s[if s[0x1d] & 1 != 0 then 0x22 else 0x13]
  {
  }

  lemma AdvancedValue(start: bv8, length: nat)
    ensures FromByte(Advanced(start, length)) == (FromByte(start) + length) % 256
  {
    FromToByte((FromByte(start) + length) % 256);
  }

  /** What the chip does in one millisecond of waiting: nothing, or it finishes the reception of a packet, puts it
      into the packet memory from `start` on and raises flags. */
  datatype Signal = Quiet | Reception(flags: bv8, start: bv8, data: seq<bv8>)

  /** A finished reception raises its flag, and its packet can be fetched. */
  predicate Fetchable(s: Signal, capacity: nat) {
    s.Reception? ==> s.flags & IRQ_RX_DONE != 0 && |s.data| < 255 && |s.data| <= capacity
  }

  predicate AllFetchable(signals: seq<Signal>, capacity: nat) {
    forall k :: 0 <= k < |signals| ==> Fetchable(signals[k], capacity)
  }

  /** The number of quiet signals before the first reception. */
  function QuietTime(signals: seq<Signal>): (k: nat)
    ensures k <= |signals|
    ensures forall i :: 0 <= i < k ==> signals[i].Quiet?
    ensures k < |signals| ==> signals[k].Reception?
  {
    if |signals| == 0 || signals[0].Reception? then 0 else 1 + QuietTime(signals[1..])
  }

  function WithReception(s: Registers, signal: Signal): Registers
    requires signal.Reception? && |signal.data| < 256
  {
    s[REG_IRQ_FLAGS := s[REG_IRQ_FLAGS] | signal.flags][REG_RX_NB_BYTES := ToByte(|signal.data|)]
     [REG_FIFO_RX_CURRENT_ADDR := signal.start]
  }

  /** What the fetch after the wait finds: a packet that was there already or the first reception, if any. */
  function AfterWait(s: Registers, during: seq<Signal>): Registers
    requires AllFetchable(during, 254)
  {
    if Available(s[REG_IRQ_FLAGS]) || QuietTime(during) == |during| then s
    else WithReception(s, during[QuietTime(during)])
  }

  // ----- the driver -----

  lemma PlacesDiffer(start: nat, i: nat)
    requires i < 256
    ensures forall k {:trigger (start + k) % 256} :: 0 <= k < i ==> (start + k) % 256 != (start + i) % 256
  {
  }

  lemma SendingSteps(s: Registers, txBaseAddr: bv8, length: u8)
    ensures Sending(s, txBaseAddr, length) ==
            s[REG_OP_MODE := 0x81][REG_IRQ_FLAGS := s[REG_IRQ_FLAGS] & !IRQ_TX_DONE][REG_FIFO_ADDR_PTR := txBaseAddr]
             [REG_FIFO_TX_BASE_ADDR := txBaseAddr][REG_PAYLOAD_LENGTH := ToByte(length)]
             [REG_FIFO_ADDR_PTR := Advanced(txBaseAddr, length)][REG_OP_MODE := 0x83]
  {
    hide ToByte, Advanced;
  }

  lemma FlagRaised(flags: bv8, raised: bv8)
    requires raised & IRQ_RX_DONE != 0
    ensures Available(flags | raised)
  {
  }

  lemma ReceptionAvailable(s: Registers, signal: Signal)
    requires signal.Reception? && Fetchable(signal, 254)
    ensures Available(WithReception(s, signal)[REG_IRQ_FLAGS])
  {
    FlagRaised(s[REG_IRQ_FLAGS], signal.flags);
  }

  lemma NotAvailable(flags: bv8)
    requires !Available(flags)
    ensures StatusOf(flags) == LORA_EMPTY
  {
  }

  class Radio {
    const regs: array<bv8>
    /** The chip's packet memory. */
    const fifo: array<bv8>

    ghost predicate Valid() {
      regs.Length == 128 && fifo.Length == 256 && regs != fifo
    }

    constructor ()
      ensures Valid() && fresh(regs) && fresh(fifo)
    {
      regs := new bv8[128];
      fifo := new bv8[256];
    }

    ghost function State(): Registers
      requires Valid()
      reads regs
    {
      regs[..]
    }

    method WriteRegister(address: nat, value: bv8)
      requires Valid() && address < 128
      modifies regs
      ensures State() == Written(old(State()), address, value)
    {
      regs[address] := if address == REG_IRQ_FLAGS then regs[address] & !value else value;
    }

    method ReadRegister(address: nat) returns (value: bv8)
      requires Valid() && address < 128
      ensures value == State()[address]
    {
      value := regs[address];
    }

    // ----- configuration -----

    /** A write to one of the modem's registers. */
    method WriteModem(address: nat, value: bv8)
      requires Valid() && address < 128 && IsModemRegister(address)
      modifies regs
      ensures State() == WithModem(old(State()), Assigned(ModemOf(old(State())), address, value))
    {
      ModemWritten(State(), address, value);
      WriteRegister(address, value);
    }

    method SetLowDataRateOptimization()
      requires Valid()
      modifies regs
      ensures State() == WithModem(old(State()), WithLowDataRate(ModemOf(old(State()))))
    {
      hide State, WithModem;
      var mc1 := ReadRegister(REG_MODEM_CONFIG_1);
      var mc2 := ReadRegister(REG_MODEM_CONFIG_2);
      var bandwidth, sf := mc1 >> 4, mc2 >> 4;
      var mc3 := AGC_AUTO;
      if sf >= 11 && bandwidth == BANDWIDTH_125_KHZ {
        mc3 := mc3 | MOBILE_NODE;
      }
      WriteModem(REG_MODEM_CONFIG_3, mc3);
    }

    method SetSignalBandwidth(bw: bv8)
      requires Valid()
      modifies regs
      ensures State() == WithModem(old(State()), SetBandwidth(ModemOf(old(State())), bw))
    {
      hide State, WithModem, WithLowDataRate;
      var mc1 := ReadRegister(REG_MODEM_CONFIG_1);
      mc1 := (mc1 & 0x0F) | (bw << 4);
      ghost var s, m := State(), ModemOf(State()).(config1 := mc1);
      WriteModem(REG_MODEM_CONFIG_1, mc1);
      SetLowDataRateOptimization();
      ModemField(s, m, WithLowDataRate(m));
    }

    /** The registers that have to fit the spreading factor. */
    method SetDetection(six: bool)
      requires Valid()
      modifies regs
      ensures State() == WithModem(old(State()),
                ModemOf(old(State())).(detectionOptimize := if six then 0xc5 else 0xc3,
                                       detectionThreshold := if six then 0x0c else 0x0a))
    {
      hide State, WithModem, ModemOf;
      ghost var s, m := State(), ModemOf(State());
      if six {
        WriteModem(REG_DETECTION_OPTIMIZE, 0xc5);
        ModemField(s, m.(detectionOptimize := 0xc5), m.(detectionOptimize := 0xc5, detectionThreshold := 0x0c));
        WriteModem(REG_DETECTION_THRESHOLD, 0x0c);
      } else {
        WriteModem(REG_DETECTION_OPTIMIZE, 0xc3);
        ModemField(s, m.(detectionOptimize := 0xc3), m.(detectionOptimize := 0xc3, detectionThreshold := 0x0a));
        WriteModem(REG_DETECTION_THRESHOLD, 0x0a);
      }
    }

    method SetSpreading(sf: bv8)
      requires Valid()
      modifies regs
      ensures State() == WithModem(old(State()), SetSpreadingFactor(ModemOf(old(State())), sf))
    {
      hide State, WithModem, WithLowDataRate;
      var s := sf;
      if s < 6 {
        s := 6;
      } else if s > 12 {
        s := 12;
      }
      ghost var start, m := State(), ModemOf(State());
      SetDetection(s == 6);
      ghost var d := m.(detectionOptimize := if s == 6 then 0xc5 else 0xc3,
                       detectionThreshold := if s == 6 then 0x0c else 0x0a);
      var mc2 := ReadRegister(REG_MODEM_CONFIG_2);
      mc2 := (mc2 & 0x0F) | (s << 4);
      ghost var e := d.(config2 := mc2);
      ModemField(start, d, e);
      WriteModem(REG_MODEM_CONFIG_2, mc2);
      SetLowDataRateOptimization();
      ModemField(start, e, WithLowDataRate(e));
    }

    method SetCrcMode(enable: bool)
      requires Valid()
      modifies regs
      ensures State() == WithModem(old(State()), SetCrc(ModemOf(old(State())), enable))
    {
      hide State, WithModem;
      var mc2 := ReadRegister(REG_MODEM_CONFIG_2);
      if enable {
        mc2 := mc2 | 0x04;
      } else {
        mc2 := mc2 & 0xFB;
      }
      WriteModem(REG_MODEM_CONFIG_2, mc2);
    }

    method SetImplicitHeader(implicit: bool)
      requires Valid()
      modifies regs
      ensures State() == WithModem(old(State()), SetHeaderMode(ModemOf(old(State())), implicit))
    {
      hide State, WithModem;
      var mc1 := ReadRegister(REG_MODEM_CONFIG_1);
      if implicit {
        mc1 := mc1 | 0x01;
      } else {
        mc1 := mc1 & 0xFE;
      }
      WriteModem(REG_MODEM_CONFIG_1, mc1);
    }

    method SetRate(rate: bv8)
      requires Valid()
      modifies regs
      ensures State() == WithModem(old(State()), SetCodingRate(ModemOf(old(State())), rate))
    {
      hide State, WithModem;
      var mc1 := ReadRegister(REG_MODEM_CONFIG_1);
      mc1 := mc1 | (rate << 1);
      WriteModem(REG_MODEM_CONFIG_1, mc1);
    }

    // ----- modes -----

    method SetMode(mode: bv8)
      requires Valid()
      modifies regs
      ensures State() == old(State())[REG_OP_MODE := OPMODE_LONG_RANGE_MODE | mode]
    {
      hide State;
      WriteRegister(REG_OP_MODE, OPMODE_LONG_RANGE_MODE | mode);
    }

    method ModeReceiveContinuous(rxBaseAddr: bv8)
      requires Valid()
      modifies regs
      ensures State() == Listening(old(State()), rxBaseAddr)
    {
      hide State;
      WriteRegister(REG_FIFO_RX_BASE_ADDR, rxBaseAddr);
      WriteRegister(REG_IRQ_FLAGS, IRQ_RX_ALL);
      SetMode(OPMODE_RX_CONTINUOUS);
    }

    method EnableInterrupt(mapping: bv8)
      requires Valid()
      modifies regs
      ensures State() == old(State())[REG_DIO_MAPPING_1 := mapping]
    {
      hide State;
      WriteRegister(REG_DIO_MAPPING_1, mapping);
    }

    // ----- packets -----

    /** The packet memory holds the bytes from a place on, wrapping around at its end. */
    ghost predicate InFifo(start: bv8, data: seq<bv8>)
      requires Valid()
      reads fifo
    {
      forall i :: 0 <= i < |data| ==> fifo[(FromByte(start) + i) % 256] == data[i]
    }

    method PutInFifo(start: bv8, data: seq<bv8>)
      requires Valid() && |data| < 256
      modifies fifo
      ensures InFifo(start, data)
    {
      hide FromByte;
      var first := FromByte(start);
      for i := 0 to |data|
        invariant forall k :: 0 <= k < i ==> fifo[(first + k) % 256] == data[k]
      {
        PlacesDiffer(first, i);
        fifo[(first + i) % 256] := data[i];
      }
    }

    /** One transfer into the packet memory, at the pointer, which the chip advances and wraps. */
    method WriteFifo(data: seq<bv8>)
      requires Valid() && |data| < 256
      modifies fifo, regs
      ensures InFifo(old(State())[REG_FIFO_ADDR_PTR], data)
      ensures State() == old(State())[REG_FIFO_ADDR_PTR := Advanced(old(State())[REG_FIFO_ADDR_PTR], |data|)]
    {
      hide State, InFifo, Advanced;
      var start := ReadRegister(REG_FIFO_ADDR_PTR);
      PutInFifo(start, data);
      WriteRegister(REG_FIFO_ADDR_PTR, Advanced(start, |data|));
    }

    /** Puts the packet into the packet memory at the transmit base address and starts sending, unless the chip
        is still sending another one. */
    method SendPacket(data: seq<bv8>, txBaseAddr: bv8) returns (status: u8)
      requires Valid() && |data| < 256
      modifies regs, fifo
      ensures status == if old(State())[REG_OP_MODE] & OPMODE_TX == OPMODE_TX then LORA_BUSY else LORA_OK
      ensures status == LORA_BUSY ==> State() == old(State()) && fifo[..] == old(fifo[..])
      ensures status == LORA_OK ==> State() == Sending(old(State()), txBaseAddr, |data|) && InFifo(txBaseAddr, data)
    {
      hide State, InFifo, Advanced, ToByte;
      var opMode := ReadRegister(REG_OP_MODE);
      if opMode & OPMODE_TX == OPMODE_TX {
        return LORA_BUSY;
      }
      ghost var s := State();
      SetMode(OPMODE_STDBY);
      WriteRegister(REG_IRQ_FLAGS, IRQ_TX_DONE);
      WriteRegister(REG_FIFO_ADDR_PTR, txBaseAddr);
      WriteRegister(REG_FIFO_TX_BASE_ADDR, txBaseAddr);
      WriteRegister(REG_PAYLOAD_LENGTH, ToByte(|data|));
      WriteFifo(data);
      SetMode(OPMODE_TX);
      SendingSteps(s, txBaseAddr, |data|);
      status := LORA_OK;
    }

    method PendingPacketLength() returns (len: u8)
      requires Valid()
      ensures len == FromByte(PendingLength(State()))
    {
      hide State, FromByte;
      var mc1 := ReadRegister(REG_MODEM_CONFIG_1);
      var length := ReadRegister(if mc1 & 0x01 != 0 then REG_PAYLOAD_LENGTH else REG_RX_NB_BYTES);
      len := FromByte(length);
    }

    /** Fetches a received packet. */
    method ReceivePacket(buffer: array<bv8>) returns (len: u8, error: u8)
      requires Valid() && buffer != regs && buffer != fifo && PendingFits(State(), buffer.Length)
      modifies regs, buffer
      ensures len <= buffer.Length && error == StatusOf(old(State())[REG_IRQ_FLAGS])
      ensures len == if error == LORA_OK then FromByte(PendingLength(old(State()))) else 0
      ensures InFifo(old(State())[REG_FIFO_RX_CURRENT_ADDR], buffer[..len])
      ensures forall i :: len <= i < buffer.Length ==> buffer[i] == old(buffer[i])
      ensures State() == Fetched(old(State()))
      ensures AnswerOnBits(old(State())[REG_IRQ_FLAGS], error)
      ensures State()[REG_IRQ_FLAGS] == old(State())[REG_IRQ_FLAGS] & 0x0f
    {
      hide State, FromByte, Advanced, AnswerOnBits, Available;
      StatusOnBits(State()[REG_IRQ_FLAGS]);
      FetchedFields(State());
      error, len := LORA_EMPTY, 0;
      var state := ReadRegister(REG_IRQ_FLAGS);
      WriteRegister(REG_IRQ_FLAGS, IRQ_RX_ALL);
      if state & IRQ_RX_TIMEOUT != 0 {
        return 0, LORA_TIMEOUT;
      }
      if state & IRQ_RX_DONE != 0 {
        if state & IRQ_VALID_HEADER == 0 {
          return 0, LORA_INVALID_HEADER;
        }
        if state & IRQ_PAYLOAD_CRC_ERROR != 0 {
          return 0, LORA_CRC_ERROR;
        }
        len := PendingPacketLength();
        var offset := ReadRegister(REG_FIFO_RX_CURRENT_ADDR);
        WriteRegister(REG_FIFO_ADDR_PTR, offset);
        ReadFifo(buffer, len);
        error := LORA_OK;
      }
    }

    /** One transfer out of the packet memory, from the pointer, which the chip advances and wraps. */
    method ReadFifo(buffer: array<bv8>, len: u8)
      requires Valid() && buffer != regs && buffer != fifo && len <= buffer.Length && len < 255
      modifies regs, buffer
      ensures InFifo(old(State())[REG_FIFO_ADDR_PTR], buffer[..len])
      ensures forall i :: len <= i < buffer.Length ==> buffer[i] == old(buffer[i])
      ensures State() == old(State())[REG_FIFO_ADDR_PTR := Advanced(old(State())[REG_FIFO_ADDR_PTR], len)]
    {
      hide State, FromByte, Advanced;
      var start := ReadRegister(REG_FIFO_ADDR_PTR);
      for i := 0 to len
        invariant State() == old(State())
        invariant forall k :: 0 <= k < i ==> buffer[k] == fifo[(FromByte(start) + k) % 256]
        invariant forall k :: i <= k < buffer.Length ==> buffer[k] == old(buffer[k])
      {
        buffer[i] := fifo[(FromByte(start) + i) % 256];
      }
      WriteRegister(REG_FIFO_ADDR_PTR, Advanced(start, len));
    }

    /** The chip's own step in a millisecond of waiting. */
    method ChipReceives(s: Signal)
      requires Valid() && (s.Reception? ==> |s.data| < 256)
      modifies regs, fifo
      ensures s.Quiet? ==> State() == old(State()) && fifo[..] == old(fifo[..])
      ensures s.Reception? ==> InFifo(s.start, s.data) && State() == WithReception(old(State()), s)
    {
      hide ToByte, InFifo;
      if s.Reception? {
        regs[REG_IRQ_FLAGS] := regs[REG_IRQ_FLAGS] | s.flags;
        regs[REG_RX_NB_BYTES] := ToByte(|s.data|);
        regs[REG_FIFO_RX_CURRENT_ADDR] := s.start;
        PutInFifo(s.start, s.data);
      }
    }

    /** Looks at the flags once a millisecond until they say that there is a packet, as long as `during`, of which
        the chip does during[k] in the k-th millisecond. */
    method AwaitPacket(during: seq<Signal>)
      requires Valid() && AllFetchable(during, 254)
      modifies regs, fifo
      ensures State() == AfterWait(old(State()), during)
      ensures if Available(old(State())[REG_IRQ_FLAGS]) || QuietTime(during) == |during| then fifo[..] == old(fifo[..])
              else InFifo(during[QuietTime(during)].start, during[QuietTime(during)].data)
    {
      hide State, InFifo, Available, WithReception, QuietTime;
      ghost var s, k := State(), QuietTime(during);
      var elapsed := 0;
      while elapsed < |during|
        invariant elapsed <= |during|
        invariant elapsed > 0 ==> !Available(s[REG_IRQ_FLAGS])
        invariant elapsed <= k ==> State() == s && fifo[..] == old(fifo[..])
        invariant elapsed > k ==>
          && State() == WithReception(s, during[k]) && Available(State()[REG_IRQ_FLAGS])
          && InFifo(during[k].start, during[k].data)
      {
        var flags := ReadRegister(REG_IRQ_FLAGS);
        if Available(flags) {
          break;
        }
        assert Fetchable(during[elapsed], 254);
        if elapsed == k {
          ReceptionAvailable(s, during[k]);
        }
        ChipReceives(during[elapsed]);
        elapsed := elapsed + 1;
      }
    }

    /** Waits for a packet and fetches what there is then.  A packet that is there already is fetched at once;
        otherwise the first reception ends the wait; without one there is nothing to fetch. */
    method ReceivePacketBlocking(buffer: array<bv8>, during: seq<Signal>) returns (len: u8, error: u8)
      requires Valid() && buffer != regs && buffer != fifo && PendingFits(State(), buffer.Length)
      requires ImplicitHeader(State()) ==> LengthFits(State()[REG_PAYLOAD_LENGTH], buffer.Length)
      requires AllFetchable(during, buffer.Length) && AllFetchable(during, 254)
      modifies regs, fifo, buffer
      ensures var s := AfterWait(old(State()), during);
              && len <= buffer.Length && error == StatusOf(s[REG_IRQ_FLAGS]) && AnswerOnBits(s[REG_IRQ_FLAGS], error)
              && len == (if error == LORA_OK then FromByte(PendingLength(s)) else 0)
              && InFifo(s[REG_FIFO_RX_CURRENT_ADDR], buffer[..len])
              && State() == Fetched(s)
      ensures if Available(old(State())[REG_IRQ_FLAGS]) || QuietTime(during) == |during| then fifo[..] == old(fifo[..])
              else InFifo(during[QuietTime(during)].start, during[QuietTime(during)].data)
      ensures !Available(old(State())[REG_IRQ_FLAGS]) && QuietTime(during) < |during| ==>
        error == LORA_OK && !ImplicitHeader(old(State())) ==> buffer[..len] == during[QuietTime(during)].data
    {
      hide FromByte, ToByte, StatusOf, AnswerOnBits, Available, QuietTime, State, Advanced, InFifo;
      ghost var s, k := State(), QuietTime(during);
      AwaitPacket(during);
      if !Available(s[REG_IRQ_FLAGS]) && k < |during| {
        assert Fetchable(during[k], buffer.Length);
        FromToByte(|during[k].data|);
      }
      len, error := ReceivePacket(buffer);
      if !Available(s[REG_IRQ_FLAGS]) && k < |during| && error == LORA_OK && !ImplicitHeader(s) {
        SameBytes(during[k].start, buffer[..len], during[k].data);
      }
    }

    /** What the packet memory holds from a place on is determined by its length. */
    lemma SameBytes(start: bv8, a: seq<bv8>, b: seq<bv8>)
      requires Valid() && InFifo(start, a) && InFifo(start, b) && |a| == |b|
      ensures a == b
    {
      assert forall i :: 0 <= i < |a| ==> a[i] == fifo[(FromByte(start) + i) % 256] == b[i];
    }

    // ----- power, frequency, preamble, start-up -----

    /** The output pin is that of the driver's pa_mode; lora_init selects PA_BOOST. */
    method SetTxPower(power: u8, boost: bool)
      requires Valid()
      modifies regs
      ensures State() == WithPower(old(State()), power, boost)
    {
      hide ToByte, State;
      if !boost {
        WriteRegister(REG_PA_CONFIG, 0x70 | ToByte(if power > 15 then 15 else power));
        return;
      }
      var level := if power > 20 then 20 else if power < 2 then 2 else power;
      if level > 17 {
        level := level - 3;
        WriteRegister(REG_PA_DAC, 0x87);
        WriteRegister(REG_OCP, 0x20 | 17);
      } else {
        WriteRegister(REG_PA_DAC, 0x84);
        WriteRegister(REG_OCP, 0x20 | 10);
      }
      level := level - 2;
      WriteRegister(REG_PA_CONFIG, 0x80 | ToByte(level));
    }

    method SetPreambleLength(len: nat)
      requires Valid() && len < 0x1_0000
      modifies regs
      ensures State() == WithPreamble(old(State()), len)
    {
      hide ToByte, State;
      WriteRegister(REG_PREAMBLE_MSB, ToByte(len / 256));
      WriteRegister(REG_PREAMBLE_LSB, ToByte(len % 16));
    }

    method SetFrequency(freq: nat)
      requires Valid()
      modifies regs
      ensures State() == WithFrequency(old(State()), freq)
    {
      hide ToByte, FrequencyWord, State;
      var frf := FrequencyWord(freq);
      WriteRegister(REG_FRF_MSB, ToByte(frf / 0x1_0000 % 256));
      WriteRegister(REG_FRF_MID, ToByte(frf / 256 % 256));
      WriteRegister(REG_FRF_LSB, ToByte(frf % 256));
    }

    /** Start-up: nothing is written to a chip of another version. */
    method LoraInit(freq: nat) returns (status: u8)
      requires Valid()
      modifies regs
      ensures status == if old(State())[REG_VERSION] == COMPATIBLE_VERSION then LORA_OK else LORA_ERROR
      ensures State() == if status == LORA_OK then StartUp(old(State()), freq) else old(State())
    {
      hide State, SetSpreadingFactor, SetHeaderMode, WithModem, ModemOf, WithPower, WithPreamble, WithFrequency;
      var ver := ReadRegister(REG_VERSION);
      if ver != COMPATIBLE_VERSION {
        return LORA_ERROR;
      }
      ghost var s := State();
      SetMode(OPMODE_SLEEP);
      SetMode(OPMODE_SLEEP);
      assert State() == s[REG_OP_MODE := 0x80];
      SetFrequency(freq);
      SetSpreading(DEFAULT_SF);
      SetPreambleLength(10);
      SetImplicitHeader(false);
      var currentLna := ReadRegister(REG_LNA);
      WriteRegister(REG_LNA, currentLna | 0x03);
      WriteRegister(REG_MODEM_CONFIG_3, AGC_AUTO);
      SetTxPower(17, true);
      SetMode(OPMODE_STDBY);
      status := LORA_OK;
    }
  }

  /** Start-up leaves the chip in standby at the given frequency and spreading factor 7, with explicit headers, at
      17 dBm and with derived registers that fit, whatever it held before; it keeps the interrupt mapping and the
      other modem fields. */
  lemma StartUpFields(s: Registers, freq: nat)
    ensures var r := StartUp(s, freq);
            && r[REG_OP_MODE] == 0x81 && r[REG_DIO_MAPPING_1] == s[REG_DIO_MAPPING_1]
            && Consistent(ModemOf(r))
            && Decode(ModemOf(r)) == Decode(ModemOf(s)).(spreadingFactor := DEFAULT_SF, implicitHeader := false)
            && FrequencyOf(r) == FrequencyWord(freq) % 0x100_0000
            && r[REG_PA_DAC] == 0x84 && r[REG_OCP] == 0x2a && r[REG_PA_CONFIG] == 0x80 | ToByte(15)
            && r[REG_PREAMBLE_MSB] == ToByte(0) && r[REG_PREAMBLE_LSB] == ToByte(10)
            && r[REG_LNA] == s[REG_LNA] | 0x03
  {
    hide ToByte, FromByte, FrequencyWord, Decode, Consistent, SetSpreadingFactor, SetHeaderMode;
    FrequencyProgrammed(s[REG_OP_MODE := 0x80], freq);
    StartUpModem(ModemOf(s));
    StartUpModemOf(s, freq);
  }

  /** Every register after start-up at the program's frequency. */
  lemma StartUpRegisters(s: Registers)
    ensures var r := StartUp(s, 868_000_000);
            && r[0x01] == 0x81 && r[0x06] == 0xd9 && r[0x07] == 0x00 && r[0x08] == 0x00
            && r[0x09] == 0x8f && r[0x0b] == 0x2a && r[0x0c] == s[0x0c] | 0x03
            && r[0x1d] == s[0x1d] & 0xfe && r[0x1e] == 0x70 | (s[0x1e] & 0x0f)
            && r[0x20] == 0x00 && r[0x21] == 0x0a && r[0x26] == 0x04 && r[0x31] == 0xc3 && r[0x37] == 0x0a
            && r[0x4d] == 0x84
            && forall a :: 0 <= a < 128 && a !in StartUpAddresses() ==> r[a] == s[a]
  {
    FrequencyExample(s[REG_OP_MODE := 0x80]);
    hide FrequencyWord;
  }

  function StartUpAddresses(): set<int> {
    {0x01, 0x06, 0x07, 0x08, 0x09, 0x0b, 0x0c, 0x1d, 0x1e, 0x20, 0x21, 0x26, 0x31, 0x37, 0x4d}
  }

  /** The three registers hold the frequency word. */
  lemma FrequencyProgrammed(s: Registers, freq: nat)
    ensures FrequencyOf(WithFrequency(s, freq)) == FrequencyWord(freq) % 0x100_0000
  {
    var frf := FrequencyWord(freq);
    ThreeBytes(frf);
    FromToByte(frf / 0x1_0000 % 256);
    FromToByte(frf / 256 % 256);
    FromToByte(frf % 256);
    hide ToByte, FromByte, FrequencyWord;
  }

  lemma StartUpModemOf(s: Registers, freq: nat)
    ensures ModemOf(StartUp(s, freq))
         == SetHeaderMode(SetSpreadingFactor(ModemOf(s), DEFAULT_SF), false).(config3 := AGC_AUTO)
  {
    hide ToByte, FrequencyWord, SetSpreadingFactor, SetHeaderMode;
  }

  lemma StartUpModem(m: Modem)
    ensures var r := SetHeaderMode(SetSpreadingFactor(m, DEFAULT_SF), false).(config3 := AGC_AUTO);
            Consistent(r) && Decode(r) == Decode(m).(spreadingFactor := DEFAULT_SF, implicitHeader := false)
  {
  }

  lemma ThreeBytes(n: nat)
    ensures 65536 * (n / 0x1_0000 % 256) + 256 * (n / 256 % 256) + n % 256 == n % 0x100_0000
  {
    var q, r0 := n / 256, n % 256;
    var p, r1 := q / 256, q % 256;
    var o, r2 := p / 256, p % 256;
    Quotient(n, 0x1_0000, p, 256 * r1 + r0);
    Quotient(n, 0x100_0000, o, 65536 * r2 + 256 * r1 + r0);
  }

  lemma Quotient(n: nat, d: nat, q: nat, r: nat)
    requires n == d * q + r && r < d
    ensures n / d == q && n % d == r
  {
    var e := n / d - q;
    assert d * e == r - n % d;
    assert e >= 1 ==> d * e >= d * 1;
    assert e <= -1 ==> d * e <= d * (-1);
  }

  /** The programmed frequency lies less than one step below the requested one, and fits the three registers. */
  lemma FrequencyWithinOneStep(freq: nat)
    requires freq < 1_024_000_000
    ensures FrequencyWord(freq) < 0x100_0000
    ensures FrequencyWord(freq) * CRYSTAL <= freq * 0x8_0000 < (FrequencyWord(freq) + 1) * CRYSTAL
  {
  }
}
