/** The packed configuration registers of the radio and what the driver's setters make of them. */
module Modem {

  // ----- the registers -----

  /** The five registers that the setters read, modify and write. */
  datatype Modem = Modem(config1: bv8, config2: bv8, config3: bv8, detectionOptimize: bv8, detectionThreshold: bv8)

  /** The fields packed into the first two of them. */
  datatype Fields = Fields(
    bandwidth: bv8, codingRate: bv8, implicitHeader: bool,
    spreadingFactor: bv8, txContinuous: bool, crc: bool, timeoutMsb: bv8)

  function Decode(m: Modem): Fields {
    Fields(m.config1 >> 4, (m.config1 >> 1) & 0x07, m.config1 & 0x01 != 0,
           m.config2 >> 4, m.config2 & 0x08 != 0, m.config2 & 0x04 != 0, m.config2 & 0x03)
  }

  const BANDWIDTH_62_5_KHZ: bv8 := 6
  const BANDWIDTH_125_KHZ: bv8 := 7
  const BW_LAST: bv8 := 10

  const AGC_AUTO: bv8 := 0x04
  const MOBILE_NODE: bv8 := 0x08

  // ----- the setters -----

  function WithLowDataRate(m: Modem): Modem {
    var bandwidth, sf := m.config1 >> 4, m.config2 >> 4;
    m.(config3 := if sf >= 11 && bandwidth == BANDWIDTH_125_KHZ then AGC_AUTO | MOBILE_NODE else AGC_AUTO)
  }

  /** The third register in figures: its bit 3 is set for spreading factors from 11 on at 125 kHz. */
  lemma LowDataRateBits(m: Modem)
    ensures WithLowDataRate(m).config3 == if m.config2 >= 0xb0 && m.config1 & 0xf0 == 0x70 then 0x0c else 0x04
    ensures WithLowDataRate(m) == m.(config3 := WithLowDataRate(m).config3)
  {
  }

  function SetBandwidth(m: Modem, bw: bv8): Modem {
    WithLowDataRate(m.(config1 := (m.config1 & 0x0F) | (bw << 4)))
  }

  function Clamped(sf: bv8): bv8 {
    if sf < 6 then 6 else if sf > 12 then 12 else sf
  }

  /** The nearest of the spreading factors 6 to 12. */
  lemma ClampedIsNearest(sf: bv8)
    ensures 6 <= Clamped(sf) <= 12
    ensures 6 <= sf <= 12 ==> Clamped(sf) == sf
    ensures sf < 6 ==> Clamped(sf) == 6
    ensures sf > 12 ==> Clamped(sf) == 12
  {
  }

  function SetSpreadingFactor(m: Modem, sf: bv8): Modem {
    var s := Clamped(sf);
    var d := if s == 6 then m.(detectionOptimize := 0xc5, detectionThreshold := 0x0c)
             else m.(detectionOptimize := 0xc3, detectionThreshold := 0x0a);
    WithLowDataRate(d.(config2 := (d.config2 & 0x0F) | (s << 4)))
  }

  function SetCrc(m: Modem, enable: bool): Modem {
    m.(config2 := if enable then m.config2 | 0x04 else m.config2 & 0xFB)
  }

  function SetHeaderMode(m: Modem, implicit: bool): Modem {
    m.(config1 := if implicit then m.config1 | 0x01 else m.config1 & 0xFE)
  }

  /** The constants are already in place for bits 3 to 5; the driver shifts them once more. */
  function SetCodingRate(m: Modem, rate: bv8): Modem {
    m.(config1 := m.config1 | (rate << 1))
  }

  // ----- what each setter does to the fields -----

  /** Any value is cut to the four bits of the field, into which the driver's ten constants fit. */
  lemma BandwidthField(m: Modem, bw: bv8)
    ensures Decode(SetBandwidth(m, bw)) == Decode(m).(bandwidth := bw & 0x0F)
    ensures bw < BW_LAST ==> bw & 0x0F == bw
  {
  }

  lemma SpreadingFactorField(m: Modem, sf: bv8)
    ensures Decode(SetSpreadingFactor(m, sf)) == Decode(m).(spreadingFactor := Clamped(sf))
  {
  }

  lemma CrcField(m: Modem, enable: bool)
    ensures Decode(SetCrc(m, enable)) == Decode(m).(crc := enable)
  {
  }

  lemma HeaderField(m: Modem, implicit: bool)
    ensures Decode(SetHeaderMode(m, implicit)) == Decode(m).(implicitHeader := implicit)
  {
  }

  /** The driver shifts the rate to its field but does not clear the field first, and it lets bits 3 to 6 of the
      rate fall on the bandwidth. */
  lemma CodingRateField(m: Modem, rate: bv8)
    ensures Decode(SetCodingRate(m, rate))
         == Decode(m).(codingRate := Decode(m).codingRate | (rate & 0x07),
                       bandwidth := Decode(m).bandwidth | ((rate >> 3) & 0x0F))
  {
  }

  /** The driver's constants, in place for bits 3 to 5. */
  predicate IsRateConstant(rate: bv8) {
    rate == 0x08 || rate == 0x10 || rate == 0x18 || rate == 0x20
  }

  /** None of the constants reaches the coding-rate field.  The call leaves the intended fields behind exactly if the
      rate was set already and the bandwidth covers the stray bits. */
  lemma CodingRateMisses(m: Modem, rate: bv8)
    requires IsRateConstant(rate)
    ensures Decode(SetCodingRate(m, rate)).codingRate == Decode(m).codingRate
    ensures Decode(SetCodingRate(m, rate)) == Decode(m).(codingRate := rate >> 3) <==>
            Decode(m).codingRate == rate >> 3 && Decode(m).bandwidth | (rate >> 3) == Decode(m).bandwidth
  {
    CodingRateField(m, rate);
    hide Decode, SetCodingRate;
    assert rate & 0x07 == 0 && (rate >> 3) & 0x0F == rate >> 3;
  }

  // ----- runs of setters -----

  /** The low-data-rate bit and the detection registers fit the fields. */
  predicate Consistent(m: Modem) {
    var f := Decode(m);
    && (m.config3 & MOBILE_NODE != 0 <==> f.spreadingFactor >= 11 && f.bandwidth == BANDWIDTH_125_KHZ)
    && m.config3 & AGC_AUTO != 0
    && (if f.spreadingFactor == 6 then m.detectionOptimize == 0xc5 && m.detectionThreshold == 0x0c
        else m.detectionOptimize == 0xc3 && m.detectionThreshold == 0x0a)
  }

  datatype Setting = Bandwidth(bw: bv8) | SpreadingFactor(sf: bv8) | Crc(enable: bool) | Header(implicit: bool)

  function Apply(m: Modem, s: Setting): Modem {
    match s
    case Bandwidth(bw) => SetBandwidth(m, bw)
    case SpreadingFactor(sf) => SetSpreadingFactor(m, sf)
    case Crc(enable) => SetCrc(m, enable)
    case Header(implicit) => SetHeaderMode(m, implicit)
  }

  function ApplyAll(m: Modem, settings: seq<Setting>): Modem {
    if |settings| == 0 then m else Apply(ApplyAll(m, settings[..|settings| - 1]), settings[|settings| - 1])
  }

  /** Position k holds the last setting of its kind. */
  ghost predicate LastOfKind(settings: seq<Setting>, k: nat) {
    k < |settings| && forall j :: k < j < |settings| ==> !SameKind(settings[j], settings[k])
  }

  predicate SameKind(s: Setting, t: Setting) {
    && (s.Bandwidth? <==> t.Bandwidth?) && (s.SpreadingFactor? <==> t.SpreadingFactor?)
    && (s.Crc? <==> t.Crc?)
  }

  /** The field that a setting is about has its value. */
  predicate Holds(f: Fields, s: Setting) {
    match s
    case Bandwidth(bw) => f.bandwidth == bw & 0x0F
    case SpreadingFactor(sf) => f.spreadingFactor == Clamped(sf)
    case Crc(enable) => f.crc == enable
    case Header(implicit) => f.implicitHeader == implicit
  }

  /** The fields that no setting is about. */
  predicate SameUntouched(f: Fields, g: Fields) {
    f.codingRate == g.codingRate && f.txContinuous == g.txContinuous && f.timeoutMsb == g.timeoutMsb
  }

  lemma ApplyFields(m: Modem, s: Setting)
    ensures Holds(Decode(Apply(m, s)), s) && SameUntouched(Decode(Apply(m, s)), Decode(m))
    ensures forall t :: !SameKind(s, t) && Holds(Decode(m), t) ==> Holds(Decode(Apply(m, s)), t)
  {
    hide Decode, SetBandwidth, SetSpreadingFactor, SetCrc, SetHeaderMode;
    match s {
      case Bandwidth(bw) => BandwidthField(m, bw);
      case SpreadingFactor(sf) => SpreadingFactorField(m, sf);
      case Crc(enable) => CrcField(m, enable);
      case Header(implicit) => HeaderField(m, implicit);
    }
  }

  lemma BandwidthConsistent(m: Modem, bw: bv8)
    requires Consistent(m)
    ensures Consistent(SetBandwidth(m, bw))
  {
  }

  lemma SpreadingFactorConsistent(m: Modem, sf: bv8)
    ensures Consistent(SetSpreadingFactor(m, sf))
  {
  }

  lemma CrcConsistent(m: Modem, enable: bool)
    requires Consistent(m)
    ensures Consistent(SetCrc(m, enable))
  {
  }

  lemma HeaderConsistent(m: Modem, implicit: bool)
    requires Consistent(m)
    ensures Consistent(SetHeaderMode(m, implicit))
  {
  }

  lemma ApplyConsistent(m: Modem, s: Setting)
    requires Consistent(m)
    ensures Consistent(Apply(m, s))
  {
    hide Consistent, SetBandwidth, SetSpreadingFactor, SetCrc, SetHeaderMode;
    match s {
      case Bandwidth(bw) => BandwidthConsistent(m, bw);
      case SpreadingFactor(sf) => SpreadingFactorConsistent(m, sf);
      case Crc(enable) => CrcConsistent(m, enable);
      case Header(implicit) => HeaderConsistent(m, implicit);
    }
  }

  lemma {:induction false} RunsConsistent(m: Modem, settings: seq<Setting>)
    requires Consistent(m)
    ensures Consistent(ApplyAll(m, settings))
    ensures SameUntouched(Decode(ApplyAll(m, settings)), Decode(m))
  {
    hide Decode, Apply, Consistent;
    if |settings| > 0 {
      var n := |settings| - 1;
      var before := ApplyAll(m, settings[..n]);
      RunsConsistent(m, settings[..n]);
      ApplyFields(before, settings[n]);
      ApplyConsistent(before, settings[n]);
    }
  }

  /** A setting shows in the registers until another of its kind replaces it. */
  lemma {:induction false} LastSettingHolds(m: Modem, settings: seq<Setting>, k: nat)
    requires LastOfKind(settings, k)
    ensures Holds(Decode(ApplyAll(m, settings)), settings[k])
    decreases |settings|
  {
    hide Decode, Apply, Holds, SameKind;
    var n := |settings| - 1;
    var before := ApplyAll(m, settings[..n]);
    ApplyFields(before, settings[n]);
    if k < n {
      LastSettingHolds(m, settings[..n], k);
    }
  }

  /** What held before any call still holds for the kinds that were never set. */
  lemma {:induction false} NeverSetKept(m: Modem, settings: seq<Setting>, t: Setting)
    requires forall s :: s in settings ==> !SameKind(s, t)
    requires Holds(Decode(m), t)
    ensures Holds(Decode(ApplyAll(m, settings)), t)
  {
    hide Decode, Apply, Holds, SameKind;
    if |settings| > 0 {
      var n := |settings| - 1;
      NeverSetKept(m, settings[..n], t);
      ApplyFields(ApplyAll(m, settings[..n]), settings[n]);
    }
  }

  /** After any sequence of setter calls each field holds the value set last, the other fields are as they
      were, and the derived registers fit. */
  lemma EveryRunOfSetters(m: Modem, settings: seq<Setting>)
    requires Consistent(m)
    ensures Consistent(ApplyAll(m, settings))
    ensures SameUntouched(Decode(ApplyAll(m, settings)), Decode(m))
    ensures forall k: nat :: LastOfKind(settings, k) ==> Holds(Decode(ApplyAll(m, settings)), settings[k])
    ensures forall t :: (forall s :: s in settings ==> !SameKind(s, t)) && Holds(Decode(m), t) ==>
      Holds(Decode(ApplyAll(m, settings)), t)
  {
    hide Decode, Apply, Consistent, Holds, SameKind, ApplyAll;
    RunsConsistent(m, settings);
    forall k: nat | LastOfKind(settings, k)
      ensures Holds(Decode(ApplyAll(m, settings)), settings[k])
    {
      LastSettingHolds(m, settings, k);
    }
    forall t | (forall s :: s in settings ==> !SameKind(s, t)) && Holds(Decode(m), t)
      ensures Holds(Decode(ApplyAll(m, settings)), t)
    {
      NeverSetKept(m, settings, t);
    }
  }
}
