/**
 From a setting and a value in engineering units to a register and a raw value.  Scales and
 values are exact rationals here.
 */
module Settings {
  import opened Wrappers
  import opened Bytes

  datatype Meta = Meta(register: u16, scale: real, min: real, max: real)

  /** The settings that are mapped to a holding register, and all others by name. */
  datatype Setting =
    | AbsorptionChargeVoltage | FloatChargeVoltage | EqualizationVoltage
    | GridChargeCurrent | MaxChargeCurrent | MaxDischargeCurrent
    | GridChargeSlotStart(slot: nat) | GridChargeSlotEnd(slot: nat)
    | GridFirstSlotStart(slot: nat) | GridFirstSlotEnd(slot: nat)
    | GridChargeStartCapacity | GridChargeStopCapacity | GridChargeStartVoltage | GridChargeStopVoltage
    | ExportPowerRate | StopDischargeVoltage | StopDischargeCapacity
    | ShutdownBatteryVoltage | ShutdownBatteryCapacity | WarningStartVoltage | WarningStartCapacity
    | GeneratorChargeCurrent | GeneratorPower
    | SoftStartSlope | ActivePowerPercent | ReactivePowerPercent | PowerFactorCommand
    | ChargePowerPercent | DischargePowerPercent | AcChargePowerPercent
    | Unmapped(name: string)

  /** The mapping together with the register table entries it leads to; slots are numbered 1 to 3. */
  function MetaOf(s: Setting): (m: Option<Meta>)
    ensures m.Some? ==> m.value.scale == 1.0 || m.value.scale == 0.1
    ensures m.Some? ==> m.value.min <= m.value.max && -100.0 <= m.value.min && m.value.max / m.value.scale <= 65535.0
    ensures m.Some? && m.value.min < 0.0 <==> s.PowerFactorCommand?
  {
    match s
    case AbsorptionChargeVoltage => Some(Meta(99, 0.1, 50.0, 58.0))
    case FloatChargeVoltage => Some(Meta(144, 0.1, 50.0, 58.0))
    case EqualizationVoltage => Some(Meta(149, 0.1, 50.0, 59.0))
    case GridChargeCurrent => Some(Meta(168, 1.0, 0.0, 125.0))
    case MaxChargeCurrent => Some(Meta(168, 1.0, 0.0, 125.0))
    case MaxDischargeCurrent => Some(Meta(102, 1.0, 0.0, 4480.0))
    case GridChargeSlotStart(slot) => if 1 <= slot <= 3 then Some(Meta(66 + 2 * slot, 1.0, 0.0, 15127.0)) else None
    case GridChargeSlotEnd(slot) => if 1 <= slot <= 3 then Some(Meta(67 + 2 * slot, 1.0, 0.0, 15127.0)) else None
    case GridFirstSlotStart(slot) => if 1 <= slot <= 3 then Some(Meta(150 + 2 * slot, 1.0, 0.0, 15127.0)) else None
    case GridFirstSlotEnd(slot) => if 1 <= slot <= 3 then Some(Meta(151 + 2 * slot, 1.0, 0.0, 15127.0)) else None
    case GridChargeStartCapacity => Some(Meta(160, 1.0, 0.0, 100.0))
    case GridChargeStopCapacity => Some(Meta(161, 1.0, 0.0, 100.0))
    case GridChargeStartVoltage => Some(Meta(158, 0.1, 0.0, 600.0))
    case GridChargeStopVoltage => Some(Meta(159, 0.1, 0.0, 600.0))
    case ExportPowerRate => Some(Meta(103, 1.0, 0.0, 255.0))
    case StopDischargeVoltage => Some(Meta(100, 0.1, 40.0, 56.0))
    case StopDischargeCapacity => Some(Meta(105, 1.0, 10.0, 90.0))
    case ShutdownBatteryVoltage => Some(Meta(166, 0.1, 0.0, 600.0))
    case ShutdownBatteryCapacity => Some(Meta(167, 1.0, 0.0, 100.0))
    case WarningStartVoltage => Some(Meta(162, 0.1, 0.0, 600.0))
    case WarningStartCapacity => Some(Meta(164, 1.0, 0.0, 100.0))
    case GeneratorChargeCurrent => Some(Meta(74, 1.0, 0.0, 140.0))
    case GeneratorPower => Some(Meta(177, 1.0, 0.0, 65534.0))
    case SoftStartSlope => Some(Meta(63, 1.0, 0.0, 100.0))
    case ActivePowerPercent => Some(Meta(60, 1.0, 0.0, 100.0))
    case ReactivePowerPercent => Some(Meta(61, 1.0, 0.0, 100.0))
    case PowerFactorCommand => Some(Meta(62, 1.0, -100.0, 100.0))
    case ChargePowerPercent => Some(Meta(64, 1.0, 0.0, 100.0))
    case DischargePowerPercent => Some(Meta(65, 1.0, 0.0, 100.0))
    case AcChargePowerPercent => Some(Meta(66, 1.0, 0.0, 100.0))
    case Unmapped(_) => None
  }

  /** Python's round: to the nearest integer, halves to the even one. */
  function Round(x: real): (n: int)
    ensures n as real - 0.5 <= x <= n as real + 0.5
    ensures x == x.Floor as real ==> n == x.Floor
    ensures x == n as real - 0.5 || x == n as real + 0.5 ==> n % 2 == 0
  {
    var f := x.Floor;
    var d := x - f as real;
    if d < 0.5 then f else if d > 0.5 then f + 1 else if f % 2 == 0 then f else f + 1
  }

  lemma RoundMonotone(x: real, y: real)
    requires x <= y
    ensures Round(x) <= Round(y)
  {
    if x.Floor < y.Floor {
      assert Round(x) <= x.Floor + 1 <= y.Floor <= Round(y);
    }
  }

  function Clamp(value: real, m: Meta): (v: real)
    ensures m.min <= m.max ==> m.min <= v <= m.max && (m.min <= value <= m.max ==> v == value)
  {
    var raised := if value < m.min then m.min else value;
    if raised > m.max then m.max else raised
  }

  function ToRaw(value: real, m: Meta): int
    requires m.scale > 0.0
  {
    Round(value / m.scale)
  }

  /** The register and raw value that a write of this setting aims at. */
  datatype Goal = Goal(register: u16, raw: int)

  predicate FitsWord(raw: int) { 0 <= raw <= 0xFFFF }

  /** None for settings without a register and for registers that the inverter model lacks. */
  function Target(s: Setting, value: real, supported: set<u16>): (g: Option<Goal>)
    ensures g.None? <==> MetaOf(s).None? || MetaOf(s).value.register !in supported
    ensures g.Some? ==> g.value.register == MetaOf(s).value.register && g.value.register in supported
  {
    var m := MetaOf(s);
    if m.None? || m.value.register !in supported then None
    else Some(Goal(m.value.register, ToRaw(Clamp(value, m.value), m.value)))
  }

  /** The raw value, scaled, is the value forced into the bounds of the register, to within half a step. */
  lemma TargetMeaning(s: Setting, value: real, supported: set<u16>)
    requires Target(s, value, supported).Some?
    ensures var m, raw := MetaOf(s).value, Target(s, value, supported).value.raw;
            var clamped := if value < m.min then m.min else if value > m.max then m.max else value;
            -m.scale / 2.0 <= raw as real * m.scale - clamped <= m.scale / 2.0
  {
    hide MetaOf, Clamp, ToRaw;
    var m := MetaOf(s).value;
    ClampMeaning(value, m);
    NearestStep(Clamp(value, m), m);
  }

  /** A value within the bounds that is a whole number of steps is hit exactly. */
  lemma TargetExact(s: Setting, n: int, supported: set<u16>)
    requires Target(s, 0.0, supported).Some?
    requires MetaOf(s).value.min <= n as real * MetaOf(s).value.scale <= MetaOf(s).value.max
    ensures Target(s, n as real * MetaOf(s).value.scale, supported) == Some(Goal(MetaOf(s).value.register, n))
  {
    hide MetaOf, Clamp, ToRaw;
    var m := MetaOf(s).value;
    ClampMeaning(n as real * m.scale, m);
    WholeSteps(n, m);
  }

  lemma ClampMeaning(value: real, m: Meta)
    requires m.min <= m.max
    ensures Clamp(value, m) == if value < m.min then m.min else if value > m.max then m.max else value
  {
  }

  lemma NearestStep(value: real, m: Meta)
    requires m.scale == 1.0 || m.scale == 0.1
    ensures -m.scale / 2.0 <= ToRaw(value, m) as real * m.scale - value <= m.scale / 2.0
  {
    var x := value / m.scale;
    hide Round;
    if m.scale == 1.0 {
      DivideByOne(value);
    } else {
      assert x == value * 10.0;
    }
  }

  lemma WholeSteps(n: int, m: Meta)
    requires m.scale == 1.0 || m.scale == 0.1
    ensures ToRaw(n as real * m.scale, m) == n
  {
    hide Round;
    RoundExact(n);
    if m.scale == 1.0 {
      DivideByOne(n as real);
    } else {
      assert n as real * 0.1 / 0.1 == n as real;
    }
  }

  /**
   Whatever value a rule asks for, the raw value lies between the bounds of the register, to
   within half a step, so it fits a register and the request builder accepts it, unless the
   register is the power factor command and the value rounds below zero.
   */
  lemma TargetInRange(s: Setting, value: real, supported: set<u16>)
    requires Target(s, value, supported).Some?
    ensures var m, raw := MetaOf(s).value, Target(s, value, supported).value.raw;
            && m.min - m.scale / 2.0 <= raw as real * m.scale <= m.max + m.scale / 2.0
            && (0 <= raw <= 0xFFFF <==> !(s.PowerFactorCommand? && value < -0.5))
  {
    var m := MetaOf(s).value;
    TargetMeaning(s, value, supported);
    ClampedBetween(value, m);
    RoundsNegative(value);
    hide MetaOf, ToRaw, Round, Clamp;
    if m.min >= 0.0 {
      NotNegative(value, m);
    } else {
      PowerFactorSign(value, m);
    }
  }

  /** No two settings share a register but the two charge currents. */
  lemma RegistersDistinct(s: Setting, t: Setting)
    requires MetaOf(s).Some? && MetaOf(t).Some? && s != t
    ensures MetaOf(s).value.register == MetaOf(t).value.register <==>
              (s.GridChargeCurrent? && t.MaxChargeCurrent?) || (s.MaxChargeCurrent? && t.GridChargeCurrent?)
  {
  }

  lemma RoundsNegative(x: real)
    ensures Round(x) < 0 <==> x < -0.5
  {
  }

  lemma ClampedBetween(value: real, m: Meta)
    requires m.min <= m.max && (m.scale == 1.0 || m.scale == 0.1) && m.max / m.scale <= 65535.0
    ensures ToRaw(m.min, m) <= ToRaw(Clamp(value, m), m) <= ToRaw(m.max, m) <= 0xFFFF
  {
    var v := Clamp(value, m);
    hide Round, Clamp;
    DivideMonotone(m.min, v, m.scale);
    DivideMonotone(v, m.max, m.scale);
    RoundMonotone(m.min / m.scale, v / m.scale);
    RoundMonotone(v / m.scale, m.max / m.scale);
    RoundMonotone(m.max / m.scale, 65535.0);
    RoundExact(65535);
  }

  lemma NotNegative(value: real, m: Meta)
    requires 0.0 <= m.min <= m.max && (m.scale == 1.0 || m.scale == 0.1)
    ensures ToRaw(Clamp(value, m), m) >= 0
  {
    var v := Clamp(value, m);
    hide Round, Clamp;
    DivideMonotone(m.min, v, m.scale);
    RoundMonotone(0.0, v / m.scale);
    RoundExact(0);
  }

  lemma RoundExact(n: int)
    ensures Round(n as real) == n
  {
  }

  lemma DivideMonotone(x: real, y: real, scale: real)
    requires x <= y && (scale == 1.0 || scale == 0.1)
    ensures x / scale <= y / scale
    ensures x >= 0.0 ==> x / scale >= 0.0
  {
    if scale == 1.0 {
    } else {
      assert x / 0.1 <= y / 0.1;
    }
  }

  lemma DivideByOne(x: real)
    ensures x / 1.0 == x
  {
  }

  lemma PowerFactorSign(value: real, m: Meta)
    requires m == MetaOf(PowerFactorCommand).value
    ensures Round(Clamp(value, m) / m.scale) < 0 <==> Round(value) < 0
  {
    hide Round;
    assert m.scale == 1.0 && m.min == -100.0 && m.max == 100.0;
    DivideByOne(Clamp(value, m));
    if value < -100.0 {
      RoundMonotone(value, -100.0);
      RoundExact(-100);
    } else if value > 100.0 {
      RoundMonotone(100.0, value);
      RoundExact(100);
    }
  }
}
