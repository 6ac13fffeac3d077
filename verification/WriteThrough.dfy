/** An acknowledged setting shows up in the value cache as if the device had broadcast it. */
module WriteThrough {
  import opened Bytes
  import opened Wrappers
  import opened Messages
  import opened Numbers
  import P = Progress
  import R = Requests
  import D = Decode

  // ---- Settings that are one number ----

  datatype HkSetting =
    | DayTemperature | NightTemperature | VacationTemperature | MinTemperature | MaxTemperature
    | MaxRoomEffect | RoomTemperatureOffset | DesignTemperature | FrostProtectTemperature
    | SummerWinterThreshold | ReducedModeThreshold | VacationReducedModeThreshold | CancelReducedModeThreshold

  datatype Setting = Hk(hk: R.Circuit, setting: HkSetting) | HysteresisOn | HysteresisOff | RcMinTemperature

  /** Where a setting is written, how it is scaled and limited, and what the cache calls it. */
  datatype Target = Target(dest: byte, typ: byte, offset: byte, multiplier: int, min: int, max: int,
                           value: D.ValueType, sub: D.SubType)

  function SubOf(hk: R.Circuit): D.SubType {
    match hk case HK1 => D.HK1 case HK2 => D.HK2 case HK3 => D.HK3 case HK4 => D.HK4
  }

  function HkTarget(hk: R.Circuit, offset: byte, multiplier: int, min: int, max: int, value: D.ValueType): Target {
    Target(ADDRESS_RC3X, hk.Base(), offset, multiplier, min, max, value, SubOf(hk))
  }

  function TargetOf(s: Setting): Target {
    match s
    case Hk(hk, DayTemperature) => HkTarget(hk, 2, 2, 5, 30, D.TagTemp)
    case Hk(hk, NightTemperature) => HkTarget(hk, 1, 2, 5, 30, D.NachtTemp)
    case Hk(hk, VacationTemperature) => HkTarget(hk, 3, 2, 5, 30, D.UrlaubTemp)
    case Hk(hk, MinTemperature) => HkTarget(hk, 16, 1, 5, 70, D.MinTemp)
    case Hk(hk, MaxTemperature) => HkTarget(hk, 15, 1, 30, 90, D.MaxTemp)
    case Hk(hk, MaxRoomEffect) => HkTarget(hk, 4, 2, 0, 10, D.RaumEinfluss)
    case Hk(hk, RoomTemperatureOffset) => HkTarget(hk, 6, 2, -5, 5, D.RaumOffset)
    case Hk(hk, DesignTemperature) => HkTarget(hk, 17, 1, 30, 90, D.AuslegungsTemp)
    case Hk(hk, FrostProtectTemperature) => HkTarget(hk, 23, 1, -20, 10, D.FrostSchutzTemp)
    case Hk(hk, SummerWinterThreshold) => HkTarget(hk, 22, 1, 0, 30, D.SchwelleSommerWinter)
    case Hk(hk, ReducedModeThreshold) => HkTarget(hk, 39, 1, -20, 10, D.AbsenkungsSchwellenTemp)
    case Hk(hk, VacationReducedModeThreshold) => HkTarget(hk, 40, 1, -20, 10, D.UrlaubAbsenkungsSchwellenTemp)
    case Hk(hk, CancelReducedModeThreshold) => HkTarget(hk, 38, 1, -31, 10, D.AbsenkungsAbbruchTemp)
    case HysteresisOn => Target(ADDRESS_UBA, 0x16, 5, 1, -20, -1, D.EinschaltHysterese, D.Kessel)
    case HysteresisOff => Target(ADDRESS_UBA, 0x16, 4, 1, 1, 20, D.AusschaltHysterese, D.Kessel)
    case RcMinTemperature => Target(ADDRESS_RC3X, 0xa5, 5, 1, -30, 0, D.MinTemp, D.RC)
  }

  // ---- The number the user typed ----

  /** Conversion to int drops the fraction. */
  function Truncate(x: real): int {
    if x >= 0.0 then x.Floor else -(-x).Floor
  }

  /** handleSingleByteValue: the number written, or None for ERRARGS. */
  function Accepted(requested: real, multiplier: int, min: int, max: int): Option<int> {
    var v := Truncate(multiplier as real * requested);
    if v < min * multiplier || v > max * multiplier then None else Some(v)
  }

  /** Which numbers pass: the limits are checked after the fraction is dropped, so a little more than
      a non-negative maximum, or less than a non-positive minimum, still does. */
  lemma AcceptedExactly(requested: real, multiplier: int, min: int, max: int)
    ensures var x, lo, hi := multiplier as real * requested, (min * multiplier) as real, (max * multiplier) as real;
            Accepted(requested, multiplier, min, max).Some? <==>
              && (if lo > 0.0 then x >= lo else x > lo - 1.0)
              && (if hi < 0.0 then x <= hi else x < hi + 1.0)
  {
    var x := multiplier as real * requested;
    TruncateBounds(x, min * multiplier);
    TruncateBounds(x, max * multiplier);
  }

  lemma TruncateBounds(x: real, n: int)
    ensures Truncate(x) >= n <==> if n > 0 then x >= n as real else x > n as real - 1.0
    ensures Truncate(x) <= n <==> if n < 0 then x <= n as real else x < n as real + 1.0
  {
  }

  /** The written number is less than one step away from the requested one. */
  lemma AcceptedNear(requested: real, multiplier: int, min: int, max: int)
    requires multiplier in {1, 2} && Accepted(requested, multiplier, min, max).Some?
    ensures var v := Accepted(requested, multiplier, min, max).value;
            -1.0 < v as real - multiplier as real * requested < 1.0
            && min * multiplier <= v <= max * multiplier
  {
  }

  /** Narrowing to int8_t, as the byte that is sent. */
  function Int8(v: int): byte {
    v % 256
  }

  lemma Int8Lossless(v: int)
    requires -127 <= v <= 127
    ensures Decoded([Int8(v)], true, []) == Number(v, true)
  {
    assert SignedBytes(v, 1) == [Int8(v)] by {
      var u := if v < 0 then 256 + v else v;
      assert u % 256 == u == Int8(v);
      assert ToBytes(u, 1) == ToBytes(u / 256, 0) + [u % 256];
    }
    assert Pow256(1) == 256;
    SignedRoundTrip(v, 1);
  }

  // ---- One changed byte reaches one field ----

  lemma {:induction false} EmitNowhere(m: EmsMessage, fs: seq<D.Field>)
    requires |m.data| == 1 && forall j | 0 <= j < |fs| :: fs[j].offset != m.offset && D.SizeOf(fs[j]) > 0
    ensures D.EmitAll(m, fs) == []
  {
    if fs != [] {
      var n := |fs| - 1;
      EmitNowhere(m, fs[..n]);
      assert fs[n].offset != m.offset;
      assert D.Emit(m, fs[n]) == [];
    }
  }

  lemma {:induction false} EmitOnly(m: EmsMessage, fs: seq<D.Field>, i: nat)
    requires |m.data| == 1 && i < |fs|
    requires forall j | 0 <= j < |fs| && j != i :: fs[j].offset != m.offset && D.SizeOf(fs[j]) > 0
    ensures D.EmitAll(m, fs) == D.Emit(m, fs[i])
  {
    hide D.Emit;
    var n := |fs| - 1;
    if i == n {
      EmitNowhere(m, fs[..n]);
    } else {
      EmitOnly(m, fs[..n], i);
      assert fs[n].offset != m.offset;
      EmitNowhere(m, [fs[n]]);
      D.EmitSnoc(m, [], fs[n]);
      D.EmitNone(m);
      assert [] + [fs[n]] == [fs[n]];
    }
  }

  lemma EmitNumber(m: EmsMessage, divider: int, typ: D.ValueType, sub: D.SubType, v: int)
    requires m.data == [Int8(v)] && -127 <= v <= 127 && divider > 0
    ensures D.Emit(m, D.Num(m.offset, divider, typ, sub)) ==
            [D.EmsValue(typ, sub, D.Numeric(v, divider), true)]
  {
    hide Decoded;
    Int8Lossless(v);
    assert D.WindowBytes(m, m.offset, 1) == [Int8(v)];
  }

  // ---- The settings of a heating circuit ----

  /** Position of a setting among the fields of its message. */
  function FieldIndex(s: HkSetting): nat {
    match s
    case NightTemperature => 0
    case DayTemperature => 1
    case VacationTemperature => 2
    case MaxRoomEffect => 3
    case RoomTemperatureOffset => 4
    case MaxTemperature => 7
    case DesignTemperature => 8
    case MinTemperature => 9
    case SummerWinterThreshold => 11
    case FrostProtectTemperature => 12
    case CancelReducedModeThreshold => 17
    case ReducedModeThreshold => 18
    case VacationReducedModeThreshold => 19
  }

  /** With an RC35 and floor heating, flow temperature limits are read from where they are not written. */
  predicate Diverted(s: Setting, rc: D.RoomController, snapshot: D.Cache) {
    s.Hk? && s.setting in {MaxTemperature, DesignTemperature}
    && rc == D.RC35 && D.IsFloorHeating(snapshot, SubOf(s.hk))
  }

  function TailOffsets(shifted: bool): seq<nat> {
    [1, 2, 3, 4, 6, 7, 8, if shifted then 35 else 15, if shifted then 36 else 17, 16, 19, 22, 23,
     25, 26, 28, 37, 38, 39, 40, 41]
  }

  lemma TailLayout(rc: D.RoomController, floor: bool, sub: D.SubType)
    ensures var fs := D.OpmodeTail(rc, floor, sub);
            && |fs| == 21
            && forall j | 0 <= j < 21 ::
                 fs[j].offset == TailOffsets(rc == D.RC35 && floor)[j] && D.SizeOf(fs[j]) == 1
  {
  }

  lemma TailField(rc: D.RoomController, floor: bool, hk: R.Circuit, s: HkSetting)
    requires !(s in {MaxTemperature, DesignTemperature} && rc == D.RC35 && floor)
    ensures var t := TargetOf(Hk(hk, s));
            var fs := D.OpmodeTail(rc, floor, t.sub);
            && FieldIndex(s) < |fs|
            && fs[FieldIndex(s)] == D.Num(t.offset, t.multiplier, t.value, t.sub)
  {
  }

  lemma OffsetsDistinct(shifted: bool, s: HkSetting)
    ensures var t := TargetOf(Hk(R.HK1, s)).offset;
            && (forall j | 0 <= j < 21 && j != FieldIndex(s) :: TailOffsets(shifted)[j] != t)
            && (shifted && s in {MaxTemperature, DesignTemperature} ==>
                  TailOffsets(shifted)[FieldIndex(s)] != t)
  {
  }

  lemma HeadUntouched(m: EmsMessage, rc: D.RoomController, sub: D.SubType)
    requires |m.data| == 1 && m.offset !in {0, 32, 33}
    ensures D.OpmodeHead(m, rc, sub) == []
  {
  }

  /** The simulated broadcast of a setting, decoded. */
  lemma SettingDecoded(s: Setting, v: int, rc: D.RoomController, snapshot: D.Cache)
    requires -127 <= v <= 127
    ensures var t := TargetOf(s);
            var m := EmsMessage(t.dest, 0, t.typ, t.offset, [Int8(v)]);
            && D.Covered(m)
            && D.Values(m, rc, snapshot) == if Diverted(s, rc, snapshot) then []
                 else [D.EmsValue(t.value, t.sub, D.Numeric(v, t.multiplier), true)]
  {
    hide D.EmitAll, D.Emit, Int8;
    var t := TargetOf(s);
    var m := EmsMessage(t.dest, 0, t.typ, t.offset, [Int8(v)]);
    EmitNumber(m, t.multiplier, t.value, t.sub, v);
    match s
    case Hk(hk, setting) => HkSettingDecoded(hk, setting, v, rc, snapshot);
    case HysteresisOn => EmitOnly(m, D.UbaParameters(), 5);
    case HysteresisOff => EmitOnly(m, D.UbaParameters(), 4);
    case RcMinTemperature => EmitOnly(m, D.RcParameters(), 0);
  }

  lemma HkMessage(hk: R.Circuit, offset: byte, data: seq<byte>, rc: D.RoomController, snapshot: D.Cache)
    ensures var m := EmsMessage(ADDRESS_RC3X, 0, hk.Base(), offset, data);
            var sub := SubOf(hk);
            && D.IsOpmode(m) && !D.Ignored(m)
            && D.Values(m, rc, snapshot) == D.OpmodeHead(m, rc, sub)
                 + D.EmitAll(m, D.OpmodeTail(rc, D.IsFloorHeating(snapshot, sub), sub))
  {
    hide D.OpmodeHead, D.OpmodeTail, D.EmitAll, D.IsFloorHeating, D.ErrorEntries;
  }

  lemma HkSettingDecoded(hk: R.Circuit, setting: HkSetting, v: int, rc: D.RoomController, snapshot: D.Cache)
    requires -127 <= v <= 127
    ensures var t := TargetOf(Hk(hk, setting));
            var m := EmsMessage(t.dest, 0, t.typ, t.offset, [Int8(v)]);
            && D.IsOpmode(m) && !D.Ignored(m)
            && D.Values(m, rc, snapshot) == if Diverted(Hk(hk, setting), rc, snapshot) then []
                 else [D.EmsValue(t.value, t.sub, D.Numeric(v, t.multiplier), true)]
  {
    hide D.EmitAll, D.Emit, D.OpmodeTail, D.OpmodeHead, D.IsFloorHeating, D.Values, Int8, TailOffsets;
    var t := TargetOf(Hk(hk, setting));
    var m := EmsMessage(t.dest, 0, t.typ, t.offset, [Int8(v)]);
    var floor := D.IsFloorHeating(snapshot, t.sub);
    HkMessage(hk, t.offset, [Int8(v)], rc, snapshot);
    HeadUntouched(m, rc, t.sub);
    TailLayout(rc, floor, t.sub);
    OffsetsDistinct(rc == D.RC35 && floor, setting);
    if Diverted(Hk(hk, setting), rc, snapshot) {
      EmitNowhere(m, D.OpmodeTail(rc, floor, t.sub));
    } else {
      TailField(rc, floor, hk, setting);
      EmitOnly(m, D.OpmodeTail(rc, floor, t.sub), FieldIndex(setting));
      EmitNumber(m, t.multiplier, t.value, t.sub, v);
    }
  }

  // ---- From the command to the cache ----

  lemma TargetInRange(s: Setting, requested: real)
    requires var t := TargetOf(s); Accepted(requested, t.multiplier, t.min, t.max).Some?
    ensures var t := TargetOf(s);
            && t.multiplier in {1, 2}
            && -127 <= Accepted(requested, t.multiplier, t.min, t.max).value <= 127
  {
  }

  /** The message that writes the number. */
  function SettingMessage(s: Setting, v: int): EmsMessage {
    var t := TargetOf(s);
    Outgoing(t.dest, t.typ, t.offset, [Int8(v)], false)
  }

  /** From the command on, and through any number of timeouts that do not end it, that message is the
      active request. */
  lemma SettingWaits(p: R.Parser, s: Setting, v: int, n: nat)
    requires p.active.None? && n < R.MAX_REQUEST_RETRIES
    ensures var t := TargetOf(s);
            P.Expire(R.Parse(p, R.WriteData(t.dest, t.typ, t.offset, [Int8(v)])).p, n).active
            == Some(SettingMessage(s, v))
  {
    hide Int8, TargetOf;
    var t := TargetOf(s);
    if n > 0 {
      P.GivesUpExactly(R.Parse(p, R.WriteData(t.dest, t.typ, t.offset, [Int8(v)])).p, n);
    }
  }

  /** A number that was accepted and acknowledged, at once or after repetitions, is in the cache under its
      own name, less than one step from what the user asked for, and no other entry has changed; only flow
      temperature limits of floor heating on an RC35 leave the cache as it was. */
  lemma AcknowledgedSettingIsCached(p: R.Parser, s: Setting, requested: real, ack: EmsMessage,
                                    rc: D.RoomController, snapshot: D.Cache, cache: D.Cache, now: int)
    requires var t := TargetOf(s); Accepted(requested, t.multiplier, t.min, t.max).Some?
    requires var t := TargetOf(s);
             p.active == Some(SettingMessage(s, Accepted(requested, t.multiplier, t.min, t.max).value))
    requires ack.typ == 0xff && ack.offset != 0x04
    ensures var t := TargetOf(s);
            var v := Accepted(requested, t.multiplier, t.min, t.max).value;
            var e := R.OnIncomingMessage(p, ack);
            && e.verdict == R.Success && e.p.active.None? && e.echo.Some?
            && var m := FromBytes(e.echo.value);
            && D.Covered(m) && m.GetDestination() != ADDRESS_PC
            && D.Store(cache, D.Values(m, rc, snapshot), now) ==
                 (if Diverted(s, rc, snapshot) then cache
                  else cache[(t.value, t.sub) := (D.EmsValue(t.value, t.sub, D.Numeric(v, t.multiplier), true), now)])
            && -1.0 < v as real - t.multiplier as real * requested < 1.0
  {
    hide D.Values, D.Covered, Diverted, Accepted;
    var t := TargetOf(s);
    var v := Accepted(requested, t.multiplier, t.min, t.max).value;
    TargetInRange(s, requested);
    AcceptedNear(requested, t.multiplier, t.min, t.max);
    SettingDecoded(s, v, rc, snapshot);
    var m := EmsMessage(t.dest, 0, t.typ, t.offset, [Int8(v)]);
    ParseSerialized(m);
    StoreOne(cache, D.EmsValue(t.value, t.sub, D.Numeric(v, t.multiplier), true), now);
    assert D.Store(cache, [], now) == cache;
  }

  /** A refusal is told as FAIL, and nothing is passed on that could reach the cache. */
  lemma RefusedSettingIsNot(p: R.Parser, refusal: EmsMessage)
    requires p.active.Some? && refusal.typ == 0xff && refusal.offset == 0x04
    ensures var e := R.OnIncomingMessage(p, refusal);
            e.verdict == R.Failure && e.p.active.None? && e.echo.None? && e.sends == [] && e.lines == []
  {
  }

  lemma StoreOne(cache: D.Cache, value: D.EmsValue, now: int)
    ensures D.Store(cache, [value], now) == cache[(value.typ, value.sub) := (value, now)]
  {
    assert [value][..0] == [];
    assert D.Store(cache, [], now) == cache;
  }
}
