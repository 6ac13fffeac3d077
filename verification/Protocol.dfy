/** The numbers of the protocol: what goes over the wire for each command, what each message means byte by
    byte, and what limits and letters users see. */
module Protocol {
  import opened Bytes
  import opened Wrappers
  import opened Messages
  import opened Numbers
  import D = Decode
  import R = Requests
  import T = Texts
  import W = WriteThrough

  // ---- Commands as bytes ----

  /** The type of a heating circuit's first message; the others follow it. */
  function CircuitType(hk: R.Circuit): byte {
    match hk case HK1 => 0x3d case HK2 => 0x47 case HK3 => 0x51 case HK4 => 0x5b
  }

  /** The first message of a command: sender, destination with the bit that asks for a reply, type,
      offset, and the number of bytes wanted or the bytes to write. */
  function Wire(cmd: R.Command): seq<byte> {
    match cmd
    case GetVersion => [0x0b, 0x88, 0x02, 0, 3]
    case UbaRequestData => [0x0b, 0x88, 0x15, 0, 5]
    case UbaGetErrors => [0x0b, 0x88, 0x10, 0, 96]
    case UbaCheckMaintenance => [0x0b, 0x88, 0x1c, 5, 3]
    case RcRequestData => [0x0b, 0x90, 0xa5, 0, 25]
    case RcGetContactInfo => [0x0b, 0x90, 0xa4, 0, 42]
    case RcGetErrors => [0x0b, 0x90, 0x12, 0, 48]
    case HkRequestData(hk) => [0x0b, 0x90, CircuitType(hk), 0, 42]
    case HkGetSchedule(hk, second) => [0x0b, 0x90, CircuitType(hk) + (if second then 5 else 2), 0, 84]
    case HkGetActiveSchedule(hk) => [0x0b, 0x90, CircuitType(hk) + 2, 84, 1]
    case HkGetVacation(hk) => [0x0b, 0x90, CircuitType(hk) + 2, 87, 6]
    case HkGetHoliday(hk) => [0x0b, 0x90, CircuitType(hk) + 2, 93, 6]
    case WwRequestData => [0x0b, 0x88, 0x33, 0, 10]
    case WwGetSchedule => [0x0b, 0x90, 0x38, 0, 84]
    case ZirkGetSchedule => [0x0b, 0x90, 0x39, 0, 84]
    case RawRead(dest, typ, offset, len) => [0x0b, if dest < 128 then dest + 128 else dest, typ, offset, len]
    case WriteData(dest, typ, offset, data) => [0x0b, dest, typ, offset] + data
  }

  lemma CommandOnWire(p: R.Parser, cmd: R.Command)
    requires p.active.None? && (cmd.RawRead? ==> cmd.len > 0)
    ensures var sends := R.Parse(p, cmd).sends;
            |sends| == 1 && sends[0].GetSendData(false) == Wire(cmd)
  {
  }

  /** An acknowledged write is passed on as if its destination had broadcast the bytes. */
  lemma EchoOnWire(p: R.Parser, dest: byte, typ: byte, offset: byte, data: seq<byte>)
    ensures R.SimulatedResponse(Outgoing(dest, typ, offset, data, false)) == [dest % 128, 0, typ, offset] + data
  {
  }

  // ---- Settings ----

  /** Where a setting is written: destination, type, offset. */
  function SettingPlace(s: W.Setting): seq<byte> {
    match s
    case Hk(hk, NightTemperature) => [0x10, CircuitType(hk), 1]
    case Hk(hk, DayTemperature) => [0x10, CircuitType(hk), 2]
    case Hk(hk, VacationTemperature) => [0x10, CircuitType(hk), 3]
    case Hk(hk, MaxRoomEffect) => [0x10, CircuitType(hk), 4]
    case Hk(hk, RoomTemperatureOffset) => [0x10, CircuitType(hk), 6]
    case Hk(hk, MaxTemperature) => [0x10, CircuitType(hk), 15]
    case Hk(hk, MinTemperature) => [0x10, CircuitType(hk), 16]
    case Hk(hk, DesignTemperature) => [0x10, CircuitType(hk), 17]
    case Hk(hk, SummerWinterThreshold) => [0x10, CircuitType(hk), 22]
    case Hk(hk, FrostProtectTemperature) => [0x10, CircuitType(hk), 23]
    case Hk(hk, CancelReducedModeThreshold) => [0x10, CircuitType(hk), 38]
    case Hk(hk, ReducedModeThreshold) => [0x10, CircuitType(hk), 39]
    case Hk(hk, VacationReducedModeThreshold) => [0x10, CircuitType(hk), 40]
    case HysteresisOff => [0x08, 0x16, 4]
    case HysteresisOn => [0x08, 0x16, 5]
    case RcMinTemperature => [0x10, 0xa5, 5]
  }

  lemma SettingOnWire(s: W.Setting, v: int)
    ensures W.SettingMessage(s, v).GetSendData(false) == [0x0b] + SettingPlace(s) + [v % 256]
  {
  }

  /** Which numbers a user can set. The fraction is dropped before the check, so a bound may be passed by
      less than one step of the byte that is sent: half a degree where it counts half degrees. */
  predicate WithinLimits(s: W.Setting, x: real) {
    match s
    case Hk(_, DayTemperature) => 5.0 <= x < 30.5
    case Hk(_, NightTemperature) => 5.0 <= x < 30.5
    case Hk(_, VacationTemperature) => 5.0 <= x < 30.5
    case Hk(_, MinTemperature) => 5.0 <= x < 71.0
    case Hk(_, MaxTemperature) => 30.0 <= x < 91.0
    case Hk(_, MaxRoomEffect) => -0.5 < x < 10.5
    case Hk(_, RoomTemperatureOffset) => -5.5 < x < 5.5
    case Hk(_, DesignTemperature) => 30.0 <= x < 91.0
    case Hk(_, FrostProtectTemperature) => -21.0 < x < 11.0
    case Hk(_, SummerWinterThreshold) => -1.0 < x < 31.0
    case Hk(_, ReducedModeThreshold) => -21.0 < x < 11.0
    case Hk(_, VacationReducedModeThreshold) => -21.0 < x < 11.0
    case Hk(_, CancelReducedModeThreshold) => -32.0 < x < 11.0
    case HysteresisOn => -21.0 < x <= -1.0
    case HysteresisOff => 1.0 <= x < 21.0
    case RcMinTemperature => -31.0 < x < 1.0
  }

  lemma SettingLimits(s: W.Setting, x: real)
    ensures var t := W.TargetOf(s);
            W.Accepted(x, t.multiplier, t.min, t.max).Some? <==> WithinLimits(s, x)
  {
    hide W.Accepted;
    var t := W.TargetOf(s);
    W.AcceptedExactly(x, t.multiplier, t.min, t.max);
  }

  // ---- Messages as values ----

  /** A byte as a signed number; 0x80 is no reading. */
  function Signed(b: byte): int {
    if b >= 128 then b - 256 else b
  }

  function Degrees(typ: D.ValueType, sub: D.SubType, divider: int, b: byte): D.EmsValue {
    D.EmsValue(typ, sub, D.Numeric(Signed(b), divider), b != 0x80)
  }

  function Count(typ: D.ValueType, sub: D.SubType, b: byte): D.EmsValue {
    D.EmsValue(typ, sub, D.Integer(b), b != 0xff)
  }

  function Code(typ: D.ValueType, sub: D.SubType, b: byte): D.EmsValue {
    D.EmsValue(typ, sub, D.Enumeration(b), true)
  }

  function Flag(typ: D.ValueType, sub: D.SubType, on: bool): D.EmsValue {
    D.EmsValue(typ, sub, D.Boolean(on), true)
  }

  lemma ByteDecoded(b: byte)
    ensures Decoded([b], true, []) == Number(Signed(b), b != 0x80)
    ensures Decoded([b], false, []) == Number(b, b != 0xff)
  {
    assert [b][..0] == [] && BigEndian([]) == 0;
    assert BigEndian([b]) == b;
    assert Pow256(1) == 256;
  }

  lemma BitsOf(b: byte)
    ensures Pow2(0) == 1 && Pow2(1) == 2
  {
  }

  /** One-byte fields of a message that begins at offset 0. */
  lemma ByteFields(m: EmsMessage, offset: nat)
    requires m.offset == 0 && offset < |m.data|
    ensures forall divider, typ, sub | divider > 0 ::
              D.Emit(m, D.Num(offset, divider, typ, sub)) == [Degrees(typ, sub, divider, m.data[offset])]
    ensures forall typ, sub :: D.Emit(m, D.Int(offset, typ, sub)) == [Count(typ, sub, m.data[offset])]
    ensures forall typ, sub :: D.Emit(m, D.EnumField(offset, typ, sub)) == [Code(typ, sub, m.data[offset])]
    ensures forall typ, sub ::
              D.Emit(m, D.BoolField(offset, 0, typ, sub)) == [Flag(typ, sub, m.data[offset] % 2 == 1)]
    ensures forall typ, sub ::
              D.Emit(m, D.BoolField(offset, 1, typ, sub)) == [Flag(typ, sub, m.data[offset] / 2 % 2 == 1)]
  {
    hide Decoded;
    var b := m.data[offset];
    ByteDecoded(b);
    BitsOf(b);
    assert m.data[offset..offset + 1] == [b];
  }

  lemma {:induction false} EmitEach(m: EmsMessage, fs: seq<D.Field>, values: seq<D.EmsValue>)
    requires |values| == |fs| && forall i | 0 <= i < |fs| :: D.Emit(m, fs[i]) == [values[i]]
    ensures D.EmitAll(m, fs) == values
  {
    if fs != [] {
      var n := |fs| - 1;
      EmitEach(m, fs[..n], values[..n]);
      assert values == values[..n] + [values[n]];
    }
  }

  function BoilerValues(d: seq<byte>): seq<D.EmsValue>
    requires |d| == 11
  {
    [ Flag(D.KesselSchalter, D.Kessel, d[0] / 2 % 2 == 1), Degrees(D.SetTemp, D.Kessel, 1, d[1]),
      Count(D.MaxModulation, D.Brenner, d[2]), Count(D.MinModulation, D.Brenner, d[3]),
      Degrees(D.AusschaltHysterese, D.Kessel, 1, d[4]), Degrees(D.EinschaltHysterese, D.Kessel, 1, d[5]),
      Count(D.AntipendelZeit, D.NoSub, d[6]), Count(D.NachlaufZeit, D.KesselPumpe, d[8]),
      Count(D.MaxModulation, D.KesselPumpe, d[9]), Count(D.MinModulation, D.KesselPumpe, d[10]) ]
  }

  /** The boiler's parameters, from its address to any that does not ask for a reply. */
  lemma BoilerParameters(dest: byte, d: seq<byte>, rc: D.RoomController, snapshot: D.Cache)
    requires dest < 128 && |d| == 11
    ensures var m := EmsMessage(0x08, dest, 0x16, 0, d);
            D.Covered(m) && D.Values(m, rc, snapshot) == BoilerValues(d)
  {
    hide D.Emit, D.EmitAll;
    var m := EmsMessage(0x08, dest, 0x16, 0, d);
    ByteFields(m, 0); ByteFields(m, 1); ByteFields(m, 2); ByteFields(m, 3); ByteFields(m, 4);
    ByteFields(m, 5); ByteFields(m, 6); ByteFields(m, 8); ByteFields(m, 9); ByteFields(m, 10);
    EmitEach(m, D.UbaParameters(), BoilerValues(d));
  }

  /** The room controller's parameters. */
  lemma ControllerParameters(dest: byte, d: seq<byte>, rc: D.RoomController, snapshot: D.Cache)
    requires dest < 128 && |d| == 25
    ensures var m := EmsMessage(0x10, dest, 0xa5, 0, d);
            D.Covered(m) && D.Values(m, rc, snapshot) ==
              [ Degrees(D.MinTemp, D.RC, 1, d[5]), Code(D.GebaeudeArt, D.RC, d[6]),
                Flag(D.ATDaempfung, D.RC, d[21] / 2 % 2 == 1) ]
  {
    hide D.Emit, D.EmitAll;
    var m := EmsMessage(0x10, dest, 0xa5, 0, d);
    ByteFields(m, 5);
    ByteFields(m, 6);
    ByteFields(m, 21);
    EmitEach(m, D.RcParameters(), [ Degrees(D.MinTemp, D.RC, 1, d[5]), Code(D.GebaeudeArt, D.RC, d[6]),
                                    Flag(D.ATDaempfung, D.RC, d[21] / 2 % 2 == 1) ]);
  }

  /** The heating system: the RC30 keeps it in the first byte, where 4 and 5 stand for room control; the
      RC35 in two bytes of its own; without a known controller it is not read. */
  function SystemValues(rc: D.RoomController, sub: D.SubType, d: seq<byte>): seq<D.EmsValue>
    requires |d| == 42
  {
    match rc
    case RC30 =>
      if d[0] in {4, 5} then [Code(D.HeizSystem, sub, 0), Code(D.FuehrungsGroesse, sub, 1)]
      else [Code(D.HeizSystem, sub, d[0]), Code(D.FuehrungsGroesse, sub, 0)]
    case RC35 => [Code(D.HeizSystem, sub, d[32]), Code(D.FuehrungsGroesse, sub, d[33])]
    case RCUnknown => []
  }

  function RoomValues(sub: D.SubType, d: seq<byte>): seq<D.EmsValue>
    requires |d| == 42
  {
    [ Degrees(D.NachtTemp, sub, 2, d[1]), Degrees(D.TagTemp, sub, 2, d[2]), Degrees(D.UrlaubTemp, sub, 2, d[3]),
      Degrees(D.RaumEinfluss, sub, 2, d[4]), Degrees(D.RaumOffset, sub, 2, d[6]), Code(D.Betriebsart, sub, d[7]),
      Flag(D.Estrichtrocknung, sub, d[8] % 2 == 1) ]
  }

  function FlowValues(sub: D.SubType, d: seq<byte>, shifted: bool): seq<D.EmsValue>
    requires |d| == 42
  {
    [ Degrees(D.MaxTemp, sub, 1, d[if shifted then 35 else 15]),
      Degrees(D.AuslegungsTemp, sub, 1, d[if shifted then 36 else 17]), Degrees(D.MinTemp, sub, 1, d[16]),
      Flag(D.SchaltzeitOptimierung, sub, d[19] / 2 % 2 == 1), Degrees(D.SchwelleSommerWinter, sub, 1, d[22]),
      Degrees(D.FrostSchutzTemp, sub, 1, d[23]) ]
  }

  function ReductionValues(sub: D.SubType, d: seq<byte>): seq<D.EmsValue>
    requires |d| == 42
  {
    [ Code(D.AbsenkModus, sub, d[25]), Code(D.FBTyp, sub, d[26]),
      Code(D.Frostschutz, sub, d[28]), Degrees(D.RaumUebersteuerTemp, sub, 2, d[37]),
      Degrees(D.AbsenkungsAbbruchTemp, sub, 1, d[38]), Degrees(D.AbsenkungsSchwellenTemp, sub, 1, d[39]),
      Degrees(D.UrlaubAbsenkungsSchwellenTemp, sub, 1, d[40]), Code(D.UrlaubAbsenkungsArt, sub, d[41]) ]
  }

  function CircuitValues(sub: D.SubType, d: seq<byte>, shifted: bool): seq<D.EmsValue>
    requires |d| == 42
  {
    RoomValues(sub, d) + FlowValues(sub, d, shifted) + ReductionValues(sub, d)
  }

  /** Floor heating, as far as known: the last valid heating system of the circuit was number 3. */
  predicate FloorHeating(snapshot: D.Cache, sub: D.SubType) {
    (D.HeizSystem, sub) in snapshot
    && snapshot[(D.HeizSystem, sub)].0.valid && snapshot[(D.HeizSystem, sub)].0.reading == D.Enumeration(3)
  }

  lemma {:induction false} EmitConcat(m: EmsMessage, a: seq<D.Field>, b: seq<D.Field>)
    ensures D.EmitAll(m, a + b) == D.EmitAll(m, a) + D.EmitAll(m, b)
    decreases |b|
  {
    hide D.Emit;
    if b == [] {
      assert a + b == a;
    } else {
      var n := |b| - 1;
      EmitConcat(m, a, b[..n]);
      assert (a + b)[..|a| + n] == a + b[..n];
    }
  }

  lemma RoomEach(m: EmsMessage, sub: D.SubType)
    requires m.offset == 0 && |m.data| == 42
    ensures D.EmitAll(m, D.OpmodeRoom(sub)) == RoomValues(sub, m.data)
  {
    hide D.Emit, D.EmitAll;
    ByteFields(m, 1); ByteFields(m, 2); ByteFields(m, 3); ByteFields(m, 4);
    ByteFields(m, 6); ByteFields(m, 7); ByteFields(m, 8);
    EmitEach(m, D.OpmodeRoom(sub), RoomValues(sub, m.data));
  }

  lemma FlowEach(m: EmsMessage, shifted: bool, sub: D.SubType)
    requires m.offset == 0 && |m.data| == 42
    ensures D.EmitAll(m, D.OpmodeFlow(shifted, sub)) == FlowValues(sub, m.data, shifted)
  {
    hide D.Emit, D.EmitAll;
    ByteFields(m, if shifted then 35 else 15); ByteFields(m, if shifted then 36 else 17);
    ByteFields(m, 16); ByteFields(m, 19); ByteFields(m, 22); ByteFields(m, 23);
    EmitEach(m, D.OpmodeFlow(shifted, sub), FlowValues(sub, m.data, shifted));
  }

  lemma ReductionEach(m: EmsMessage, sub: D.SubType)
    requires m.offset == 0 && |m.data| == 42
    ensures D.EmitAll(m, D.OpmodeReduction(sub)) == ReductionValues(sub, m.data)
  {
    hide D.Emit, D.EmitAll;
    ByteFields(m, 25); ByteFields(m, 26); ByteFields(m, 28); ByteFields(m, 37);
    ByteFields(m, 38); ByteFields(m, 39); ByteFields(m, 40); ByteFields(m, 41);
    EmitEach(m, D.OpmodeReduction(sub), ReductionValues(sub, m.data));
  }

  lemma TailEach(m: EmsMessage, rc: D.RoomController, floor: bool, sub: D.SubType)
    requires m.offset == 0 && |m.data| == 42
    ensures D.EmitAll(m, D.OpmodeTail(rc, floor, sub)) == CircuitValues(sub, m.data, rc == D.RC35 && floor)
  {
    hide D.Emit, D.EmitAll, D.OpmodeRoom, D.OpmodeFlow, D.OpmodeReduction, RoomValues, FlowValues, ReductionValues;
    var shifted := rc == D.RC35 && floor;
    RoomEach(m, sub);
    FlowEach(m, shifted, sub);
    ReductionEach(m, sub);
    EmitConcat(m, D.OpmodeRoom(sub), D.OpmodeFlow(shifted, sub));
    EmitConcat(m, D.OpmodeRoom(sub) + D.OpmodeFlow(shifted, sub), D.OpmodeReduction(sub));
  }

  /** A heating circuit's settings; types 0x3d, 0x47, 0x51, 0x5b are circuits 1 to 4. */
  lemma CircuitSettings(hk: R.Circuit, dest: byte, d: seq<byte>, rc: D.RoomController, snapshot: D.Cache)
    requires dest < 128 && |d| == 42
    ensures var m := EmsMessage(0x10, dest, CircuitType(hk), 0, d);
            var sub := W.SubOf(hk);
            D.Covered(m) && D.Values(m, rc, snapshot) ==
              SystemValues(rc, sub, d) + CircuitValues(sub, d, rc == D.RC35 && FloorHeating(snapshot, sub))
  {
    hide D.Emit, D.EmitAll, D.OpmodeTail, CircuitValues;
    var m := EmsMessage(0x10, dest, CircuitType(hk), 0, d);
    ByteFields(m, 32);
    ByteFields(m, 33);
    TailEach(m, rc, D.IsFloorHeating(snapshot, W.SubOf(hk)), W.SubOf(hk));
  }

  /** Error messages of the boiler are types 0x10 and 0x11; a message that asks for a reply, and an
      all-zero header, say nothing. */
  lemma OtherMessages(m: EmsMessage, rc: D.RoomController, snapshot: D.Cache)
    ensures m.source == 0x08 && m.dest < 128 && m.typ in {0x10, 0x11} ==>
              D.Covered(m) && D.Values(m, rc, snapshot) == D.ErrorEntries(m, D.FirstRecord(m))
    ensures m.dest >= 128 || (m.source == 0 && m.dest == 0 && m.typ == 0) ==>
              D.Covered(m) && D.Values(m, rc, snapshot) == []
  {
  }

  // ---- Records as lines ----

  /** The bytes of a schedule entry: on or off in the low four bits, the day in the high ones, the time. */
  function EntryOf(r: seq<byte>): T.ScheduleEntry
    requires |r| == 2
  {
    T.ScheduleEntry(r[0] % 16, r[0] / 16, r[1])
  }

  /** A record ends a list exactly if it prints as nothing: a switching time that is unset, an error slot
      whose first byte is zero. */
  lemma EmptyRecordExactly(r: seq<byte>)
    ensures |r| == 2 && EntryOf(r).day < 14 ==>
              (R.EmptyRecord(R.ScheduleEntry, r) <==> T.PrintSchedule(EntryOf(r)) == "")
    ensures |r| == 2 ==> (R.EmptyRecord(R.ScheduleEntry, r) <==> r[1] >= 0x90)
    ensures |r| == 2 && T.Normal(EntryOf(r)) ==> !R.EmptyRecord(R.ScheduleEntry, r)
    ensures |r| == 2 && EntryOf(r) == T.ScheduleEntry(7, 14, 0x90) ==> R.EmptyRecord(R.ScheduleEntry, r)
    ensures |r| == 12 ==> (R.EmptyRecord(R.ErrorRecord, r) <==> r[0] == 0)
  {
    if |r| == 2 && EntryOf(r).day < 14 {
      T.ScheduleText(EntryOf(r));
    }
  }

  /** Error lists are marked L, B, S and D; the types of their messages follow each other. */
  lemma ErrorLetters()
    ensures R.ErrorPrefix(0x10) == "L" && R.ErrorPrefix(0x11) == "B" && R.ErrorPrefix(0x12) == "S"
    ensures R.ErrorPrefix(0x13) == "D"
  {
  }
}
