/** Message decoding (collector/EmsMessage.cpp), for the messages the write-through path needs, and the
    value cache behind it. */
module Decode {
  import opened Bytes
  import opened Wrappers
  import opened Messages
  import opened Numbers

  datatype ValueType =
    | SetTemp | MinTemp | MaxTemp | TagTemp | NachtTemp | UrlaubTemp | RaumEinfluss | RaumOffset
    | MinModulation | MaxModulation | EinschaltHysterese | AusschaltHysterese
    | SchwelleSommerWinter | FrostSchutzTemp | AuslegungsTemp | RaumUebersteuerTemp
    | AbsenkungsSchwellenTemp | UrlaubAbsenkungsSchwellenTemp | AbsenkungsAbbruchTemp
    | AntipendelZeit | NachlaufZeit
    | KesselSchalter | Estrichtrocknung | SchaltzeitOptimierung | ATDaempfung
    | Betriebsart | GebaeudeArt | AbsenkModus | HeizSystem | FuehrungsGroesse | UrlaubAbsenkungsArt
    | Frostschutz | FBTyp
    | Fehler

  datatype SubType = NoSub | HK1 | HK2 | HK3 | HK4 | Brenner | Kessel | KesselPumpe | RC

  datatype Reading =
    | Numeric(value: int, divider: int)
    | Integer(count: int)
    | Boolean(on: bool)
    | Enumeration(code: byte)
    | Error(list: byte, index: nat, record: seq<byte>)

  datatype EmsValue = EmsValue(typ: ValueType, sub: SubType, reading: Reading, valid: bool)

  /** One parse call: where the field is, what it holds, what it is called. */
  datatype Field =
    | NumericField(offset: nat, size: nat, divider: int, isSigned: bool, typ: ValueType, sub: SubType,
                   invalid: seq<seq<byte>>)
    | BoolField(offset: nat, bit: nat, typ: ValueType, sub: SubType)
    | EnumField(offset: nat, typ: ValueType, sub: SubType)

  datatype RoomController = RCUnknown | RC30 | RC35

  type Cache = map<(ValueType, SubType), (EmsValue, int)>

  // ---- Windowed field access ----

  /** The field lies inside the part of the parameter memory a message carries. */
  predicate CanAccess(m: EmsMessage, offset: nat, size: nat) {
    offset >= m.offset && offset + size <= m.offset + |m.data|
  }

  function WindowBytes(m: EmsMessage, offset: nat, size: nat): (s: seq<byte>)
    requires CanAccess(m, offset, size)
    ensures |s| == size
  {
    m.data[offset - m.offset..offset - m.offset + size]
  }

  function SizeOf(f: Field): nat {
    if f.NumericField? then f.size else 1
  }

  predicate BitSet(b: byte, bit: nat) {
    b / Pow2(bit) % 2 == 1
  }

  function NumericReading(value: int, divider: int): Reading {
    if divider == 0 then Integer(value % 0x1_0000_0000) else Numeric(value, divider)
  }

  /** The value a field has in a window, if it is in the window at all. */
  function Emit(m: EmsMessage, f: Field): seq<EmsValue> {
    if !CanAccess(m, f.offset, SizeOf(f)) then []
    else
      var bytes := WindowBytes(m, f.offset, SizeOf(f));
      match f
      case NumericField(_, _, divider, isSigned, typ, sub, invalid) =>
        var n := Decoded(bytes, isSigned, invalid);
        [EmsValue(typ, sub, NumericReading(n.value, divider), n.valid)]
      case BoolField(_, bit, typ, sub) => [EmsValue(typ, sub, Boolean(BitSet(bytes[0], bit)), true)]
      case EnumField(_, typ, sub) => [EmsValue(typ, sub, Enumeration(bytes[0]), true)]
  }

  /** The message carries the bytes of the memory from its offset on. */
  ghost predicate WindowOf(m: EmsMessage, mem: seq<byte>) {
    m.offset + |m.data| <= |mem| && m.data == mem[m.offset..m.offset + |m.data|]
  }

  lemma WindowSlice(m: EmsMessage, mem: seq<byte>, offset: nat, size: nat)
    requires WindowOf(m, mem) && m.offset <= offset && offset + size <= m.offset + |m.data|
    ensures m.data[offset - m.offset..offset - m.offset + size] == mem[offset..offset + size]
  {
    var start := offset - m.offset;
    var a, b := m.data[start..start + size], mem[offset..offset + size];
    forall i | 0 <= i < size ensures a[i] == b[i] {
      assert m.data[start + i] == mem[m.offset + (start + i)];
    }
  }

  /** Whatever window of a device's memory a message carries: a field that lies in it has the value of its
      own place in the memory, and a field that does not has none. */
  lemma FieldShown(m: EmsMessage, mem: seq<byte>, f: Field)
    requires WindowOf(m, mem)
    ensures var size := if f.NumericField? then f.size else 1;
            var inside := m.offset <= f.offset && f.offset + size <= m.offset + |m.data|;
            && (!inside ==> Emit(m, f) == [])
            && (inside ==>
                  && f.offset + size <= |mem|
                  && |Emit(m, f)| == 1
                  && var v := Emit(m, f)[0];
                  && v.typ == f.typ && v.sub == f.sub
                  && match f
                     case NumericField(_, _, divider, isSigned, _, _, invalid) =>
                       var n := Decoded(mem[f.offset..f.offset + size], isSigned, invalid);
                       v.valid == n.valid
                       && v.reading == (if divider == 0 then Integer(n.value % 0x1_0000_0000)
                                        else Numeric(n.value, divider))
                     case BoolField(_, bit, _, _) => v.valid && v.reading == Boolean(mem[f.offset] / Pow2(bit) % 2 == 1)
                     case EnumField(_, _, _) => v.valid && v.reading == Enumeration(mem[f.offset]))
  {
    hide Decoded, Pow2;
    if CanAccess(m, f.offset, SizeOf(f)) {
      WindowSlice(m, mem, f.offset, SizeOf(f));
    }
  }

  function EmitAll(m: EmsMessage, fs: seq<Field>): seq<EmsValue> {
    if fs == [] then [] else EmitAll(m, fs[..|fs| - 1]) + Emit(m, fs[|fs| - 1])
  }

  lemma EmitSnoc(m: EmsMessage, fs: seq<Field>, f: Field)
    ensures EmitAll(m, fs + [f]) == EmitAll(m, fs) + Emit(m, f)
  {
    assert (fs + [f])[..|fs|] == fs;
  }

  // ---- Field layouts ----

  function Num(offset: nat, divider: int, typ: ValueType, sub: SubType): Field {
    NumericField(offset, 1, divider, true, typ, sub, [])
  }

  function Int(offset: nat, typ: ValueType, sub: SubType): Field {
    NumericField(offset, 1, 0, false, typ, sub, [])
  }

  /** Fields of a heating circuit's settings after the heating system; with an RC35 and floor heating,
      two of them are somewhere else. */
  function OpmodeTail(rc: RoomController, floor: bool, sub: SubType): seq<Field> {
    OpmodeRoom(sub) + OpmodeFlow(rc == RC35 && floor, sub) + OpmodeReduction(sub)
  }

  function OpmodeRoom(sub: SubType): seq<Field> {
    [ Num(1, 2, NachtTemp, sub), Num(2, 2, TagTemp, sub), Num(3, 2, UrlaubTemp, sub),
      Num(4, 2, RaumEinfluss, sub), Num(6, 2, RaumOffset, sub), EnumField(7, Betriebsart, sub),
      BoolField(8, 0, Estrichtrocknung, sub) ]
  }

  function OpmodeFlow(shifted: bool, sub: SubType): seq<Field> {
    [ Num(if shifted then 35 else 15, 1, MaxTemp, sub), Num(if shifted then 36 else 17, 1, AuslegungsTemp, sub),
      Num(16, 1, MinTemp, sub), BoolField(19, 1, SchaltzeitOptimierung, sub),
      Num(22, 1, SchwelleSommerWinter, sub), Num(23, 1, FrostSchutzTemp, sub) ]
  }

  function OpmodeReduction(sub: SubType): seq<Field> {
    [ EnumField(25, AbsenkModus, sub), EnumField(26, FBTyp, sub), EnumField(28, Frostschutz, sub),
      Num(37, 2, RaumUebersteuerTemp, sub), Num(38, 1, AbsenkungsAbbruchTemp, sub),
      Num(39, 1, AbsenkungsSchwellenTemp, sub), Num(40, 1, UrlaubAbsenkungsSchwellenTemp, sub),
      EnumField(41, UrlaubAbsenkungsArt, sub) ]
  }

  /** The RC30 keeps heating system and controlling value in one byte. */
  function Rc30System(m: EmsMessage, sub: SubType): seq<EmsValue> {
    if !CanAccess(m, 0, 1) then []
    else
      var value := m.data[0];
      var indoor := value == 4 || value == 5;
      [ EmsValue(HeizSystem, sub, Enumeration(if indoor then 0 else value), true),
        EmsValue(FuehrungsGroesse, sub, Enumeration(if indoor then 1 else 0), true) ]
  }

  function OpmodeHead(m: EmsMessage, rc: RoomController, sub: SubType): seq<EmsValue> {
    match rc
    case RC30 => Rc30System(m, sub)
    case RC35 => Emit(m, EnumField(32, HeizSystem, sub)) + Emit(m, EnumField(33, FuehrungsGroesse, sub))
    case RCUnknown => []
  }

  function UbaParameters(): seq<Field> {
    [ BoolField(0, 1, KesselSchalter, Kessel), Num(1, 1, SetTemp, Kessel), Int(2, MaxModulation, Brenner),
      Int(3, MinModulation, Brenner), Num(4, 1, AusschaltHysterese, Kessel),
      Num(5, 1, EinschaltHysterese, Kessel), Int(6, AntipendelZeit, NoSub), Int(8, NachlaufZeit, KesselPumpe),
      Int(9, MaxModulation, KesselPumpe), Int(10, MinModulation, KesselPumpe) ]
  }

  function RcParameters(): seq<Field> {
    [ Num(5, 1, MinTemp, RC), EnumField(6, GebaeudeArt, RC), BoolField(21, 1, ATDaempfung, RC) ]
  }

  // ---- Error records ----

  const RECORD_SIZE: nat := 12

  /** Index of the first record that does not begin before the window. */
  function FirstRecord(m: EmsMessage): nat {
    (m.offset + RECORD_SIZE - 1) / RECORD_SIZE
  }

  /** Record `k` lies completely inside the window. */
  predicate RecordInside(m: EmsMessage, k: nat) {
    m.offset <= k * RECORD_SIZE && k * RECORD_SIZE + RECORD_SIZE <= m.offset + |m.data|
  }

  function ErrorEntry(m: EmsMessage, k: nat): EmsValue
    requires RecordInside(m, k)
  {
    EmsValue(Fehler, NoSub, Error(m.typ, k, WindowBytes(m, k * RECORD_SIZE, RECORD_SIZE)), true)
  }

  /** The entries of records `from`, `from` + 1, ... as far as they are inside. */
  function ErrorEntries(m: EmsMessage, from: nat): seq<EmsValue>
    decreases m.offset + |m.data| - from * RECORD_SIZE
  {
    if RecordInside(m, from) then [ErrorEntry(m, from)] + ErrorEntries(m, from + 1) else []
  }

  /** Exactly the records inside the window, in increasing order, each with its own bytes. */
  lemma {:induction false} ErrorEntriesExactly(m: EmsMessage, from: nat)
    requires m.offset <= from * RECORD_SIZE
    ensures var es := ErrorEntries(m, from);
            && (forall i | 0 <= i < |es| :: RecordInside(m, from + i) && es[i] == ErrorEntry(m, from + i))
            && (forall k: nat | from <= k :: RecordInside(m, k) <==> k < from + |es|)
    decreases m.offset + |m.data| - from * RECORD_SIZE
  {
    if RecordInside(m, from) {
      ErrorEntriesExactly(m, from + 1);
      var es, rest := ErrorEntries(m, from), ErrorEntries(m, from + 1);
      forall i | 0 <= i < |es| ensures RecordInside(m, from + i) && es[i] == ErrorEntry(m, from + i) {
        if i > 0 {
          assert es[i] == rest[i - 1] && from + 1 + (i - 1) == from + i;
        }
      }
    }
  }

  /** No record inside the window comes before the first one looked at. */
  lemma FirstRecordFirst(m: EmsMessage)
    ensures m.offset <= FirstRecord(m) * RECORD_SIZE
    ensures forall k: nat :: RecordInside(m, k) ==> FirstRecord(m) <= k
  {
  }

  /** The error message, over the whole index range and against the device's memory: exactly the records
      of 12 bytes that lie inside the window, in increasing order, each with the bytes of its own place. */
  lemma ErrorWindow(m: EmsMessage, mem: seq<byte>)
    requires WindowOf(m, mem)
    ensures var es, first := ErrorEntries(m, FirstRecord(m)), FirstRecord(m);
            && (forall k: nat ::
                  (m.offset <= 12 * k && 12 * k + 12 <= m.offset + |m.data|) <==> first <= k < first + |es|)
            && (forall i | 0 <= i < |es| ::
                  12 * (first + i) + 12 <= |mem|
                  && es[i] == EmsValue(Fehler, NoSub,
                                       Error(m.typ, first + i, mem[12 * (first + i)..12 * (first + i) + 12]), true))
  {
    var es, first := ErrorEntries(m, FirstRecord(m)), FirstRecord(m);
    FirstRecordFirst(m);
    ErrorEntriesExactly(m, first);
    forall i | 0 <= i < |es|
      ensures 12 * (first + i) + 12 <= |mem|
      ensures es[i] == EmsValue(Fehler, NoSub,
                                Error(m.typ, first + i, mem[12 * (first + i)..12 * (first + i) + 12]), true)
    {
      var start := 12 * (first + i);
      assert RecordInside(m, first + i);
      WindowSlice(m, mem, start, 12);
    }
    forall k: nat
      ensures (m.offset <= 12 * k && 12 * k + 12 <= m.offset + |m.data|) <==> first <= k < first + |es|
    {
      assert RecordInside(m, k) <==> first <= k < first + |es|;
    }
  }

  // ---- Dispatch ----

  function CircuitOf(typ: byte): SubType {
    match typ case 0x3d => HK1 case 0x47 => HK2 case 0x51 => HK3 case _ => HK4
  }

  predicate IsOpmode(m: EmsMessage) {
    m.source == ADDRESS_RC3X && m.typ in {0x3d, 0x47, 0x51, 0x5b}
  }

  predicate IsUbaErrors(m: EmsMessage) {
    m.source == ADDRESS_UBA && m.typ in {0x10, 0x11}
  }

  /** Not a message at all, or a poll: nothing is decoded. */
  predicate Ignored(m: EmsMessage) {
    (m.source == 0 && m.dest == 0 && m.typ == 0) || m.dest >= 128
  }

  /** Message types whose fields are part of this model. */
  predicate Covered(m: EmsMessage) {
    Ignored(m) || IsUbaErrors(m) || IsOpmode(m)
    || (m.source == ADDRESS_UBA && m.typ == 0x16) || (m.source == ADDRESS_RC3X && m.typ == 0xa5)
  }

  function Lookup(cache: Cache, typ: ValueType, sub: SubType): Option<EmsValue> {
    if (typ, sub) in cache then Some(cache[(typ, sub)].0) else None
  }

  predicate IsFloorHeating(cache: Cache, sub: SubType) {
    Lookup(cache, HeizSystem, sub).Some? &&
    var v := Lookup(cache, HeizSystem, sub).value;
    v.valid && v.reading == Enumeration(3)
  }

  /** All values of a message, in order. `snapshot` is the cache as it was when the handler was made. */
  function Values(m: EmsMessage, rc: RoomController, snapshot: Cache): seq<EmsValue>
    requires Covered(m)
  {
    if Ignored(m) then []
    else if IsUbaErrors(m) then ErrorEntries(m, FirstRecord(m))
    else if IsOpmode(m) then
      var sub := CircuitOf(m.typ);
      OpmodeHead(m, rc, sub) + EmitAll(m, OpmodeTail(rc, IsFloorHeating(snapshot, sub), sub))
    else if m.source == ADDRESS_UBA then EmitAll(m, UbaParameters())
    else EmitAll(m, RcParameters())
  }

  /** The cache after the values, one after the other. */
  function Store(cache: Cache, values: seq<EmsValue>, now: int): Cache {
    if values == [] then cache
    else
      var v := values[|values| - 1];
      Store(cache, values[..|values| - 1], now)[(v.typ, v.sub) := (v, now)]
  }

  function KeyOf(v: EmsValue): (ValueType, SubType) {
    (v.typ, v.sub)
  }

  /** No later value has the same key. */
  predicate LastOfItsKey(values: seq<EmsValue>, i: nat) {
    i < |values| && forall j | i < j < |values| :: KeyOf(values[j]) != KeyOf(values[i])
  }

  /** What a message does to the cache: under the key of each of its values is the last one with that key,
      with the time, and under every other key is what was there before. */
  ghost predicate CacheAfter(before: Cache, after: Cache, values: seq<EmsValue>, now: int) {
    && (forall i: nat | LastOfItsKey(values, i) ::
          KeyOf(values[i]) in after && after[KeyOf(values[i])] == (values[i], now))
    && (forall key | key in after && HasNot(values, key) :: key in before && after[key] == before[key])
    && (forall key | key in before :: key in after)
    && (forall key | key in after && key !in before :: !HasNot(values, key))
  }

  predicate HasNot(values: seq<EmsValue>, key: (ValueType, SubType)) {
    forall i | 0 <= i < |values| :: KeyOf(values[i]) != key
  }

  lemma {:induction false} StoreIs(cache: Cache, values: seq<EmsValue>, now: int)
    ensures CacheAfter(cache, Store(cache, values, now), values, now)
  {
    if values != [] {
      var n := |values| - 1;
      var before, after := Store(cache, values[..n], now), Store(cache, values, now);
      StoreIs(cache, values[..n], now);
      forall i: nat | LastOfItsKey(values, i)
        ensures KeyOf(values[i]) in after && after[KeyOf(values[i])] == (values[i], now)
      {
        if i < n {
          assert LastOfItsKey(values[..n], i);
        }
      }
      forall key | key in after && HasNot(values, key) ensures key in cache && after[key] == cache[key] {
        assert key != KeyOf(values[n]);
        assert HasNot(values[..n], key);
      }
      forall key | key in after && key !in cache ensures !HasNot(values, key) {
        if key != KeyOf(values[n]) {
          var i :| 0 <= i < n && KeyOf(values[..n][i]) == key;
          assert KeyOf(values[i]) == key;
        }
      }
    }
  }

  // ---- The objects ----

  class ValueCache {
    var cache: Cache

    constructor ()
      ensures cache == map[]
    {
      cache := map[];
    }

    method HandleValue(value: EmsValue, now: int)
      modifies this
      ensures cache == old(cache)[(value.typ, value.sub) := (value, now)]
    {
      var key := (value.typ, value.sub);
      cache := cache - {key};
      cache := cache[key := (value, now)];
    }
  }

  /** The parse methods of EmsMessage; `emitted` are the values handed to the value handler. */
  class MessageParser {
    const m: EmsMessage
    const rc: RoomController
    const snapshot: Cache
    var emitted: seq<EmsValue>
    ghost var head: seq<EmsValue>
    ghost var parsed: seq<Field>

    ghost predicate Valid()
      reads this
    {
      emitted == head + EmitAll(m, parsed)
    }

    constructor (data: seq<byte>, rc: RoomController, snapshot: Cache)
      ensures Valid() && m == FromBytes(data) && this.rc == rc && this.snapshot == snapshot
      ensures emitted == [] && head == [] && parsed == []
    {
      this.m, this.rc, this.snapshot := FromBytes(data), rc, snapshot;
      emitted, head, parsed := [], [], [];
    }

    method ParseNumeric(offset: nat, size: nat, divider: int, typ: ValueType, sub: SubType, isSigned: bool,
                        invalid: seq<seq<byte>> := [])
      requires Valid() && 1 <= size <= 3
      modifies this
      ensures Valid() && head == old(head)
      ensures parsed == old(parsed) + [NumericField(offset, size, divider, isSigned, typ, sub, invalid)]
    {
      hide Decoded, EmitAll;
      EmitSnoc(m, parsed, NumericField(offset, size, divider, isSigned, typ, sub, invalid));
      if CanAccess(m, offset, size) {
        var n := DecodeNumber(WindowBytes(m, offset, size), isSigned, invalid);
        emitted := emitted + [EmsValue(typ, sub, NumericReading(n.value, divider), n.valid)];
      }
      parsed := parsed + [NumericField(offset, size, divider, isSigned, typ, sub, invalid)];
    }

    method ParseInteger(offset: nat, size: nat, typ: ValueType, sub: SubType)
      requires Valid() && 1 <= size <= 3
      modifies this
      ensures Valid() && head == old(head)
      ensures parsed == old(parsed) + [NumericField(offset, size, 0, false, typ, sub, [])]
    {
      ParseNumeric(offset, size, 0, typ, sub, false);
    }

    method ParseBool(offset: nat, bit: nat, typ: ValueType, sub: SubType)
      requires Valid()
      modifies this
      ensures Valid() && head == old(head) && parsed == old(parsed) + [BoolField(offset, bit, typ, sub)]
    {
      hide BitSet, EmitAll;
      EmitSnoc(m, parsed, BoolField(offset, bit, typ, sub));
      if CanAccess(m, offset, 1) {
        emitted := emitted + [EmsValue(typ, sub, Boolean(BitSet(m.data[offset - m.offset], bit)), true)];
      }
      parsed := parsed + [BoolField(offset, bit, typ, sub)];
    }

    method ParseEnum(offset: nat, typ: ValueType, sub: SubType)
      requires Valid()
      modifies this
      ensures Valid() && head == old(head) && parsed == old(parsed) + [EnumField(offset, typ, sub)]
    {
      hide EmitAll;
      EmitSnoc(m, parsed, EnumField(offset, typ, sub));
      if CanAccess(m, offset, 1) {
        emitted := emitted + [EmsValue(typ, sub, Enumeration(m.data[offset - m.offset]), true)];
      }
      parsed := parsed + [EnumField(offset, typ, sub)];
    }

    method ParseUBAErrorMessage()
      modifies this
      ensures emitted == old(emitted) + ErrorEntries(m, FirstRecord(m))
    {
      var start: nat := m.offset;
      if start % RECORD_SIZE != 0 {
        start := (start / RECORD_SIZE + 1) * RECORD_SIZE;
      }
      ghost var k := FirstRecord(m);
      ghost var before := emitted;
      while CanAccess(m, start, RECORD_SIZE)
        invariant start == k * RECORD_SIZE && m.offset <= start
        invariant emitted + ErrorEntries(m, k) == before + ErrorEntries(m, FirstRecord(m))
        decreases m.offset + |m.data| - start
      {
        var index := start / RECORD_SIZE;
        var entry := EmsValue(Fehler, NoSub, Error(m.typ, index, WindowBytes(m, start, RECORD_SIZE)), true);
        assert index == k && entry == ErrorEntry(m, k);
        assert emitted + ([entry] + ErrorEntries(m, k + 1)) == (emitted + [entry]) + ErrorEntries(m, k + 1);
        emitted := emitted + [entry];
        start := start + RECORD_SIZE;
        k := k + 1;
      }
      assert emitted + [] == emitted;
    }

    method ParseUBAParametersMessage()
      requires Valid() && parsed == []
      modifies this
      ensures Valid() && head == old(head) && parsed == UbaParameters()
    {
      hide Valid;
      ParseBool(0, 1, KesselSchalter, Kessel);
      ParseNumeric(1, 1, 1, SetTemp, Kessel, true);
      ParseInteger(2, 1, MaxModulation, Brenner);
      ParseInteger(3, 1, MinModulation, Brenner);
      ParseNumeric(4, 1, 1, AusschaltHysterese, Kessel, true);
      ParseNumeric(5, 1, 1, EinschaltHysterese, Kessel, true);
      ParseInteger(6, 1, AntipendelZeit, NoSub);
      ParseInteger(8, 1, NachlaufZeit, KesselPumpe);
      ParseInteger(9, 1, MaxModulation, KesselPumpe);
      ParseInteger(10, 1, MinModulation, KesselPumpe);
    }

    method ParseRCSystemParameterMessage()
      requires Valid() && parsed == []
      modifies this
      ensures Valid() && head == old(head) && parsed == RcParameters()
    {
      hide Valid;
      ParseNumeric(5, 1, 1, MinTemp, RC, true);
      ParseEnum(6, GebaeudeArt, RC);
      ParseBool(21, 1, ATDaempfung, RC);
    }

    method ParseRCHKOpmodeMessage(sub: SubType)
      requires Valid() && parsed == [] && head == []
      modifies this
      ensures emitted == OpmodeHead(m, rc, sub) + EmitAll(m, OpmodeTail(rc, IsFloorHeating(snapshot, sub), sub))
    {
      ParseSystem(sub);
      var systemValue := if (HeizSystem, sub) in snapshot then Some(snapshot[(HeizSystem, sub)].0) else None;
      var isFloorHeating := systemValue.Some? && systemValue.value.valid && systemValue.value.reading == Enumeration(3);
      ParseOpmodeFields(sub, isFloorHeating);
    }

    /** Heating system and controlling value, which the two controllers keep in different places. */
    method ParseSystem(sub: SubType)
      requires Valid() && parsed == [] && head == []
      modifies this
      ensures Valid() && parsed == [] && head == OpmodeHead(m, rc, sub)
    {
      hide EmitAll, Emit, CanAccess;
      EmitNone(m);
      if rc == RC30 && CanAccess(m, 0, 1) {
        InWindow(m);
        var value := m.data[0];
        var system: byte, roomControlled: byte := value, 0;
        if value == 4 || value == 5 {
          system := 0;
          roomControlled := 1;
        }
        emitted := emitted + [EmsValue(HeizSystem, sub, Enumeration(system), true)];
        emitted := emitted + [EmsValue(FuehrungsGroesse, sub, Enumeration(roomControlled), true)];
      } else if rc == RC35 {
        ParseEnum(32, HeizSystem, sub);
        ParseEnum(33, FuehrungsGroesse, sub);
        EmitTwo(m, EnumField(32, HeizSystem, sub), EnumField(33, FuehrungsGroesse, sub));
      }
      head, parsed := emitted, [];
      assert head == OpmodeHead(m, rc, sub);
    }

    /** The rest of parseRCHKOpmodeMessage, in three stretches. */
    method ParseOpmodeFields(sub: SubType, isFloorHeating: bool)
      requires Valid() && parsed == []
      modifies this
      ensures Valid() && head == old(head) && parsed == OpmodeTail(rc, isFloorHeating, sub)
    {
      hide Valid, OpmodeRoom, OpmodeFlow, OpmodeReduction;
      ParseRoomFields(sub);
      ParseFlowFields(sub, isFloorHeating);
      ParseReductionFields(sub);
    }

    method ParseRoomFields(sub: SubType)
      requires Valid() && parsed == []
      modifies this
      ensures Valid() && head == old(head) && parsed == OpmodeRoom(sub)
    {
      hide Valid;
      ParseNumeric(1, 1, 2, NachtTemp, sub, true);
      ParseNumeric(2, 1, 2, TagTemp, sub, true);
      ParseNumeric(3, 1, 2, UrlaubTemp, sub, true);
      ParseNumeric(4, 1, 2, RaumEinfluss, sub, true);
      ParseNumeric(6, 1, 2, RaumOffset, sub, true);
      ParseEnum(7, Betriebsart, sub);
      ParseBool(8, 0, Estrichtrocknung, sub);
    }

    method ParseFlowFields(sub: SubType, isFloorHeating: bool)
      requires Valid()
      modifies this
      ensures Valid() && head == old(head)
      ensures parsed == old(parsed) + OpmodeFlow(rc == RC35 && isFloorHeating, sub)
    {
      hide Valid;
      if rc == RC35 && isFloorHeating {
        ParseNumeric(35, 1, 1, MaxTemp, sub, true);
        ParseNumeric(36, 1, 1, AuslegungsTemp, sub, true);
      } else {
        ParseNumeric(15, 1, 1, MaxTemp, sub, true);
        ParseNumeric(17, 1, 1, AuslegungsTemp, sub, true);
      }
      ParseNumeric(16, 1, 1, MinTemp, sub, true);
      ParseBool(19, 1, SchaltzeitOptimierung, sub);
      ParseNumeric(22, 1, 1, SchwelleSommerWinter, sub, true);
      ParseNumeric(23, 1, 1, FrostSchutzTemp, sub, true);
    }

    method ParseReductionFields(sub: SubType)
      requires Valid()
      modifies this
      ensures Valid() && head == old(head) && parsed == old(parsed) + OpmodeReduction(sub)
    {
      hide Valid;
      ParseEnum(25, AbsenkModus, sub);
      ParseEnum(26, FBTyp, sub);
      ParseEnum(28, Frostschutz, sub);
      ParseNumeric(37, 1, 2, RaumUebersteuerTemp, sub, true);
      ParseNumeric(38, 1, 1, AbsenkungsAbbruchTemp, sub, true);
      ParseNumeric(39, 1, 1, AbsenkungsSchwellenTemp, sub, true);
      ParseNumeric(40, 1, 1, UrlaubAbsenkungsSchwellenTemp, sub, true);
      ParseEnum(41, UrlaubAbsenkungsArt, sub);
    }

    /** Dispatch by source and type. False for message types that are not part of this model. */
    method Handle() returns (covered: bool)
      requires Valid() && parsed == [] && head == []
      modifies this
      ensures covered == Covered(m)
      ensures covered ==> emitted == Values(m, rc, snapshot)
    {
      covered := true;
      if m.source == 0 && m.dest == 0 && m.typ == 0 {
        return;
      }
      if m.dest >= 128 {
        return;
      }
      if m.source == ADDRESS_UBA && (m.typ == 0x10 || m.typ == 0x11) {
        ParseUBAErrorMessage();
      } else if m.source == ADDRESS_UBA && m.typ == 0x16 {
        ParseUBAParametersMessage();
      } else if m.source == ADDRESS_RC3X && m.typ == 0xa5 {
        ParseRCSystemParameterMessage();
      } else if m.source == ADDRESS_RC3X && m.typ == 0x3d {
        ParseRCHKOpmodeMessage(HK1);
      } else if m.source == ADDRESS_RC3X && m.typ == 0x47 {
        ParseRCHKOpmodeMessage(HK2);
      } else if m.source == ADDRESS_RC3X && m.typ == 0x51 {
        ParseRCHKOpmodeMessage(HK3);
      } else if m.source == ADDRESS_RC3X && m.typ == 0x5b {
        ParseRCHKOpmodeMessage(HK4);
      } else {
        covered := false;
      }
    }
  }

  lemma EmitNone(m: EmsMessage)
    ensures EmitAll(m, []) == []
  {
  }

  lemma InWindow(m: EmsMessage)
    requires CanAccess(m, 0, 1)
    ensures m.data != []
  {
  }

  lemma EmitTwo(m: EmsMessage, f: Field, g: Field)
    ensures EmitAll(m, [] + [f] + [g]) == Emit(m, f) + Emit(m, g)
  {
    EmitSnoc(m, [f], g);
    EmitSnoc(m, [], f);
    assert [] + [f] == [f];
  }

  /** collector/IncomingMessageHandler.cpp, with the value cache as its one value callback. */
  class IncomingMessageHandler {
    const cache: ValueCache
    const snapshot: Cache
    const rc: RoomController

    constructor (cache: ValueCache, rc: RoomController)
      ensures this.cache == cache && this.rc == rc && snapshot == cache.cache
    {
      this.cache, this.rc, snapshot := cache, rc, cache.cache;
    }

    /** `pcMessage` is what goes on to the command scheduler, if the message is for the PC. */
    method HandleIncomingMessage(data: seq<byte>, now: int) returns (covered: bool, pcMessage: Option<EmsMessage>)
      modifies cache
      ensures covered == Covered(FromBytes(data))
      ensures covered ==> cache.cache == Store(old(cache.cache), Values(FromBytes(data), rc, snapshot), now)
      ensures covered ==> CacheAfter(old(cache.cache), cache.cache, Values(FromBytes(data), rc, snapshot), now)
      ensures pcMessage == if FromBytes(data).GetDestination() == ADDRESS_PC then Some(FromBytes(data)) else None
    {
      hide CacheAfter;
      var parser := new MessageParser(data, rc, snapshot);
      covered := parser.Handle();
      var values := parser.emitted;
      for i := 0 to |values|
        invariant cache.cache == Store(old(cache.cache), values[..i], now)
      {
        assert values[..i + 1][..i] == values[..i];
        cache.HandleValue(values[i], now);
      }
      assert values[..|values|] == values;
      StoreIs(old(cache.cache), values, now);
      pcMessage := if parser.m.GetDestination() == ADDRESS_PC then Some(parser.m) else None;
    }
  }
}
