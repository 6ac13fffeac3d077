/** The run-length encoded sensor history of collector/Database.cpp. */
module History {
  import opened Wrappers

  /** A row says: this sensor had this value from start to end. */
  datatype Row<V> = Row(id: nat, sensor: nat, value: V, start: int, end: int)

  /** One table with the maps that belong to it. */
  datatype Log<V> = Log(rows: seq<Row<V>>, cache: map<nat, V>, lastIds: map<nat, nat>)

  /** How the database answers: whether the update succeeds, and the id of a successful insert. */
  datatype Answer = Answer(updated: bool, inserted: Option<nat>)

  datatype Sample<V> = Sample(sensor: nat, value: V, now: int, answer: Answer)

  /** Ids are handed out in increasing order and are never 0. */
  predicate IdsIncreasing<V>(rows: seq<Row<V>>) {
    forall i, j | 0 <= i < j < |rows| :: rows[i].id < rows[j].id
  }

  predicate FreshId<V>(rows: seq<Row<V>>, id: nat) {
    id > 0 && forall i | 0 <= i < |rows| :: rows[i].id < id
  }

  predicate AnswerPossible<V>(log: Log<V>, answer: Answer) {
    answer.inserted.Some? ==> FreshId(log.rows, answer.inserted.value)
  }

  /** update ... set endtime = now where id = ... */
  function SetEnd<V>(rows: seq<Row<V>>, id: nat, now: int): (r: seq<Row<V>>)
    ensures |r| == |rows|
    ensures forall i | 0 <= i < |rows| :: r[i] == if rows[i].id == id then rows[i].(end := now) else rows[i]
  {
    seq(|rows|, i requires 0 <= i < |rows| => if rows[i].id == id then rows[i].(end := now) else rows[i])
  }

  predicate IdValid<V>(log: Log<V>, sensor: nat) {
    sensor in log.lastIds && log.lastIds[sensor] != 0
  }

  predicate Changed<V(==)>(log: Log<V>, sensor: nat, value: V) {
    sensor !in log.cache || log.cache[sensor] != value
  }

  /** addSensorValue, for a sample that is not held back. */
  function Record<V(==)>(log: Log<V>, s: Sample<V>): Log<V> {
    var rows := if IdValid(log, s.sensor) && s.answer.updated
                then SetEnd(log.rows, log.lastIds[s.sensor], s.now) else log.rows;
    if (Changed(log, s.sensor, s.value) || !IdValid(log, s.sensor)) && s.answer.inserted.Some? then
      var id := s.answer.inserted.value;
      Log(rows + [Row(id, s.sensor, s.value, s.now, s.now)], log.cache[s.sensor := s.value],
          log.lastIds[s.sensor := id])
    else log.(rows := rows)
  }

  // ---- Whatever the database answers ----

  /** The remembered id is that of the sensor's newest row, and the remembered value that row's value. */
  ghost predicate NamesNewest<V>(log: Log<V>, sensor: nat) {
    && (sensor in log.cache <==> sensor in log.lastIds)
    && (sensor in log.lastIds ==> log.lastIds[sensor] > 0 && exists i :: NewestAt(log, sensor, i))
  }

  predicate NewestAt<V(==)>(log: Log<V>, sensor: nat, i: int) {
    && 0 <= i < |log.rows| && sensor in log.lastIds && sensor in log.cache
    && log.rows[i].id == log.lastIds[sensor] && log.rows[i].sensor == sensor
    && log.rows[i].value == log.cache[sensor]
    && forall j | i < j < |log.rows| :: log.rows[j].sensor != sensor
  }

  lemma RecordKeepsNewest<V>(log: Log<V>, s: Sample<V>, sensor: nat)
    requires IdsIncreasing(log.rows) && NamesNewest(log, sensor) && AnswerPossible(log, s.answer)
    ensures IdsIncreasing(Record(log, s).rows) && NamesNewest(Record(log, s), sensor)
  {
    var after := Record(log, s);
    if sensor in after.lastIds {
      if sensor == s.sensor && after.lastIds != log.lastIds {
        assert NewestAt(after, sensor, |after.rows| - 1);
      } else if sensor in log.lastIds {
        var i :| NewestAt(log, sensor, i);
        if s.sensor != sensor {
          assert after.cache[sensor] == log.cache[sensor] && after.lastIds[sensor] == log.lastIds[sensor];
          assert NewestAt(after, sensor, i);
        } else {
          assert NewestAt(after, sensor, i);
        }
      }
    }
  }

  /** Samples in a row, whatever the database answers to each. */
  function RecordAll<V(==)>(log: Log<V>, samples: seq<Sample<V>>): Log<V> {
    if samples == [] then log
    else Record(RecordAll(log, samples[..|samples| - 1]), samples[|samples| - 1])
  }

  ghost predicate PossibleAnswers<V>(log: Log<V>, samples: seq<Sample<V>>) {
    forall k | 0 <= k < |samples| :: AnswerPossible(RecordAll(log, samples[..k]), samples[k].answer)
  }

  lemma PossiblePrefix<V>(log: Log<V>, samples: seq<Sample<V>>)
    requires PossibleAnswers(log, samples) && samples != []
    ensures var n := |samples| - 1;
            PossibleAnswers(log, samples[..n]) && AnswerPossible(RecordAll(log, samples[..n]), samples[n].answer)
  {
    hide RecordAll;
    var before := samples[..|samples| - 1];
    forall k | 0 <= k < |before| ensures before[..k] == samples[..k] && before[k] == samples[k] {
    }
  }

  /** On top of whatever rows are there, however queries fail: a sensor's id always names its newest row. */
  lemma {:induction false} AlwaysNamesNewest<V>(log: Log<V>, samples: seq<Sample<V>>, sensor: nat)
    requires IdsIncreasing(log.rows) && log.cache == map[] && log.lastIds == map[]
    requires PossibleAnswers(log, samples)
    ensures IdsIncreasing(RecordAll(log, samples).rows) && NamesNewest(RecordAll(log, samples), sensor)
    decreases |samples|
  {
    hide Record;
    if samples != [] {
      var n := |samples| - 1;
      PossiblePrefix(log, samples);
      AlwaysNamesNewest(log, samples[..n], sensor);
      RecordKeepsNewest(RecordAll(log, samples[..n]), samples[n], sensor);
    }
  }

  /** After a sample, the sensor's newest row shows it exactly if the value had not changed or the insert
      succeeded. It reaches up to it if a query that concerns it succeeded, and is as it was otherwise. */
  lemma SampleShownExactly<V>(log: Log<V>, s: Sample<V>, i: int)
    requires IdsIncreasing(log.rows) && NamesNewest(log, s.sensor) && AnswerPossible(log, s.answer)
    requires NewestAt(Record(log, s), s.sensor, i)
    ensures var row := Record(log, s).rows[i];
            var isNew := Changed(log, s.sensor, s.value) || s.sensor !in log.lastIds;
            && (row.value == s.value <==> !isNew || s.answer.inserted.Some?)
            && (if s.answer.updated || (isNew && s.answer.inserted.Some?)
                then row.end == s.now else i < |log.rows| && row == log.rows[i])
  {
    var after := Record(log, s);
    if |after.rows| > |log.rows| {
      assert i == |after.rows| - 1;
    } else {
      assert after.rows[i].id == log.rows[i].id;
      var k :| NewestAt(log, s.sensor, k);
      assert k == i;
    }
  }

  // ---- When all queries succeed ----

  /** The rows of one sensor, in order. */
  function RowsOf<V>(rows: seq<Row<V>>, sensor: nat): seq<Row<V>> {
    if rows == [] then []
    else RowsOf(rows[..|rows| - 1], sensor)
         + (if rows[|rows| - 1].sensor == sensor then [rows[|rows| - 1]] else [])
  }

  /** No gaps, no two equal rows next to each other. */
  predicate Gapless<V(==)>(rows: seq<Row<V>>) {
    && (forall i | 0 <= i < |rows| :: rows[i].start <= rows[i].end)
    && (forall i | 0 <= i < |rows| - 1 ::
          rows[i].end == rows[i + 1].start && rows[i].value != rows[i + 1].value)
  }

  predicate Covers<V(==)>(row: Row<V>, value: V, now: int) {
    row.value == value && row.start <= now <= row.end
  }

  /** The rows a sensor has after a sample of its own, both queries succeeding. */
  function Extended<V(==)>(own: seq<Row<V>>, s: Sample<V>): seq<Row<V>>
    requires s.answer.inserted.Some?
  {
    var n := |own| - 1;
    var longer := if own == [] then own else own[n := own[n].(end := s.now)];
    if own == [] || own[n].value != s.value
    then longer + [Row(s.answer.inserted.value, s.sensor, s.value, s.now, s.now)] else longer
  }

  predicate AllSucceed(answer: Answer) {
    answer.updated && answer.inserted.Some?
  }

  /** The maps know the last of a sensor's own rows, or nothing if there is none. */
  predicate Remembered<V(==)>(own: seq<Row<V>>, log: Log<V>, sensor: nat) {
    var n := |own| - 1;
    && (sensor in log.lastIds <==> own != []) && (sensor in log.cache <==> own != [])
    && (own != [] ==> log.lastIds[sensor] == own[n].id && own[n].id > 0 && log.cache[sensor] == own[n].value)
  }

  lemma {:induction false} RowsOfSetEnd<V>(rows: seq<Row<V>>, sensor: nat, id: nat, now: int)
    ensures RowsOf(SetEnd(rows, id, now), sensor) == SetEnd(RowsOf(rows, sensor), id, now)
  {
    if rows != [] {
      var n := |rows| - 1;
      RowsOfSetEnd(rows[..n], sensor, id, now);
      assert SetEnd(rows, id, now)[..n] == SetEnd(rows[..n], id, now);
    }
  }

  lemma RowsOfSnoc<V>(rows: seq<Row<V>>, sensor: nat, row: Row<V>)
    ensures RowsOf(rows + [row], sensor) == RowsOf(rows, sensor) + (if row.sensor == sensor then [row] else [])
  {
    assert (rows + [row])[..|rows|] == rows;
  }

  lemma {:induction false} RowsOfIds<V>(rows: seq<Row<V>>, sensor: nat)
    requires IdsIncreasing(rows)
    ensures IdsIncreasing(RowsOf(rows, sensor))
    ensures forall row <- RowsOf(rows, sensor) :: row.sensor == sensor && row in rows
  {
    if rows != [] {
      RowsOfIds(rows[..|rows| - 1], sensor);
    }
  }

  /** The row named by an id belongs to one sensor only. */
  lemma IdNamesOne<V>(rows: seq<Row<V>>, sensor: nat, other: nat, id: nat)
    requires IdsIncreasing(rows) && sensor != other
    requires exists row :: row in RowsOf(rows, other) && row.id == id
    ensures forall row <- RowsOf(rows, sensor) :: row.id != id
  {
    RowsOfIds(rows, sensor);
    RowsOfIds(rows, other);
  }

  lemma SetEndMisses<V>(own: seq<Row<V>>, id: nat, now: int)
    requires forall row <- own :: row.id != id
    ensures SetEnd(own, id, now) == own
  {
  }

  lemma SetEndLast<V>(own: seq<Row<V>>, now: int)
    requires IdsIncreasing(own) && own != []
    ensures var n := |own| - 1;
            SetEnd(own, own[n].id, now) == own[n := own[n].(end := now)]
  {
  }

  /** With both queries succeeding, a sample extends its sensor's rows, and no other sensor's. */
  lemma RecordRows<V>(log: Log<V>, s: Sample<V>, sensor: nat)
    requires IdsIncreasing(log.rows) && AnswerPossible(log, s.answer) && AllSucceed(s.answer)
    requires Remembered(RowsOf(log.rows, s.sensor), log, s.sensor)
    ensures RowsOf(Record(log, s).rows, sensor) ==
            if sensor == s.sensor then Extended(RowsOf(log.rows, sensor), s) else RowsOf(log.rows, sensor)
  {
    hide RowsOf, IdsIncreasing;
    var own := RowsOf(log.rows, s.sensor);
    var row := Row(s.answer.inserted.value, s.sensor, s.value, s.now, s.now);
    RowsOfIds(log.rows, s.sensor);
    if own == [] {
      RowsOfSnoc(log.rows, sensor, row);
    } else {
      var last := own[|own| - 1];
      var rows := SetEnd(log.rows, last.id, s.now);
      RowsOfSetEnd(log.rows, sensor, last.id, s.now);
      RowsOfSnoc(rows, sensor, row);
      if sensor == s.sensor {
        SetEndLast(own, s.now);
      } else {
        assert last in own;
        IdNamesOne(log.rows, sensor, s.sensor, last.id);
        SetEndMisses(RowsOf(log.rows, sensor), last.id, s.now);
      }
    }
  }

  /** The sensor's samples, as far as they go, are in its rows, and its rows begin with samples. */
  ghost predicate Explains<V>(own: seq<Row<V>>, sensor: nat, samples: seq<Sample<V>>) {
    && (forall k | 0 <= k < |samples| && samples[k].sensor == sensor :: Covered(own, samples[k]))
    && (forall i | 0 <= i < |own| :: Begun(own[i], sensor, samples))
  }

  predicate Covered<V(==)>(own: seq<Row<V>>, s: Sample<V>) {
    exists i | 0 <= i < |own| :: Covers(own[i], s.value, s.now)
  }

  predicate Begun<V(==)>(row: Row<V>, sensor: nat, samples: seq<Sample<V>>) {
    exists k | 0 <= k < |samples| ::
      samples[k].sensor == sensor && samples[k].value == row.value && samples[k].now == row.start
  }

  lemma ExtendedGapless<V>(own: seq<Row<V>>, s: Sample<V>)
    requires Gapless(own) && s.answer.inserted.Some?
    requires own != [] ==> own[|own| - 1].end <= s.now
    ensures Gapless(Extended(own, s))
    ensures Extended(own, s)[|Extended(own, s)| - 1].end == s.now
  {
  }

  lemma ExtendedCovers<V>(own: seq<Row<V>>, s: Sample<V>, t: Sample<V>)
    requires Gapless(own) && s.answer.inserted.Some?
    requires own != [] ==> own[|own| - 1].end <= s.now
    requires Covered(own, t) || t == s
    ensures Covered(Extended(own, s), t)
  {
    var longer := Extended(own, s);
    if t == s {
      assert Covers(longer[|longer| - 1], s.value, s.now);
    } else {
      var i :| 0 <= i < |own| && Covers(own[i], t.value, t.now);
      assert Covers(longer[i], t.value, t.now);
    }
  }

  lemma BegunLater<V>(row: Row<V>, sensor: nat, samples: seq<Sample<V>>, s: Sample<V>)
    requires Begun(row, sensor, samples)
    ensures Begun(row, sensor, samples + [s])
  {
    var k :| 0 <= k < |samples| && samples[k].sensor == sensor && samples[k].value == row.value
             && samples[k].now == row.start;
    assert (samples + [s])[k] == samples[k];
  }

  lemma ExtendedBegun<V>(own: seq<Row<V>>, s: Sample<V>, samples: seq<Sample<V>>, i: nat)
    requires s.answer.inserted.Some? && i < |Extended(own, s)|
    requires forall j | 0 <= j < |own| :: Begun(own[j], s.sensor, samples)
    ensures Begun(Extended(own, s)[i], s.sensor, samples + [s])
  {
    var row, all := Extended(own, s)[i], samples + [s];
    if i < |own| {
      BegunLater(own[i], s.sensor, samples, s);
      var k :| 0 <= k < |all| && all[k].sensor == s.sensor && all[k].value == own[i].value
               && all[k].now == own[i].start;
      assert all[k].value == row.value && all[k].now == row.start;
    } else {
      assert all[|samples|] == s;
    }
  }

  lemma ExtendedExplains<V>(own: seq<Row<V>>, s: Sample<V>, samples: seq<Sample<V>>)
    requires Gapless(own) && s.answer.inserted.Some? && Explains(own, s.sensor, samples)
    requires own != [] ==> own[|own| - 1].end <= s.now
    ensures Explains(Extended(own, s), s.sensor, samples + [s])
  {
    hide Covered, Begun, Extended, Gapless;
    var longer, all := Extended(own, s), samples + [s];
    forall k | 0 <= k < |all| && all[k].sensor == s.sensor ensures Covered(longer, all[k]) {
      if k < |samples| {
        assert samples[k] == all[k];
      }
      ExtendedCovers(own, s, all[k]);
    }
    forall i | 0 <= i < |longer| ensures Begun(longer[i], s.sensor, all) {
      ExtendedBegun(own, s, samples, i);
    }
  }

  lemma ExplainsOthers<V>(own: seq<Row<V>>, sensor: nat, s: Sample<V>, samples: seq<Sample<V>>)
    requires Explains(own, sensor, samples) && s.sensor != sensor
    ensures Explains(own, sensor, samples + [s])
  {
    var all := samples + [s];
    forall k | 0 <= k < |all| && all[k].sensor == sensor ensures Covered(own, all[k]) {
      assert samples[k] == all[k];
    }
    forall i | 0 <= i < |own| ensures Begun(own[i], sensor, all) {
      BegunLater(own[i], sensor, samples, s);
    }
  }

  // ---- Whole runs ----

  /** Answers of a database that hands out increasing ids and never fails, at times that never go back. */
  ghost predicate GoodRun<V>(log: Log<V>, samples: seq<Sample<V>>) {
    && PossibleAnswers(log, samples) && (forall k | 0 <= k < |samples| :: AllSucceed(samples[k].answer))
    && (forall j, k | 0 <= j < k < |samples| :: samples[j].now <= samples[k].now)
  }

  /** The rows of one sensor tell the whole story of its samples. */
  ghost predicate Faithful<V>(log: Log<V>, sensor: nat, samples: seq<Sample<V>>) {
    var own := RowsOf(log.rows, sensor);
    && Gapless(own) && Remembered(own, log, sensor) && Explains(own, sensor, samples)
    && (own != [] ==> exists k | 0 <= k < |samples| :: own[|own| - 1].end == samples[k].now)
  }

  lemma RecordRemembered<V>(log: Log<V>, own: seq<Row<V>>, s: Sample<V>)
    requires Remembered(own, log, s.sensor) && AnswerPossible(log, s.answer) && AllSucceed(s.answer)
    ensures Remembered(Extended(own, s), Record(log, s), s.sensor)
  {
    hide SetEnd;
  }

  lemma RememberedOthers<V>(log: Log<V>, own: seq<Row<V>>, sensor: nat, s: Sample<V>)
    requires Remembered(own, log, sensor) && sensor != s.sensor
    ensures Remembered(own, Record(log, s), sensor)
  {
    hide SetEnd;
  }

  lemma RecordFaithful<V>(log: Log<V>, sensor: nat, samples: seq<Sample<V>>, s: Sample<V>)
    requires IdsIncreasing(log.rows) && AnswerPossible(log, s.answer) && AllSucceed(s.answer)
    requires Faithful(log, sensor, samples) && Faithful(log, s.sensor, samples)
    requires forall k | 0 <= k < |samples| :: samples[k].now <= s.now
    ensures Faithful(Record(log, s), sensor, samples + [s])
  {
    hide RowsOf, Record, Extended, Remembered, Gapless, Explains, IdsIncreasing, AnswerPossible;
    var own, all := RowsOf(log.rows, sensor), samples + [s];
    RecordRows(log, s, sensor);
    if sensor == s.sensor {
      ExtendedGapless(own, s);
      ExtendedExplains(own, s, samples);
      RecordRemembered(log, own, s);
      assert all[|samples|] == s;
    } else {
      ExplainsOthers(own, sensor, s, samples);
      RememberedOthers(log, own, sensor, s);
      if own != [] {
        var k :| 0 <= k < |samples| && own[|own| - 1].end == samples[k].now;
        assert all[k] == samples[k];
      }
    }
  }

  lemma RecordKeepsIds<V>(log: Log<V>, s: Sample<V>)
    requires IdsIncreasing(log.rows) && AnswerPossible(log, s.answer)
    ensures IdsIncreasing(Record(log, s).rows)
  {
  }

  lemma {:induction false} FaithfulFromScratch<V>(log: Log<V>, samples: seq<Sample<V>>, sensor: nat)
    requires log.rows == [] && log.cache == map[] && log.lastIds == map[] && GoodRun(log, samples)
    ensures IdsIncreasing(RecordAll(log, samples).rows)
    ensures Faithful(RecordAll(log, samples), sensor, samples)
    decreases |samples|
  {
    hide Faithful, Record;
    if samples == [] {
      FaithfulAtStart(log, sensor);
    } else {
      var n := |samples| - 1;
      var before, s := samples[..n], samples[n];
      GoodPrefix(log, samples);
      FaithfulFromScratch(log, before, sensor);
      FaithfulFromScratch(log, before, s.sensor);
      assert before + [s] == samples;
      RecordKeepsIds(RecordAll(log, before), s);
      RecordFaithful(RecordAll(log, before), sensor, before, s);
    }
  }

  lemma GoodPrefix<V>(log: Log<V>, samples: seq<Sample<V>>)
    requires GoodRun(log, samples) && samples != []
    ensures var n := |samples| - 1;
            GoodRun(log, samples[..n]) && AnswerPossible(RecordAll(log, samples[..n]), samples[n].answer)
  {
    hide PossibleAnswers;
    PossiblePrefix(log, samples);
  }

  lemma FaithfulAtStart<V>(log: Log<V>, sensor: nat)
    requires log.rows == [] && log.cache == map[] && log.lastIds == map[]
    ensures Faithful(log, sensor, [])
  {
  }

  /** Rows below `base` that the remembered id does not name stay as they are, and make no difference. */
  lemma RecordOnTop<V>(log: Log<V>, base: nat, s: Sample<V>)
    requires base <= |log.rows|
    requires IdValid(log, s.sensor) ==> forall i | 0 <= i < base :: log.rows[i].id != log.lastIds[s.sensor]
    ensures var after, alone := Record(log, s), Record(log.(rows := log.rows[base..]), s);
            && after == alone.(rows := log.rows[..base] + alone.rows)
  {
    if IdValid(log, s.sensor) && s.answer.updated {
      var id := log.lastIds[s.sensor];
      assert SetEnd(log.rows, id, s.now) == log.rows[..base] + SetEnd(log.rows[base..], id, s.now);
    } else {
      assert log.rows == log.rows[..base] + log.rows[base..];
    }
  }

  /** Ids in use name rows of this process, not earlier ones. */
  lemma NamesOwnRows<V>(log: Log<V>, earlier: seq<Row<V>>, sensor: nat)
    requires IdsIncreasing(earlier + log.rows) && NamesNewest(log, sensor)
    ensures IdValid(log, sensor) ==> forall i | 0 <= i < |earlier| :: (earlier + log.rows)[i].id != log.lastIds[sensor]
  {
    if IdValid(log, sensor) {
      var i :| NewestAt(log, sensor, i);
      assert (earlier + log.rows)[|earlier| + i] == log.rows[i];
    }
  }

  /** Rows of earlier processes stay as they are and make no difference, whatever the database answers. */
  lemma {:induction false} EarlierRowsUntouched<V>(log: Log<V>, samples: seq<Sample<V>>)
    requires IdsIncreasing(log.rows) && log.cache == map[] && log.lastIds == map[]
    requires PossibleAnswers(log, samples)
    ensures var alone := log.(rows := []);
            && PossibleAnswers(alone, samples)
            && RecordAll(log, samples) ==
               RecordAll(alone, samples).(rows := log.rows + RecordAll(alone, samples).rows)
    decreases |samples|
  {
    hide Record, IdsIncreasing, NamesNewest, AnswerPossible;
    var alone := log.(rows := []);
    if samples == [] {
      assert log.rows + [] == log.rows;
    } else {
      var n := |samples| - 1;
      var before, s := samples[..n], samples[n];
      PossiblePrefix(log, samples);
      EarlierRowsUntouched(log, before);
      var all, own := RecordAll(log, before), RecordAll(alone, before);
      AlwaysNamesNewest(log, before, s.sensor);
      NothingIncreasing(alone);
      AlwaysNamesNewest(alone, before, s.sensor);
      NamesOwnRows(own, log.rows, s.sensor);
      assert all.rows[|log.rows|..] == own.rows && all.rows[..|log.rows|] == log.rows;
      RecordOnTop(all, |log.rows|, s);
      assert own == all.(rows := all.rows[|log.rows|..]);
      PossibleOnTop(all, own, log.rows, s.answer);
      PossibleSnoc(alone, before, s);
      assert before + [s] == samples;
    }
  }

  lemma NothingIncreasing<V>(log: Log<V>)
    requires log.rows == []
    ensures IdsIncreasing(log.rows)
  {
  }

  lemma PossibleOnTop<V>(all: Log<V>, own: Log<V>, earlier: seq<Row<V>>, answer: Answer)
    requires all.rows == earlier + own.rows && AnswerPossible(all, answer)
    ensures AnswerPossible(own, answer)
  {
    forall i | 0 <= i < |own.rows| ensures own.rows[i] == all.rows[|earlier| + i] {
    }
  }

  lemma PossibleSnoc<V>(log: Log<V>, samples: seq<Sample<V>>, s: Sample<V>)
    requires PossibleAnswers(log, samples) && AnswerPossible(RecordAll(log, samples), s.answer)
    ensures PossibleAnswers(log, samples + [s])
  {
    hide RecordAll, AnswerPossible;
    var all := samples + [s];
    forall k | 0 <= k < |all| ensures AnswerPossible(RecordAll(log, all[..k]), all[k].answer) {
      assert all[..k] == samples[..k];
      if k == |samples| {
        assert samples[..k] == samples;
      }
    }
  }

  /** The table of a process continues what was there before, and what it adds tells the whole story. */
  ghost predicate Continues<V>(before: Log<V>, after: Log<V>, sensor: nat, samples: seq<Sample<V>>) {
    var base := |before.rows|;
    && base <= |after.rows| && after.rows[..base] == before.rows && IdsIncreasing(after.rows)
    && Faithful(after.(rows := after.rows[base..]), sensor, samples)
  }

  /** With a database that never fails and a clock that never goes back, on top of whatever rows were
      there before: the new rows of every sensor are gapless, adjacent rows differ, every sample lies in a
      row with its value, and every row begins with a sample of its value. */
  lemma HistoryFaithful<V>(log: Log<V>, samples: seq<Sample<V>>, sensor: nat)
    requires IdsIncreasing(log.rows) && log.cache == map[] && log.lastIds == map[] && GoodRun(log, samples)
    ensures Continues(log, RecordAll(log, samples), sensor, samples)
  {
    hide Faithful, IdsIncreasing, PossibleAnswers;
    var alone, after := log.(rows := []), RecordAll(log, samples);
    EarlierRowsUntouched(log, samples);
    AlwaysNamesNewest(log, samples, sensor);
    FaithfulFromScratch(alone, samples, sensor);
    assert after.rows[|log.rows|..] == RecordAll(alone, samples).rows;
    assert after.(rows := after.rows[|log.rows|..]) == RecordAll(alone, samples);
  }

  // ---- The rate limit ----

  /** checkAndUpdateRateLimit: whether a sample is taken in, and the times of the last ones that were. */
  function RateLimit(lastWrites: map<nat, int>, limit: nat, sensor: nat, now: int): (bool, map<nat, int>) {
    if limit == 0 then (true, lastWrites)
    else if sensor in lastWrites && now - lastWrites[sensor] < limit then (false, lastWrites)
    else (true, lastWrites[sensor := now])
  }

  // ---- The whole database ----

  /** What a call hands in, and how the database answers its queries. */
  datatype Reading = Numeric(number: Sample<real>) | Boolean(flag: Sample<bool>) | Text(text: Sample<string>)

  /** The three tables, each with its part of the maps, and the times of the rate limit. */
  datatype State = State(connected: bool, limit: nat, lastWrites: map<nat, int>,
                         numeric: Log<real>, booleans: Log<bool>, states: Log<string>)

  /** The three addSensorValue. */
  function Add(d: State, r: Reading): State {
    if !d.connected then d
    else
      match r
      case Numeric(s) =>
        var (taken, next) := RateLimit(d.lastWrites, d.limit, s.sensor, s.now);
        d.(lastWrites := next, numeric := if taken then Record(d.numeric, s) else d.numeric)
      case Boolean(s) => d.(booleans := Record(d.booleans, s))
      case Text(s) => d.(states := Record(d.states, s))
  }

  function AddAll(d: State, rs: seq<Reading>): State {
    if rs == [] then d else Add(AddAll(d, rs[..|rs| - 1]), rs[|rs| - 1])
  }

  /** The numeric samples taken in, out of any mixture of readings. */
  function Numbers(d: State, rs: seq<Reading>): seq<Sample<real>> {
    if rs == [] then []
    else
      var n := |rs| - 1;
      var before := AddAll(d, rs[..n]);
      Numbers(d, rs[..n])
      + (if rs[n].Numeric? && before.connected
            && RateLimit(before.lastWrites, before.limit, rs[n].number.sensor, rs[n].number.now).0
         then [rs[n].number] else [])
  }

  function Flags(d: State, rs: seq<Reading>): seq<Sample<bool>> {
    if rs == [] then []
    else
      var n := |rs| - 1;
      Flags(d, rs[..n]) + (if rs[n].Boolean? && d.connected then [rs[n].flag] else [])
  }

  function Texts(d: State, rs: seq<Reading>): seq<Sample<string>> {
    if rs == [] then []
    else
      var n := |rs| - 1;
      Texts(d, rs[..n]) + (if rs[n].Text? && d.connected then [rs[n].text] else [])
  }

  function AnswerTo(r: Reading): Answer {
    match r case Numeric(s) => s.answer case Boolean(s) => s.answer case Text(s) => s.answer
  }

  function TimeOf(r: Reading): int {
    match r case Numeric(s) => s.now case Boolean(s) => s.now case Text(s) => s.now
  }

  predicate ReadingPossible(d: State, r: Reading) {
    match r
    case Numeric(s) => AnswerPossible(d.numeric, s.answer)
    case Boolean(s) => AnswerPossible(d.booleans, s.answer)
    case Text(s) => AnswerPossible(d.states, s.answer)
  }

  ghost predicate PossibleReadings(d: State, rs: seq<Reading>) {
    forall k | 0 <= k < |rs| :: ReadingPossible(AddAll(d, rs[..k]), rs[k])
  }

  /** A process that has just started, on tables with any rows. */
  ghost predicate Started(d: State) {
    && d.lastWrites == map[] && StartedLog(d.numeric) && StartedLog(d.booleans) && StartedLog(d.states)
  }

  ghost predicate StartedLog<V>(log: Log<V>) {
    IdsIncreasing(log.rows) && log.cache == map[] && log.lastIds == map[]
  }

  /** Seen from one table, a mixture of readings is the run of its own samples. */
  lemma {:induction false} TablesApart(d: State, rs: seq<Reading>)
    ensures AddAll(d, rs).connected == d.connected && AddAll(d, rs).limit == d.limit
    ensures AddAll(d, rs).numeric == RecordAll(d.numeric, Numbers(d, rs))
    ensures AddAll(d, rs).booleans == RecordAll(d.booleans, Flags(d, rs))
    ensures AddAll(d, rs).states == RecordAll(d.states, Texts(d, rs))
    decreases |rs|
  {
    hide Record, RateLimit;
    if rs != [] {
      var n := |rs| - 1;
      TablesApart(d, rs[..n]);
      PlusNothing(Numbers(d, rs[..n]));
      PlusNothing(Flags(d, rs[..n]));
      PlusNothing(Texts(d, rs[..n]));
      match rs[n]
      case Numeric(s) => RecordSnoc(d.numeric, Numbers(d, rs[..n]), s);
      case Boolean(s) => RecordSnoc(d.booleans, Flags(d, rs[..n]), s);
      case Text(s) => RecordSnoc(d.states, Texts(d, rs[..n]), s);
    }
  }

  lemma RecordSnoc<V>(log: Log<V>, samples: seq<Sample<V>>, s: Sample<V>)
    ensures RecordAll(log, samples + [s]) == Record(RecordAll(log, samples), s)
  {
    assert (samples + [s])[..|samples|] == samples;
  }

  lemma PlusNothing<T>(s: seq<T>)
    ensures s + [] == s
  {
  }

  lemma ReadingsPrefix(d: State, rs: seq<Reading>)
    requires PossibleReadings(d, rs) && rs != []
    ensures var n := |rs| - 1;
            PossibleReadings(d, rs[..n]) && ReadingPossible(AddAll(d, rs[..n]), rs[n])
  {
    hide AddAll, ReadingPossible;
    var before := rs[..|rs| - 1];
    forall k | 0 <= k < |before| ensures before[..k] == rs[..k] && before[k] == rs[k] {
    }
  }

  lemma {:induction false} ReadingsPossible(d: State, rs: seq<Reading>)
    requires PossibleReadings(d, rs)
    ensures PossibleAnswers(d.numeric, Numbers(d, rs)) && PossibleAnswers(d.booleans, Flags(d, rs))
    ensures PossibleAnswers(d.states, Texts(d, rs))
    decreases |rs|
  {
    hide PossibleAnswers, PossibleReadings, AnswerPossible, AddAll, RateLimit;
    if rs == [] {
      NothingPossible(d.numeric);
      NothingPossible(d.booleans);
      NothingPossible(d.states);
    } else {
      var n := |rs| - 1;
      ReadingsPrefix(d, rs);
      ReadingsPossible(d, rs[..n]);
      TablesApart(d, rs[..n]);
      PlusNothing(Numbers(d, rs[..n]));
      PlusNothing(Flags(d, rs[..n]));
      PlusNothing(Texts(d, rs[..n]));
      match rs[n]
      case Numeric(s) => PossibleSnoc(d.numeric, Numbers(d, rs[..n]), s);
      case Boolean(s) => PossibleSnoc(d.booleans, Flags(d, rs[..n]), s);
      case Text(s) => PossibleSnoc(d.states, Texts(d, rs[..n]), s);
    }
  }

  lemma NothingPossible<V>(log: Log<V>)
    ensures PossibleAnswers(log, [])
  {
  }

  /** Whatever mixture of readings, whatever rows were there, however queries fail: for every sensor of
      every kind the remembered id names its newest row and the remembered value is that row's; and earlier
      rows stay as they were. */
  lemma AlwaysNamesNewestRow(d: State, rs: seq<Reading>, sensor: nat)
    requires Started(d) && PossibleReadings(d, rs)
    ensures var after := AddAll(d, rs);
            && NamesNewest(after.numeric, sensor) && NamesNewest(after.booleans, sensor)
            && NamesNewest(after.states, sensor)
            && d.numeric.rows <= after.numeric.rows && d.booleans.rows <= after.booleans.rows
            && d.states.rows <= after.states.rows
  {
    hide NamesNewest, PossibleAnswers, PossibleReadings, IdsIncreasing, AddAll, Numbers, Flags, Texts, RecordAll;
    ReadingsPossible(d, rs);
    TablesApart(d, rs);
    AlwaysNamesNewest(d.numeric, Numbers(d, rs), sensor);
    AlwaysNamesNewest(d.booleans, Flags(d, rs), sensor);
    AlwaysNamesNewest(d.states, Texts(d, rs), sensor);
    EarlierRowsUntouched(d.numeric, Numbers(d, rs));
    EarlierRowsUntouched(d.booleans, Flags(d, rs));
    EarlierRowsUntouched(d.states, Texts(d, rs));
  }

  /** No query fails, and the clock never goes back. */
  ghost predicate GoodReadings(d: State, rs: seq<Reading>) {
    && PossibleReadings(d, rs) && (forall k | 0 <= k < |rs| :: AllSucceed(AnswerTo(rs[k])))
    && (forall j, k | 0 <= j < k < |rs| :: TimeOf(rs[j]) <= TimeOf(rs[k]))
  }

  /** A sequence of samples, none later than `now`, with nothing but successes. */
  ghost predicate Smooth<V>(samples: seq<Sample<V>>, now: int) {
    && (forall k | 0 <= k < |samples| :: AllSucceed(samples[k].answer) && samples[k].now <= now)
    && (forall j, k | 0 <= j < k < |samples| :: samples[j].now <= samples[k].now)
  }

  lemma {:induction false} ReadingsSmooth(d: State, rs: seq<Reading>, now: int)
    requires GoodReadings(d, rs) && forall k | 0 <= k < |rs| :: TimeOf(rs[k]) <= now
    ensures Smooth(Numbers(d, rs), now) && Smooth(Flags(d, rs), now) && Smooth(Texts(d, rs), now)
    decreases |rs|
  {
    hide PossibleReadings, AddAll, RateLimit, Smooth;
    if rs == [] {
      NothingSmooth<real>(now);
      NothingSmooth<bool>(now);
      NothingSmooth<string>(now);
    } else {
      var n := |rs| - 1;
      var t := TimeOf(rs[n]);
      ReadingsPrefix(d, rs);
      ReadingsSmooth(d, rs[..n], t);
      SmoothOne(Numbers(d, rs[..n]), Numbers(d, rs), if rs[n].Numeric? then [rs[n].number] else [], t, now);
      SmoothOne(Flags(d, rs[..n]), Flags(d, rs), if rs[n].Boolean? then [rs[n].flag] else [], t, now);
      SmoothOne(Texts(d, rs[..n]), Texts(d, rs), if rs[n].Text? then [rs[n].text] else [], t, now);
    }
  }

  lemma NothingSmooth<V>(now: int)
    ensures Smooth<V>([], now)
  {
  }

  lemma SmoothOne<V>(samples: seq<Sample<V>>, after: seq<Sample<V>>, more: seq<Sample<V>>, t: int, now: int)
    requires Smooth(samples, t) && t <= now && |more| <= 1
    requires more != [] ==> AllSucceed(more[0].answer) && more[0].now == t
    requires after == samples + more || after == samples + []
    ensures Smooth(after, now)
  {
  }

  /** The history of the whole database: whatever mixture of readings and whatever rows were there, as
      long as no query fails, the new rows of every sensor of every kind tell the story of its samples. */
  lemma DatabaseFaithful(d: State, rs: seq<Reading>, sensor: nat)
    requires Started(d) && GoodReadings(d, rs)
    ensures var after := AddAll(d, rs);
            && Continues(d.numeric, after.numeric, sensor, Numbers(d, rs))
            && Continues(d.booleans, after.booleans, sensor, Flags(d, rs))
            && Continues(d.states, after.states, sensor, Texts(d, rs))
  {
    hide Continues, PossibleAnswers, PossibleReadings, IdsIncreasing, AddAll, Numbers, Flags, Texts, RecordAll;
    ReadingsPossible(d, rs);
    TablesApart(d, rs);
    ReadingsSmooth(d, rs, if rs == [] then 0 else TimeOf(rs[|rs| - 1]));
    HistoryFaithful(d.numeric, Numbers(d, rs), sensor);
    HistoryFaithful(d.booleans, Flags(d, rs), sensor);
    HistoryFaithful(d.states, Texts(d, rs), sensor);
  }

  // ---- The rate limit over runs ----

  /** All numeric samples of a mixture of readings, in order. */
  function NumericOnly(rs: seq<Reading>): seq<Sample<real>> {
    if rs == [] then []
    else (if rs[0].Numeric? then [rs[0].number] else []) + NumericOnly(rs[1..])
  }

  lemma {:induction false} NumericOnlySnoc(rs: seq<Reading>, r: Reading)
    ensures NumericOnly(rs + [r]) == NumericOnly(rs) + (if r.Numeric? then [r.number] else [])
  {
    if rs == [] {
      assert [r][1..] == [] && rs + [r] == [r];
    } else {
      assert (rs + [r])[0] == rs[0] && (rs + [r])[1..] == rs[1..] + [r];
      NumericOnlySnoc(rs[1..], r);
    }
  }

  /** Without a limit every numeric sample is taken in; without a connection nothing ever changes. */
  lemma {:induction false} Unlimited(d: State, rs: seq<Reading>)
    ensures d.connected && d.limit == 0 ==> Numbers(d, rs) == NumericOnly(rs)
    ensures !d.connected ==> AddAll(d, rs) == d && Numbers(d, rs) == [] && Flags(d, rs) == [] && Texts(d, rs) == []
    decreases |rs|
  {
    hide Record;
    if rs != [] {
      var n := |rs| - 1;
      Unlimited(d, rs[..n]);
      TablesApart(d, rs[..n]);
      NumericOnlySnoc(rs[..n], rs[n]);
      PlusNothing(Numbers(d, rs[..n]));
      assert rs[..n] + [rs[n]] == rs;
    }
  }

  /** Every sample of the sensor is at least the limit older. */
  ghost predicate Rested(samples: seq<Sample<real>>, sensor: nat, now: int, limit: nat) {
    forall i | 0 <= i < |samples| && samples[i].sensor == sensor :: now - samples[i].now >= limit
  }

  /** Two samples of one sensor are at least the limit apart. */
  ghost predicate Apart(samples: seq<Sample<real>>, limit: nat) {
    forall i, j | 0 <= i < j < |samples| && samples[i].sensor == samples[j].sensor ::
      samples[j].now - samples[i].now >= limit
  }

  /** The times of the limit are those of the latest samples taken in. */
  ghost predicate LatestTimes(lastWrites: map<nat, int>, samples: seq<Sample<real>>) {
    && (forall i | 0 <= i < |samples| ::
          samples[i].sensor in lastWrites && samples[i].now <= lastWrites[samples[i].sensor])
    && (forall sensor | sensor in lastWrites :: TakenAt(samples, sensor, lastWrites[sensor]))
  }

  predicate TakenAt(samples: seq<Sample<real>>, sensor: nat, time: int) {
    exists i | 0 <= i < |samples| :: samples[i].sensor == sensor && samples[i].now == time
  }

  lemma LimitStep(lastWrites: map<nat, int>, limit: nat, samples: seq<Sample<real>>, s: Sample<real>)
    requires limit > 0 && LatestTimes(lastWrites, samples) && Apart(samples, limit)
    ensures var (taken, next) := RateLimit(lastWrites, limit, s.sensor, s.now);
            && (taken <==> Rested(samples, s.sensor, s.now, limit))
            && (taken ==> LatestTimes(next, samples + [s]) && Apart(samples + [s], limit))
            && (!taken ==> next == lastWrites)
  {
    var (taken, next) := RateLimit(lastWrites, limit, s.sensor, s.now);
    var all := samples + [s];
    if s.sensor in lastWrites {
      var i :| 0 <= i < |samples| && samples[i].sensor == s.sensor && samples[i].now == lastWrites[s.sensor];
    }
    if taken {
      forall sensor | sensor in next ensures TakenAt(all, sensor, next[sensor]) {
        if sensor == s.sensor {
          assert all[|samples|] == s;
        } else {
          var i :| 0 <= i < |samples| && samples[i].sensor == sensor && samples[i].now == lastWrites[sensor];
          assert all[i] == samples[i];
        }
      }
    }
  }

  lemma {:induction false} LimitKept(d: State, rs: seq<Reading>)
    requires d.lastWrites == map[] && d.limit > 0
    ensures LatestTimes(AddAll(d, rs).lastWrites, Numbers(d, rs)) && Apart(Numbers(d, rs), d.limit)
    decreases |rs|
  {
    hide LatestTimes, Apart, RateLimit, Record;
    if rs == [] {
      NothingTaken(d.limit);
    } else {
      var n := |rs| - 1;
      LimitKept(d, rs[..n]);
      TablesApart(d, rs[..n]);
      assert Numbers(d, rs[..n]) + [] == Numbers(d, rs[..n]);
      if rs[n].Numeric? {
        LimitStep(AddAll(d, rs[..n]).lastWrites, d.limit, Numbers(d, rs[..n]), rs[n].number);
      }
    }
  }

  lemma NothingTaken(limit: nat)
    ensures LatestTimes(map[], []) && Apart([], limit)
  {
  }

  /** Numeric samples taken in are at least the limit apart, sensor by sensor; and the next one is taken in
      exactly if those of its sensor are that far back. */
  lemma WritesApart(d: State, rs: seq<Reading>, s: Sample<real>)
    requires Started(d) && d.connected && d.limit > 0
    ensures Apart(Numbers(d, rs), d.limit)
    ensures Numbers(d, rs + [Numeric(s)]) ==
            Numbers(d, rs) + (if Rested(Numbers(d, rs), s.sensor, s.now, d.limit) then [s] else [])
  {
    hide LatestTimes, Apart, RateLimit, Rested, Add, Record, RecordAll;
    LimitKept(d, rs);
    TablesApart(d, rs);
    LimitStep(AddAll(d, rs).lastWrites, d.limit, Numbers(d, rs), s);
    assert (rs + [Numeric(s)])[..|rs|] == rs;
  }

  // ---- The object ----

  /** Sensor numbers of the three kinds do not overlap (collector/Database.h:46-128). */
  predicate NumericSensor(s: nat) { 1 <= s <= 28 }

  predicate BooleanSensor(s: nat) { 100 <= s <= 125 }

  predicate StateSensor(s: nat) { 200 <= s <= 201 }

  /** The part of the shared map of ids that is about sensors of one kind. */
  ghost function Of(ids: map<nat, nat>, kind: nat -> bool): map<nat, nat> {
    map s | s in ids && kind(s) :: ids[s]
  }

  lemma OfUpdate(ids: map<nat, nat>, kind: nat -> bool, sensor: nat, id: nat)
    ensures Of(ids[sensor := id], kind) == if kind(sensor) then Of(ids, kind)[sensor := id] else Of(ids, kind)
    ensures kind(sensor) ==> (sensor in Of(ids, kind) <==> sensor in ids)
    ensures kind(sensor) && sensor in ids ==> Of(ids, kind)[sensor] == ids[sensor]
  {
  }

  /** What a new id in the shared map means to the three tables. */
  lemma IdNoted(ids: map<nat, nat>, sensor: nat, id: nat)
    ensures Of(ids[sensor := id], NumericSensor)
            == if NumericSensor(sensor) then Of(ids, NumericSensor)[sensor := id] else Of(ids, NumericSensor)
    ensures Of(ids[sensor := id], BooleanSensor)
            == if BooleanSensor(sensor) then Of(ids, BooleanSensor)[sensor := id] else Of(ids, BooleanSensor)
    ensures Of(ids[sensor := id], StateSensor)
            == if StateSensor(sensor) then Of(ids, StateSensor)[sensor := id] else Of(ids, StateSensor)
  {
    OfUpdate(ids, NumericSensor, sensor, id);
    OfUpdate(ids, BooleanSensor, sensor, id);
    OfUpdate(ids, StateSensor, sensor, id);
  }

  /** The maps of Database and the tables they belong to; `answer` is how the two queries of a call go.
      All three kinds share `lastInsertIds`. Float readings are exact numbers here. */
  class Database {
    const connected: bool
    const limit: nat
    var lastWrites: map<nat, int>
    var numericCache: map<nat, real>
    var booleanCache: map<nat, bool>
    var stateCache: map<nat, string>
    var lastInsertIds: map<nat, nat>
    var numericTable: seq<Row<real>>
    var booleanTable: seq<Row<bool>>
    var stateTable: seq<Row<string>>

    constructor (connected: bool, limit: nat, numericTable: seq<Row<real>>, booleanTable: seq<Row<bool>>,
                 stateTable: seq<Row<string>>)
      ensures Abstract() == State(connected, limit, map[], Log(numericTable, map[], map[]),
                                  Log(booleanTable, map[], map[]), Log(stateTable, map[], map[]))
    {
      this.connected, this.limit := connected, limit;
      lastWrites, numericCache, booleanCache, stateCache, lastInsertIds := map[], map[], map[], map[], map[];
      this.numericTable, this.booleanTable, this.stateTable := numericTable, booleanTable, stateTable;
    }

    ghost function Abstract(): State
      reads this
    {
      State(connected, limit, lastWrites, Log(numericTable, numericCache, Of(lastInsertIds, NumericSensor)),
            Log(booleanTable, booleanCache, Of(lastInsertIds, BooleanSensor)),
            Log(stateTable, stateCache, Of(lastInsertIds, StateSensor)))
    }

    method CheckAndUpdateRateLimit(sensor: nat, now: int) returns (ok: bool)
      modifies `lastWrites
      ensures (ok, lastWrites) == RateLimit(old(lastWrites), limit, sensor, now)
    {
      if limit == 0 {
        return true;
      }
      if sensor in lastWrites {
        var difference := now - lastWrites[sensor];
        if difference < limit {
          return false;
        }
      }
      lastWrites := lastWrites[sensor := now];
      return true;
    }

    method AddNumericValue(sensor: nat, value: real, now: int, answer: Answer)
      requires NumericSensor(sensor)
      modifies `lastWrites, `numericCache, `lastInsertIds, `numericTable
      ensures Abstract() == Add(old(Abstract()), Numeric(Sample(sensor, value, now, answer)))
    {
      if !connected {
        return;
      }
      var ok := CheckAndUpdateRateLimit(sensor, now);
      if !ok {
        return;
      }
      OfUpdate(lastInsertIds, NumericSensor, sensor, 0);
      var valueChanged := sensor !in numericCache || numericCache[sensor] != value;
      var idValid := sensor in lastInsertIds && lastInsertIds[sensor] != 0;
      if idValid {
        if answer.updated {
          numericTable := SetEnd(numericTable, lastInsertIds[sensor], now);
        }
      }
      if valueChanged || !idValid {
        if answer.inserted.Some? {
          numericTable := numericTable + [Row(answer.inserted.value, sensor, value, now, now)];
          IdNoted(lastInsertIds, sensor, answer.inserted.value);
          lastInsertIds := lastInsertIds[sensor := answer.inserted.value];
          numericCache := numericCache[sensor := value];
        }
      }
    }

    method AddBooleanValue(sensor: nat, value: bool, now: int, answer: Answer)
      requires BooleanSensor(sensor)
      modifies `booleanCache, `lastInsertIds, `booleanTable
      ensures Abstract() == Add(old(Abstract()), Boolean(Sample(sensor, value, now, answer)))
    {
      if !connected {
        return;
      }
      OfUpdate(lastInsertIds, BooleanSensor, sensor, 0);
      var valueChanged := sensor !in booleanCache || booleanCache[sensor] != value;
      var idValid := sensor in lastInsertIds && lastInsertIds[sensor] != 0;
      if idValid {
        if answer.updated {
          booleanTable := SetEnd(booleanTable, lastInsertIds[sensor], now);
        }
      }
      if valueChanged || !idValid {
        if answer.inserted.Some? {
          booleanTable := booleanTable + [Row(answer.inserted.value, sensor, value, now, now)];
          IdNoted(lastInsertIds, sensor, answer.inserted.value);
          lastInsertIds := lastInsertIds[sensor := answer.inserted.value];
          booleanCache := booleanCache[sensor := value];
        }
      }
    }

    method AddStateValue(sensor: nat, value: string, now: int, answer: Answer)
      requires StateSensor(sensor)
      modifies `stateCache, `lastInsertIds, `stateTable
      ensures Abstract() == Add(old(Abstract()), Text(Sample(sensor, value, now, answer)))
    {
      if !connected {
        return;
      }
      OfUpdate(lastInsertIds, StateSensor, sensor, 0);
      var valueChanged := sensor !in stateCache || stateCache[sensor] != value;
      var idValid := sensor in lastInsertIds && lastInsertIds[sensor] != 0;
      if idValid {
        if answer.updated {
          stateTable := SetEnd(stateTable, lastInsertIds[sensor], now);
        }
      }
      if valueChanged || !idValid {
        if answer.inserted.Some? {
          stateTable := stateTable + [Row(answer.inserted.value, sensor, value, now, now)];
          IdNoted(lastInsertIds, sensor, answer.inserted.value);
          lastInsertIds := lastInsertIds[sensor := answer.inserted.value];
          stateCache := stateCache[sensor := value];
        }
      }
    }
  }
}
