/** Switching times and holidays as text, both ways (collector/ApiCommandParser.cpp:1320-1434). */
module Texts {
  import opened Bytes
  import opened Wrappers

  // ---- Decimal numbers ----

  predicate IsDigit(c: char) { '0' <= c <= '9' }

  predicate AllDigits(s: string) {
    forall i | 0 <= i < |s| :: IsDigit(s[i])
  }

  function DigitChar(d: nat): (c: char)
    requires d < 10
    ensures IsDigit(c) && c as int - '0' as int == d
  {
    '0' + d as char
  }

  function Decimal(n: nat): string {
    if n < 10 then [DigitChar(n)] else Decimal(n / 10) + [DigitChar(n % 10)]
  }

  function DecimalValue(s: string): nat
    requires AllDigits(s)
  {
    if s == [] then 0 else 10 * DecimalValue(s[..|s| - 1]) + (s[|s| - 1] as int - '0' as int)
  }

  function Zeros(n: nat): string {
    if n == 0 then [] else ['0'] + Zeros(n - 1)
  }

  /** %0wd */
  function Padded(n: nat, width: nat): string {
    if |Decimal(n)| >= width then Decimal(n) else Zeros(width - |Decimal(n)|) + Decimal(n)
  }

  const UINT_RANGE: nat := 0x1_0000_0000

  /** lexical_cast<unsigned int>: an optional sign and digits, nothing else; a minus sign wraps around. */
  function ParseUnsigned(s: string): Option<nat> {
    var digits := if s != [] && s[0] in {'+', '-'} then s[1..] else s;
    if digits == [] || !AllDigits(digits) || DecimalValue(digits) >= UINT_RANGE then None
    else if s[0] == '-' then Some((UINT_RANGE - DecimalValue(digits)) % UINT_RANGE)
    else Some(DecimalValue(digits))
  }

  lemma {:induction false} DecimalRoundTrip(n: nat)
    ensures Decimal(n) != [] && AllDigits(Decimal(n)) && DecimalValue(Decimal(n)) == n
  {
    if n >= 10 {
      DecimalRoundTrip(n / 10);
      assert Decimal(n)[..|Decimal(n)| - 1] == Decimal(n / 10);
    } else {
      assert Decimal(n)[..0] == [];
    }
  }

  lemma {:induction false} LeadingZeros(k: nat, s: string)
    requires AllDigits(s)
    ensures AllDigits(Zeros(k) + s) && DecimalValue(Zeros(k) + s) == DecimalValue(s)
    decreases k + |s|
  {
    if s != [] {
      var n := |s| - 1;
      LeadingZeros(k, s[..n]);
      assert (Zeros(k) + s)[..k + n] == Zeros(k) + s[..n] by { ZerosLength(k); }
      ZerosLength(k);
    } else if k > 0 {
      LeadingZeros(k - 1, s);
      ZerosSnoc(k);
      assert (Zeros(k) + s)[..k - 1] == Zeros(k - 1) + s by { ZerosLength(k - 1); }
      ZerosLength(k);
    }
  }

  lemma {:induction false} ZerosLength(k: nat)
    ensures |Zeros(k)| == k
  {
    if k > 0 {
      ZerosLength(k - 1);
    }
  }

  lemma {:induction false} ZerosSnoc(k: nat)
    requires k > 0
    ensures Zeros(k) == Zeros(k - 1) + ['0']
  {
    if k > 1 {
      ZerosSnoc(k - 1);
    }
  }

  lemma PaddedRoundTrip(n: nat, width: nat)
    requires n < UINT_RANGE
    ensures Padded(n, width) != [] && AllDigits(Padded(n, width))
    ensures ParseUnsigned(Padded(n, width)) == Some(n)
  {
    DecimalRoundTrip(n);
    if |Decimal(n)| < width {
      LeadingZeros(width - |Decimal(n)|, Decimal(n));
    }
  }

  /** What texts are numbers: digits with an optional sign; up to 32 bits; a minus counts down from 2^32. */
  lemma NumberTexts(s: string)
    requires s != [] && AllDigits(s)
    ensures var v := DecimalValue(s);
            && ParseUnsigned(s) == (if v < 0x1_0000_0000 then Some(v) else None)
            && ParseUnsigned(['+'] + s) == ParseUnsigned(s)
            && ParseUnsigned(['-'] + s) ==
               (if v == 0 then Some(0) else if v < 0x1_0000_0000 then Some(0x1_0000_0000 - v) else None)
  {
    hide DecimalValue;
    assert (['+'] + s)[1..] == s && (['-'] + s)[1..] == s;
    assert IsDigit(s[0]);
  }

  lemma NotNumberTexts(s: string)
    requires !AllDigits(if s != [] && s[0] in {'+', '-'} then s[1..] else s) || s in {"", "+", "-"}
    ensures ParseUnsigned(s).None?
  {
    hide DecimalValue;
  }

  // ---- Tokens ----

  predicate IsSpace(c: char) { c in {' ', '\t', '\n', '\r', 11 as char, 12 as char} }

  /** Blanks are the space and the control characters 9 to 13. */
  lemma Blanks(c: char)
    ensures IsSpace(c) <==> c as int == 32 || 9 <= c as int <= 13
  {
  }

  predicate NoSpace(s: string) {
    forall i | 0 <= i < |s| :: !IsSpace(s[i])
  }

  function SkipSpace(s: string): string {
    if s != [] && IsSpace(s[0]) then SkipSpace(s[1..]) else s
  }

  function WordLength(s: string): (n: nat)
    ensures n <= |s|
  {
    if s == [] || IsSpace(s[0]) then 0 else 1 + WordLength(s[1..])
  }

  /** stream >> word: the word and what is left, or nothing if the stream fails. */
  function NextWord(s: string): Option<(string, string)> {
    var t := SkipSpace(s);
    var n := WordLength(t);
    if n == 0 then None else Some((t[..n], t[n..]))
  }

  lemma {:induction false} WordLengthOf(w: string, rest: string)
    requires NoSpace(w) && (rest == [] || IsSpace(rest[0]))
    ensures WordLength(w + rest) == |w|
  {
    if w == [] {
      assert w + rest == rest;
    } else {
      assert (w + rest)[0] == w[0] && (w + rest)[1..] == w[1..] + rest;
      WordLengthOf(w[1..], rest);
    }
  }

  lemma NextWordOf(w: string, rest: string)
    requires w != [] && NoSpace(w) && (rest == [] || IsSpace(rest[0]))
    ensures NextWord(w + rest) == Some((w, rest))
    ensures NextWord([' '] + w + rest) == Some((w, rest))
  {
    WordLengthOf(w, rest);
    assert ([' '] + w + rest)[1..] == w + rest;
    assert (w + rest)[0] == w[0];
    assert SkipSpace(w + rest) == w + rest;
    assert SkipSpace([' '] + w + rest) == w + rest;
  }

  predicate AllSpace(s: string) {
    forall i | 0 <= i < |s| :: IsSpace(s[i])
  }

  /** `s` is blanks, the word, and a rest that does not go on with it. */
  ghost predicate BeginsWith(s: string, word: string, rest: string) {
    && word != [] && NoSpace(word) && (rest == [] || IsSpace(rest[0]))
    && exists blanks :: AllSpace(blanks) && s == blanks + word + rest
  }

  lemma {:induction false} BlanksSkipped(blanks: string, s: string)
    requires AllSpace(blanks) && (s == [] || !IsSpace(s[0]))
    ensures SkipSpace(blanks + s) == s
  {
    if blanks == [] {
      assert blanks + s == s;
    } else {
      assert (blanks + s)[0] == blanks[0] && (blanks + s)[1..] == blanks[1..] + s;
      BlanksSkipped(blanks[1..], s);
    }
  }

  lemma {:induction false} SkippedBlanks(s: string) returns (blanks: string)
    ensures AllSpace(blanks) && s == blanks + SkipSpace(s)
    ensures SkipSpace(s) == [] || !IsSpace(SkipSpace(s)[0])
  {
    if s != [] && IsSpace(s[0]) {
      var more := SkippedBlanks(s[1..]);
      blanks := [s[0]] + more;
      assert s == [s[0]] + s[1..] == [s[0]] + (more + SkipSpace(s)) == blanks + SkipSpace(s);
    } else {
      blanks := [];
    }
  }

  lemma {:induction false} WordEnds(s: string)
    ensures var n := WordLength(s);
            NoSpace(s[..n]) && (s[n..] == [] || IsSpace(s[n..][0]))
  {
    if s != [] && !IsSpace(s[0]) {
      WordEnds(s[1..]);
      var n := WordLength(s);
      assert s[..n] == [s[0]] + s[1..][..n - 1] && s[n..] == s[1..][n - 1..];
    }
  }

  lemma NextWordExactly(s: string, word: string, rest: string)
    ensures NextWord(s) == Some((word, rest)) <==> BeginsWith(s, word, rest)
  {
    hide SkipSpace, WordLength, NoSpace;
    if BeginsWith(s, word, rest) {
      var blanks :| AllSpace(blanks) && s == blanks + word + rest;
      assert s == blanks + (word + rest);
      WordStarts(word, rest);
      BlanksSkipped(blanks, word + rest);
      WordLengthOf(word, rest);
    }
    var t := SkipSpace(s);
    var n := WordLength(t);
    if NextWord(s) == Some((word, rest)) {
      var blanks := SkippedBlanks(s);
      WordEnds(t);
      assert t == word + rest && s == blanks + word + rest;
    }
  }

  lemma WordStarts(word: string, rest: string)
    requires word != [] && NoSpace(word)
    ensures !IsSpace((word + rest)[0])
  {
  }

  /** Position of the first `c`, or the length if there is none. */
  function Find(s: string, c: char): (n: nat)
    ensures n <= |s|
  {
    if s == [] || s[0] == c then 0 else 1 + Find(s[1..], c)
  }

  lemma {:induction false} FindFirst(a: string, c: char, b: string)
    requires c !in a
    ensures Find(a + [c] + b, c) == |a|
  {
    var s := a + [c] + b;
    if a != [] {
      assert s[1..] == a[1..] + [c] + b;
      FindFirst(a[1..], c, b);
    }
  }

  lemma DigitsPlain(s: string)
    requires AllDigits(s)
    ensures NoSpace(s) && ':' !in s && '-' !in s
  {
  }

  // ---- Switching times ----

  /** The two bytes of a schedule entry: four bits on/off, four bits day, time in units of ten minutes. */
  datatype ScheduleEntry = ScheduleEntry(on: nat, day: nat, time: byte)

  const UNSET: ScheduleEntry := ScheduleEntry(7, 0xe, 0x90)

  const DAY_NAMES: seq<string> :=
    ["monday", "tuesday", "wednesday", "thursday", "friday", "saturday", "sunday"]

  function OnOff(on: nat): string {
    if on != 0 then "on" else "off"
  }

  function ClockText(time: byte): string {
    var minutes: nat := time as int * 10;
    Padded(minutes / 60, 2) + ":" + Padded(minutes % 60, 2)
  }

  /** An entry that is switched on some day of the week; the others print as nothing. */
  function PrintSchedule(e: ScheduleEntry): string
    requires e.time < 0x90 ==> e.day < 14
  {
    if e.time >= 0x90 then "" else DAY_NAMES[e.day / 2] + " " + ClockText(e.time) + " " + OnOff(e.on)
  }

  /** Index of a day name, or 7. */
  function DayIndex(name: string, from: nat): (i: nat)
    requires from <= 7
    ensures from <= i <= 7
    ensures i < 7 ==> DAY_NAMES[i] == name
    ensures forall k | from <= k < i :: DAY_NAMES[k] != name
    decreases 7 - from
  {
    if from == 7 || DAY_NAMES[from] == name then from else DayIndex(name, from + 1)
  }

  function ParseClock(s: string): Option<byte> {
    var pos := Find(s, ':');
    if pos == |s| then None
    else
      match (ParseUnsigned(s[..pos]), ParseUnsigned(s[pos + 1..]))
      case (Some(hours), Some(minutes)) =>
        if hours > 23 || minutes >= 60 || minutes % 10 != 0 then None else Some((hours * 60 + minutes) / 10)
      case _ => None
  }

  function ParseSchedule(request: string): Option<ScheduleEntry> {
    match NextWord(request)
    case None => None
    case Some((day, rest)) =>
      if day == "unset" then Some(UNSET)
      else
        match NextWord(rest)
        case None => None
        case Some((time, rest2)) =>
          match NextWord(rest2)
          case None => None
          case Some((mode, _)) =>
            if mode != "on" && mode != "off" then None
            else if DayIndex(day, 0) == 7 then None
            else
              match ParseClock(time)
              case None => None
              case Some(t) => Some(ScheduleEntry(if mode == "on" then 1 else 0, 2 * DayIndex(day, 0), t))
  }

  /** The loop over the day names in parseScheduleEntry. */
  method FindDay(day: string) returns (i: nat)
    ensures i == DayIndex(day, 0)
  {
    i := 0;
    while i < 7
      invariant i <= 7 && DayIndex(day, 0) == DayIndex(day, i)
    {
      if day == DAY_NAMES[i] {
        return;
      }
      i := i + 1;
    }
  }

  // ---- The texts the parser accepts ----

  /** Hours, a colon, minutes; whole tens of minutes. Both numbers may have a sign or leading zeros. */
  ghost predicate IsClock(text: string, time: byte) {
    exists h, m | text == h + [':'] + m && ':' !in h :: ClockIs(ParseUnsigned(h), ParseUnsigned(m), time)
  }

  predicate ClockIs(hours: Option<nat>, minutes: Option<nat>, time: byte) {
    && hours.Some? && minutes.Some? && hours.value <= 23 && minutes.value < 60
    && 10 * time == 60 * hours.value + minutes.value
  }

  function DayName(i: nat): string {
    if i == 0 then "monday" else if i == 1 then "tuesday" else if i == 2 then "wednesday"
    else if i == 3 then "thursday" else if i == 4 then "friday" else if i == 5 then "saturday" else "sunday"
  }

  lemma DayNamesAre(i: nat)
    requires i < 7
    ensures DAY_NAMES[i] == DayName(i)
  {
  }

  ghost predicate IsSwitching(day: string, clock: string, mode: string, e: ScheduleEntry) {
    && e.day % 2 == 0 && e.day < 14 && day == DayName(e.day / 2) && IsClock(clock, e.time)
    && ((mode == "on" && e.on == 1) || (mode == "off" && e.on == 0))
  }

  ghost predicate ThreeWords(text: string, a: string, b: string, c: string) {
    exists r, r', r'' :: BeginsWith(text, a, r) && BeginsWith(r, b, r') && BeginsWith(r', c, r'')
  }

  /** The word for no switching time, or the words for one; anything may follow. */
  ghost predicate IsScheduleText(text: string, e: ScheduleEntry) {
    || (e == ScheduleEntry(7, 14, 0x90) && exists rest :: BeginsWith(text, "unset", rest))
    || (exists day, clock, mode :: ThreeWords(text, day, clock, mode) && IsSwitching(day, clock, mode, e))
  }

  lemma ClockExactly(text: string, time: byte)
    ensures ParseClock(text) == Some(time) <==> IsClock(text, time)
  {
    hide ParseUnsigned, Find, ParseClock;
    var pos := Find(text, ':');
    FindSplits(text, ':');
    ParseClockIs(text, time);
    if h, m :| text == h + [':'] + m && ':' !in h && ClockIs(ParseUnsigned(h), ParseUnsigned(m), time) {
      FindFirst(h, ':', m);
      assert text[..pos] == h && text[pos + 1..] == m;
    }
    if pos < |text| {
      assert text == text[..pos] + [':'] + text[pos + 1..];
    }
  }

  lemma ParseClockIs(text: string, time: byte)
    ensures var pos := Find(text, ':');
            ParseClock(text) == Some(time) <==>
              pos < |text| && ClockIs(ParseUnsigned(text[..pos]), ParseUnsigned(text[pos + 1..]), time)
  {
    hide ParseUnsigned, Find;
  }

  lemma {:induction false} FindSplits(s: string, c: char)
    ensures c !in s[..Find(s, c)]
    ensures Find(s, c) < |s| ==> s[Find(s, c)] == c
  {
    if s != [] && s[0] != c {
      FindSplits(s[1..], c);
      assert s[..Find(s, c)] == [s[0]] + s[1..][..Find(s[1..], c)];
    }
  }

  /** The parser accepts exactly these texts, each for exactly its entry. */
  lemma ParseScheduleExactly(text: string, e: ScheduleEntry)
    ensures ParseSchedule(text) == Some(e) <==> IsScheduleText(text, e)
  {
    if ParseSchedule(text) == Some(e) {
      AcceptedIsText(text, e);
    }
    if IsScheduleText(text, e) {
      TextIsAccepted(text, e);
    }
  }

  lemma AcceptedIsText(text: string, e: ScheduleEntry)
    requires ParseSchedule(text) == Some(e)
    ensures IsScheduleText(text, e)
  {
    hide NextWord, BeginsWith, ParseClock, IsClock;
    var (day, r) := NextWord(text).value;
    NextWordExactly(text, day, r);
    if day != "unset" {
      var (clock, r') := NextWord(r).value;
      NextWordExactly(r, clock, r');
      var (mode, r'') := NextWord(r').value;
      NextWordExactly(r', mode, r'');
      ClockExactly(clock, e.time);
      DayNamesAre(e.day / 2);
      assert ThreeWords(text, day, clock, mode) && IsSwitching(day, clock, mode, e);
    }
  }

  lemma TextIsAccepted(text: string, e: ScheduleEntry)
    requires IsScheduleText(text, e)
    ensures ParseSchedule(text) == Some(e)
  {
    hide NextWord, BeginsWith, ParseClock, IsClock, DayIndex;
    if rest :| e == ScheduleEntry(7, 14, 0x90) && BeginsWith(text, "unset", rest) {
      NextWordExactly(text, "unset", rest);
    } else {
      var day, clock, mode :| ThreeWords(text, day, clock, mode) && IsSwitching(day, clock, mode, e);
      var r, r', r'' :| BeginsWith(text, day, r) && BeginsWith(r, clock, r') && BeginsWith(r', mode, r'');
      NextWordExactly(text, day, r);
      NextWordExactly(r, clock, r');
      NextWordExactly(r', mode, r'');
      DayNames(e.day / 2);
      DayNamesAre(e.day / 2);
      ClockExactly(clock, e.time);
    }
  }

  /** Accepts exactly the schedule texts, and returns the entry the text stands for. */
  method ParseScheduleEntry(request: string) returns (entry: Option<ScheduleEntry>)
    ensures entry == ParseSchedule(request)
    ensures forall e :: IsScheduleText(request, e) <==> entry == Some(e)
  {
    hide NextWord, DayIndex, ParseUnsigned, Find, IsScheduleText;
    forall e ensures IsScheduleText(request, e) <==> ParseSchedule(request) == Some(e) {
      ParseScheduleExactly(request, e);
    }
    var first := NextWord(request);
    if first.None? {
      return None;
    }
    var day := first.value.0;
    if day == "unset" {
      return Some(UNSET);
    }
    var second := NextWord(first.value.1);
    if second.None? {
      return None;
    }
    var third := NextWord(second.value.1);
    if third.None? {
      return None;
    }
    var on: nat;
    if third.value.0 == "on" {
      on := 1;
    } else if third.value.0 == "off" {
      on := 0;
    } else {
      return None;
    }
    var i := FindDay(day);
    if i == 7 {
      return None;
    }
    var time := second.value.0;
    var pos := Find(time, ':');
    if pos == |time| {
      return None;
    }
    var hours := ParseUnsigned(time[..pos]);
    var minutes := ParseUnsigned(time[pos + 1..]);
    if hours.None? || minutes.None? || hours.value > 23 || minutes.value >= 60 || minutes.value % 10 != 0 {
      return None;
    }
    return Some(ScheduleEntry(on, 2 * i, (hours.value * 60 + minutes.value) / 10));
  }

  /** Entries in the form the parser makes them. */
  predicate Normal(e: ScheduleEntry) {
    e.on <= 1 && e.day % 2 == 0 && e.day < 14 && e.time < 0x90
  }

  function Normalize(e: ScheduleEntry): ScheduleEntry {
    ScheduleEntry(if e.on != 0 then 1 else 0, e.day / 2 * 2, e.time)
  }

  lemma ClockRoundTrip(time: byte)
    requires time < 0x90
    ensures ClockText(time) != [] && NoSpace(ClockText(time)) && ParseClock(ClockText(time)) == Some(time)
  {
    hide Padded, ParseUnsigned;
    var minutes: nat := time as int * 10;
    var h, m := Padded(minutes / 60, 2), Padded(minutes % 60, 2);
    PaddedRoundTrip(minutes / 60, 2);
    PaddedRoundTrip(minutes % 60, 2);
    DigitsPlain(h);
    DigitsPlain(m);
    FindFirst(h, ':', m);
    var s := h + ":" + m;
    assert s[..|h|] == h && s[|h| + 1..] == m;
  }

  lemma DayNames(i: nat)
    requires i < 7
    ensures DAY_NAMES[i] != [] && NoSpace(DAY_NAMES[i]) && DAY_NAMES[i] != "unset"
    ensures DayIndex(DAY_NAMES[i], 0) == i
  {
    var initials := ['m', 't', 'w', 't', 'f', 's', 's'];
    assert forall k | 0 <= k < 7 :: DAY_NAMES[k][0] == initials[k];
    assert DAY_NAMES[1][1] == 'u' && DAY_NAMES[3][1] == 'h' && DAY_NAMES[5][1] == 'a' && DAY_NAMES[6][1] == 'u';
    assert "unset"[0] == 'u';
  }

  function Digit(d: nat): char
    requires d < 10
  {
    ['0', '1', '2', '3', '4', '5', '6', '7', '8', '9'][d]
  }

  lemma TwoDigits(n: nat)
    requires n < 100
    ensures Padded(n, 2) == [Digit(n / 10), Digit(n % 10)]
  {
    assert forall d: nat | d < 10 :: DigitChar(d) == Digit(d);
    if n < 10 {
      assert Decimal(n) == [DigitChar(n)] && Zeros(1) == ['0'] + Zeros(0);
    } else {
      assert Decimal(n) == Decimal(n / 10) + [DigitChar(n % 10)];
    }
  }

  /** The text of a switching time, letter by letter; none for an unset one. */
  lemma ScheduleText(e: ScheduleEntry)
    requires e.time < 0x90 ==> e.day < 14
    ensures PrintSchedule(e) ==
            if e.time >= 0x90 then ""
            else DayName(e.day / 2)
                 + [' ', Digit(e.time / 6 / 10), Digit(e.time / 6 % 10), ':', Digit(e.time % 6), '0', ' ']
                 + (if e.on == 0 then "off" else "on")
  {
    if e.time < 0x90 {
      var minutes: nat := e.time as int * 10;
      DayNamesAre(e.day / 2);
      ClockParts(e.time);
      TwoDigits(e.time / 6);
      TwoDigits(e.time % 6 * 10);
    }
  }

  lemma ClockParts(time: byte)
    ensures time as int * 10 / 60 == time / 6 && time as int * 10 % 60 == time % 6 * 10
    ensures time % 6 * 10 / 10 == time % 6 && time % 6 * 10 % 10 == 0
  {
  }

  /** Printing an entry and parsing the text gives its normal form back. */
  lemma SchedulePrintParse(e: ScheduleEntry)
    requires e.day < 14 && e.time < 0x90
    ensures ParseSchedule(PrintSchedule(e)) == Some(Normalize(e))
    ensures ParseSchedule(PrintSchedule(e)) == Some(e) <==> Normal(e)
  {
    hide ClockText, ParseClock, NextWord, DayIndex, NoSpace;
    var day, time, mode := DAY_NAMES[e.day / 2], ClockText(e.time), OnOff(e.on);
    DayNames(e.day / 2);
    ClockRoundTrip(e.time);
    ModePlain(e.on);
    assert PrintSchedule(e) == day + ([' '] + time + ([' '] + mode + []));
    NextWordOf(day, [' '] + time + ([' '] + mode + []));
    NextWordOf(time, [' '] + mode + []);
    NextWordOf(mode, []);
  }

  lemma ModePlain(on: nat)
    ensures OnOff(on) != [] && NoSpace(OnOff(on)) && (OnOff(on) == "on" <==> on != 0)
  {
    assert "on"[1] == 'n' && "off"[1] == 'f';
  }

  /** What the parser accepts is normal or unset, and, unless unset, printing it gives a text that parses
      to the same entry: the normal form of the text. */
  lemma ScheduleParsePrint(text: string)
    requires ParseSchedule(text).Some?
    ensures var e := ParseSchedule(text).value;
            && (Normal(e) || e == UNSET)
            && (Normal(e) ==> ParseSchedule(PrintSchedule(e)) == Some(e))
            && (e == UNSET ==> PrintSchedule(e) == "" && ParseSchedule("").None?)
  {
    hide NextWord, ParseUnsigned, Find;
    var e := ParseSchedule(text).value;
    if Normal(e) {
      SchedulePrintParse(e);
    }
    EmptyStream();
  }

  lemma EmptyStream()
    ensures NextWord("").None?
  {
  }

  // ---- Holidays ----

  datatype HolidayEntry = HolidayEntry(day: byte, month: byte, year: byte)

  function PrintHoliday(e: HolidayEntry): string {
    Padded(2000 + e.year as int, 4) + "-" + Padded(e.month, 2) + "-" + Padded(e.day, 2)
  }

  function ParseHoliday(s: string): Option<HolidayEntry> {
    var pos := Find(s, '-');
    if pos == |s| then None
    else
      var tail := s[pos + 1..];
      var pos2 := Find(tail, '-');
      if pos2 == |tail| then None
      else
        match (ParseUnsigned(s[..pos]), ParseUnsigned(tail[..pos2]), ParseUnsigned(tail[pos2 + 1..]))
        case (Some(year), Some(month), Some(day)) =>
          if year < 2000 || year > 2100 || month < 1 || month > 12 || day < 1 || day > 31 then None
          else Some(HolidayEntry(day, month, year - 2000))
        case _ => None
  }

  /** The texts for a date: year, month and day as numbers, between two hyphens. Numbers may have a sign or
      leading zeros; only that of the day may be a minus. */
  ghost predicate IsHolidayText(text: string, e: HolidayEntry) {
    && CalendarEntry(e)
    && exists y, m, d | text == y + ['-'] + (m + ['-'] + d) && '-' !in y && '-' !in m ::
         DateIs(ParseUnsigned(y), ParseUnsigned(m), ParseUnsigned(d), e)
  }

  predicate DateIs(year: Option<nat>, month: Option<nat>, day: Option<nat>, e: HolidayEntry) {
    year == Some(2000 + e.year as int) && month == Some(e.month as nat) && day == Some(e.day as nat)
  }

  /** The parser accepts exactly these texts, each for exactly its date. */
  lemma ParseHolidayExactly(text: string, e: HolidayEntry)
    ensures ParseHoliday(text) == Some(e) <==> IsHolidayText(text, e)
  {
    hide ParseUnsigned, Find, ParseHoliday, CalendarEntry, DateIs;
    ParseHolidayIs(text, e);
    if ParseHoliday(text) == Some(e) {
      var y, tail := Split(text, '-');
      var m, d := Split(tail, '-');
      assert text == y + ['-'] + (m + ['-'] + d);
    }
    if IsHolidayText(text, e) {
      var y, m, d :| text == y + ['-'] + (m + ['-'] + d) && '-' !in y && '-' !in m
                     && DateIs(ParseUnsigned(y), ParseUnsigned(m), ParseUnsigned(d), e);
      Joined(y, '-', m + ['-'] + d);
      Joined(m, '-', d);
    }
  }

  /** A text cut at its first `c`. */
  lemma Split(s: string, c: char) returns (a: string, b: string)
    requires Find(s, c) < |s|
    ensures a == s[..Find(s, c)] && b == s[Find(s, c) + 1..] && s == a + [c] + b && c !in a
  {
    hide Find;
    FindSplits(s, c);
    a, b := s[..Find(s, c)], s[Find(s, c) + 1..];
  }

  lemma Joined(a: string, c: char, b: string)
    requires c !in a
    ensures var s := a + [c] + b;
            Find(s, c) == |a| < |s| && s[..Find(s, c)] == a && s[Find(s, c) + 1..] == b
  {
    hide Find;
    FindFirst(a, c, b);
  }

  lemma ParseHolidayIs(text: string, e: HolidayEntry)
    ensures var pos := Find(text, '-');
            var tail := if pos < |text| then text[pos + 1..] else "";
            var pos2 := Find(tail, '-');
            ParseHoliday(text) == Some(e) <==>
              && pos < |text| && pos2 < |tail| && CalendarEntry(e)
              && DateIs(ParseUnsigned(text[..pos]), ParseUnsigned(tail[..pos2]), ParseUnsigned(tail[pos2 + 1..]), e)
  {
    hide ParseUnsigned, Find;
  }

  predicate CalendarEntry(e: HolidayEntry) {
    e.year <= 100 && 1 <= e.month <= 12 && 1 <= e.day <= 31
  }

  /** The text of a date, letter by letter: year from 2000 on, month, day. */
  lemma HolidayText(e: HolidayEntry)
    requires CalendarEntry(e)
    ensures PrintHoliday(e) ==
            (if e.year == 100 then "2100" else ['2', '0', Digit(e.year / 10), Digit(e.year % 10)])
            + ['-', Digit(e.month / 10), Digit(e.month % 10), '-', Digit(e.day / 10), Digit(e.day % 10)]
  {
    hide Padded, Digit;
    TwoDigits(e.month);
    TwoDigits(e.day);
    YearText(e.year);
    var m, d := Padded(e.month, 2), Padded(e.day, 2);
    assert m == [m[0], m[1]] && d == [d[0], d[1]];
    assert Padded(2000 + e.year as int, 4) + "-" + m + "-" + d
        == Padded(2000 + e.year as int, 4) + ['-', m[0], m[1], '-', d[0], d[1]];
  }

  lemma YearText(year: byte)
    requires year <= 100
    ensures Padded(2000 + year as int, 4)
            == if year == 100 then "2100" else ['2', '0', Digit(year / 10), Digit(year % 10)]
  {
    var n: nat := 2000 + year;
    assert forall d: nat | d < 10 :: DigitChar(d) == Digit(d);
    assert Decimal(n) == Decimal(n / 10) + [DigitChar(n % 10)];
    assert Decimal(n / 10) == Decimal(n / 100) + [DigitChar(n / 10 % 10)];
    assert Decimal(n / 100) == Decimal(n / 1000) + [DigitChar(n / 100 % 10)];
    assert Decimal(n / 1000) == [DigitChar(n / 1000)];
    if year == 100 {
      assert n / 100 == 21;
    } else {
      assert n / 100 == 20 && n / 10 % 10 == year / 10 && n % 10 == year % 10;
    }
  }

  /** Every holiday date prints to a text the parser takes back exactly if it is inside the calendar. */
  lemma HolidayPrintParse(e: HolidayEntry)
    ensures ParseHoliday(PrintHoliday(e)) == if CalendarEntry(e) then Some(e) else None
  {
    hide Padded, ParseUnsigned, Find;
    var year: nat := 2000 + e.year as int;
    var y, m, d := Padded(year, 4), Padded(e.month, 2), Padded(e.day, 2);
    PaddedRoundTrip(year, 4);
    PaddedRoundTrip(e.month, 2);
    PaddedRoundTrip(e.day, 2);
    DigitsPlain(y);
    DigitsPlain(m);
    var s, tail := PrintHoliday(e), m + ['-'] + d;
    assert s == y + ['-'] + tail;
    FindFirst(y, '-', tail);
    FindFirst(m, '-', d);
    assert s[..|y|] == y && s[|y| + 1..] == tail && tail[..|m|] == m && tail[|m| + 1..] == d;
  }

  /** What the parser accepts is inside the calendar, so printing and parsing it again changes nothing. */
  lemma HolidayParsePrint(text: string)
    requires ParseHoliday(text).Some?
    ensures CalendarEntry(ParseHoliday(text).value)
    ensures ParseHoliday(PrintHoliday(ParseHoliday(text).value)) == ParseHoliday(text)
  {
    hide ParseUnsigned, Find;
    HolidayPrintParse(ParseHoliday(text).value);
  }

  /** The check that a holiday does not begin after its end. */
  predicate BeginAccepted(begin: HolidayEntry, end: HolidayEntry) {
    if begin.year > end.year then false
    else if begin.year == end.year then
      if begin.month > end.month then false
      else if begin.month == end.month then begin.day <= end.day
      else true
    else true
  }

  /** Days since 2000, if every month had 31. */
  function DayCount(e: HolidayEntry): int {
    e.year as int * 372 + (e.month as int - 1) * 31 + (e.day as int - 1)
  }

  /** It is the order of the calendar: total, and equality only for equal dates. */
  lemma BeginAcceptedExactly(begin: HolidayEntry, end: HolidayEntry)
    requires CalendarEntry(begin) && CalendarEntry(end)
    ensures BeginAccepted(begin, end) <==> DayCount(begin) <= DayCount(end)
    ensures DayCount(begin) == DayCount(end) <==> begin == end
  {
  }
}
