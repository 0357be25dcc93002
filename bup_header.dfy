/** The C definition of the `.BUP` container (bup_header.h): the packed 64-byte
    `vmem_bup_header_t` with its embedded `jo_backup_file` record, the backup language
    enumeration, and the Saturn BIOS date conversions `bup_getdate` / `bup_setdate`. */
module BupHeader {
  import opened Wrappers
  import opened Bytes
  import opened CycleCalendar

  const BupHeaderSize := 64
  const VmemMagicStringLen := 4
  /** "Vmem" in ASCII. */
  const VmemMagicString: seq<uint8> := [0x56, 0x6D, 0x65, 0x6D]
  const JoBackupMaxFilenameLength := 12
  const JoBackupMaxCommentLength := 10

  // ---------------------------------------------------------------------------
  // Layout of the packed structures

  /** Byte offset of field `k` when fields are laid out back to back. */
  function Offset(sizes: seq<nat>, k: nat): nat
    requires k <= |sizes|
  {
    if k == 0 then 0 else Offset(sizes, k - 1) + sizes[k - 1]
  }

  /** Total width of fields laid out back to back. */
  function Sum(sizes: seq<nat>): nat
  {
    Offset(sizes, |sizes|)
  }

  /** Indices of the `jo_backup_file` fields. */
  const DirFilename := 0
  const DirComment := 1
  const DirLanguage := 2
  const DirDate := 3
  const DirDatasize := 4
  const DirBlocksize := 5
  const DirPadding := 6

  /** Widths of the `jo_backup_file` fields, in declaration order. */
  const DirFieldSizes: seq<nat> :=
    [JoBackupMaxFilenameLength, JoBackupMaxCommentLength + 1, 1, 4, 4, 2, 2]

  /** `vmem_bup_stats_t`: four one-byte counters. */
  const StatsSize := 4

  /** Indices of the `vmem_bup_header_t` fields. */
  const HeaderMagic := 0
  const HeaderSaveId := 1
  const HeaderStats := 2
  const HeaderUnused1 := 3
  const HeaderDir := 4
  const HeaderDate := 5
  const HeaderUnused2 := 6

  /** Widths of the `vmem_bup_header_t` fields, in declaration order (the struct is packed). */
  const HeaderFieldSizes: seq<nat> :=
    [VmemMagicStringLen, 4, StatsSize, 8 - StatsSize, Sum(DirFieldSizes), 4, 8]

  /** Every 2- and 4-byte field starts at a multiple of its width, so the compiler
      inserts no padding and the back-to-back offsets are the C offsets. */
  ghost predicate NaturallyAligned(sizes: seq<nat>)
  {
    forall k :: 0 <= k < |sizes| && (sizes[k] == 2 || sizes[k] == 4) ==> Offset(sizes, k) % sizes[k] == 0
  }

  // ---------------------------------------------------------------------------
  // Languages

  /** `enum jo_backup_language`. */
  datatype Language = Japanese | English | French | Deutsch | Espanol | Italiano

  function Ordinal(l: Language): uint8
  {
    match l
    case Japanese => 0
    case English => 1
    case French => 2
    case Deutsch => 3
    case Espanol => 4
    case Italiano => 5
  }

  /** The enumerator with ordinal `n`, if any. */
  function LanguageOf(n: int): (l: Option<Language>)
    ensures l.Some? <==> 0 <= n <= 5
    ensures l.Some? ==> Ordinal(l.value) == n
  {
    if n == 0 then Some(Japanese)
    else if n == 1 then Some(English)
    else if n == 2 then Some(French)
    else if n == 3 then Some(Deutsch)
    else if n == 4 then Some(Espanol)
    else if n == 5 then Some(Italiano)
    else None
  }

  // ---------------------------------------------------------------------------
  // Dates

  /** `jo_backup_date`; `year` is the offset from 1980, `time` the hour. */
  datatype BackupDate = BackupDate(year: uint8, month: uint8, day: uint8, time: uint8, min: uint8, week: uint8)

  /** The date the BIOS reserves for "no date": every field but the weekday zero. */
  predicate IsNullDate(tb: BackupDate)
  {
    tb.year == 0 && tb.month == 0 && tb.day == 0 && tb.time == 0 && tb.min == 0
  }

  const NullDateSentinel: uint32 := 0x008246A0

  /** The day of the week (0 = Sunday) of day `days`: 1980-01-01 was a Tuesday, and
      after day 0xAB71 (the cycle calendar's 2100-02-29, which the Gregorian calendar
      does not have) the weekday count is one day behind. */
  function Weekday(days: nat): uint8
  {
    if days > 0xAB71 then (days + 1) % 7 else (days + 2) % 7
  }

  /** The fields a packed date stands for: minute, hour, and the cycle-calendar date of
      its day count, with the year offset cut to one byte as the C field is. */
  ghost function Unpacked(date: uint32): BackupDate
  {
    var t := DateOfDay(date / (60 * 24));
    BackupDate(t.year % 256, t.month, t.day, (date % (60 * 24)) / 60, date % 60, Weekday(date / (60 * 24)))
  }

  /** The day count a timestamp packs to; months past December add no month offset. */
  function DaysOf(tb: BackupDate): int
    requires tb.month >= 1
  {
    if tb.month <= 12 then DayNumber(tb.year, tb.month, tb.day)
    else DaysBeforeYear(tb.year) + tb.day - 1
  }

  /** The packed date of a timestamp: the sentinel for the null date, otherwise minutes
      since 1980-01-01 00:00 in the cycle calendar, in 32-bit unsigned arithmetic. */
  function Packed(tb: BackupDate): uint32
    requires tb.month >= 1 || IsNullDate(tb)
  {
    if IsNullDate(tb) then NullDateSentinel
    else (DaysOf(tb) * (60 * 24) + tb.time * 60 + tb.min) % 0x1_0000_0000
  }

  /** `bup_getdate`: expands a packed date (its output argument `tb` is the result). */
  method GetDate(date: uint32) returns (tb: BackupDate)
    ensures tb == Unpacked(date)
  {
    var min := date % 60;
    var time := (date % (60 * 24)) / 60;
    var div := date / (60 * 24);
    var week;
    if div > 0xAB71 {
      week := (div + 1) % 7;
    } else {
      week := (div + 2) % 7;
    }

    var yearBase, month, daysRemain := WalkCycle(div);
    tb := BackupDate(yearBase % 256, month + 1, daysRemain + 1, time, min, week);
  }

  /** The month walk of `bup_getdate`: from the start of day `div`'s four-year cycle,
      take whole months (at most the cycle's 48) while they fit in the remaining days.
      It stops at the date of day `div`. */
  method WalkCycle(div: nat) returns (yearBase: nat, month: nat, daysRemain: nat)
    ensures DateOfDay(div) == Date(yearBase, month + 1, daysRemain + 1)
  {
    yearBase := div / ((365 * 4) + 1);
    yearBase := yearBase * 4;
    daysRemain := div % ((365 * 4) + 1);
    ghost var cycleStart := yearBase;
    WalkStart(div);
    month := 0;
    for i := 0 to 4 * 12
      invariant cycleStart % 4 == 0
      invariant yearBase >= cycleStart && i == 12 * (yearBase - cycleStart) + month
      invariant WalkAt(div, yearBase, month, daysRemain)
    {
      var daysPerMonth := DaysCount[i % 12];
      if i == 1 {
        daysPerMonth := daysPerMonth + 1;
      }
      assert i % 12 == month && daysPerMonth == MonthLength(yearBase, month + 1) by {
        DivMod12(i, yearBase - cycleStart, month);
        CycleMonthLength(cycleStart, i);
      }
      if daysRemain < daysPerMonth {
        break;
      }
      WalkStep(div, yearBase, month, daysRemain, daysPerMonth);
      daysRemain := daysRemain - daysPerMonth;
      month := month + 1;
      if i % 12 == 11 {
        month := 0;
        yearBase := yearBase + 1;
      }
    }
    WalkInCycle(div, yearBase, month, daysRemain);
    WalkEnd(div, yearBase, month, daysRemain);
  }

  /** `bup_setdate`: compresses a timestamp. Month 0 outside the null date would index
      `monthtbl[-2]`, which C leaves undefined; callers must not pass it. */
  method SetDate(tb: BackupDate) returns (r: uint32)
    requires tb.month >= 1 || IsNullDate(tb)
    ensures r == Packed(tb)
  {
    if tb.year == 0 && tb.month == 0 && tb.day == 0 && tb.time == 0 && tb.min == 0 {
      r := NullDateSentinel;
      return;
    }

    // Add year to result; unsigned wrap-around is taken once, at the end.
    var data: int := tb.year;
    var date: int := (data / 4) * 0x5B5;
    var remainder := data % 4;
    if remainder != 0 {
      date := date + (remainder * 0x16D) + 1;
    }
    YearTable(tb.year);
    assert date == DaysBeforeYear(tb.year);

    // Leap year fix.
    var year := 1980 + tb.year;
    var leapYear: bool;
    if year % 4 != 0 {
      leapYear := false;
    } else if year % 100 != 0 {
      leapYear := true;
    } else if year % 400 != 0 {
      leapYear := false;
    } else {
      leapYear := true;
    }
    LeapFixups(tb.year);
    date := date - 1;
    if leapYear && tb.month == 2 {
      date := date - 1;
    }
    if year > 2000 && year % 100 == 0 && tb.month == 2 {
      date := date - 1;
    }

    // Add month to result.
    data := tb.month;
    if data != 1 && data < 13 {
      date := date + ElapsedDays[data - 2];
      if date > 2 && remainder == 0 {
        date := date + 1;
      }
    }
    if 1 <= tb.month <= 12 {
      MonthTable(tb.year, tb.month);
    }
    assert date == DaysOf(tb) - tb.day;

    // Add day, hour and minute.
    date := date + tb.day;
    date := date * 0x5A0;
    date := date + (tb.time * 0x3C);
    date := date + tb.min;
    r := date % 0x1_0000_0000;
  }

  /** Between 1980 and 2235 the two February fix-ups of `bup_setdate` together remove
      exactly one day in the cycle's leap year and none otherwise. */
  lemma LeapFixups(offset: uint8)
    ensures (if IsGregorianLeap(1980 + offset) then 1 else 0)
            + (if 1980 + offset > 2000 && (1980 + offset) % 100 == 0 then 1 else 0)
            == (if offset % 4 == 0 then 1 else 0)
  {
  }

  // ---------------------------------------------------------------------------
  // Properties

  /** The packed layout: 36 bytes of directory record at offset 16, the BIOS date at
      52, the trailing 8 bytes at 56 and 64 bytes in all, with every 2- and 4-byte
      field on a multiple of its width. */
  lemma HeaderLayout()
    ensures Sum(DirFieldSizes) == 36 && Sum(HeaderFieldSizes) == BupHeaderSize
    ensures Offset(HeaderFieldSizes, HeaderSaveId) == 4 && Offset(HeaderFieldSizes, HeaderStats) == 8
    ensures Offset(HeaderFieldSizes, HeaderUnused1) == 12 && Offset(HeaderFieldSizes, HeaderDir) == 16
    ensures Offset(HeaderFieldSizes, HeaderDate) == 52 && Offset(HeaderFieldSizes, HeaderUnused2) == 56
    ensures Offset(DirFieldSizes, DirComment) == 12 && Offset(DirFieldSizes, DirLanguage) == 23
    ensures Offset(DirFieldSizes, DirDate) == 24 && Offset(DirFieldSizes, DirDatasize) == 28
    ensures Offset(DirFieldSizes, DirBlocksize) == 32 && Offset(DirFieldSizes, DirPadding) == 34
    ensures NaturallyAligned(DirFieldSizes) && NaturallyAligned(HeaderFieldSizes)
  {
    var dir, header := DirFieldSizes, HeaderFieldSizes;
    assert dir == [12, 11, 1, 4, 4, 2, 2];
    assert Offset(dir, 1) == 12;
    assert Offset(dir, 2) == 23;
    assert Offset(dir, 3) == 24;
    assert Offset(dir, 4) == 28;
    assert Offset(dir, 5) == 32;
    assert Offset(dir, 6) == 34;
    assert Offset(dir, 7) == 36;
    assert header == [4, 4, 4, 4, 36, 4, 8];
    assert Offset(header, 1) == 4;
    assert Offset(header, 2) == 8;
    assert Offset(header, 3) == 12;
    assert Offset(header, 4) == 16;
    assert Offset(header, 5) == 52;
    assert Offset(header, 6) == 56;
    assert Offset(header, 7) == 64;
  }

  /** Every enumerator is named by its own ordinal. */
  lemma LanguageRoundTrip(l: Language)
    ensures LanguageOf(Ordinal(l) as int) == Some(l)
  {
  }

  /** A packed date splits into minutes, hours and whole days. */
  lemma MinutesSplit(days: nat, hour: nat, min: nat)
    requires hour < 24 && min < 60
    ensures (days * (60 * 24) + hour * 60 + min) / (60 * 24) == days
    ensures ((days * (60 * 24) + hour * 60 + min) % (60 * 24)) / 60 == hour
    ensures (days * (60 * 24) + hour * 60 + min) % 60 == min
  {
    var x := days * (60 * 24) + hour * 60 + min;
    assert x == (days * 24 + hour) * 60 + min;
    assert x == days * (60 * 24) + (hour * 60 + min) && hour * 60 + min < 60 * 24;
  }

  /** Truncating the year offset to a byte keeps its place in the four-year cycle, hence
      its month lengths. */
  lemma ByteYearMonths(year: nat, month: int)
    requires 1 <= month <= 12
    ensures MonthLength(year % 256, month) == MonthLength(year, month)
  {
    assert (year % 256) % 4 == year % 4;
  }

  /** Every unpacked date is a well-formed timestamp: a real day of a real month, an
      hour below 24, a minute below 60 and a weekday below 7. */
  lemma UnpackedInRange(date: uint32)
    ensures var tb := Unpacked(date);
      Valid(Date(tb.year as nat, tb.month as int, tb.day as int)) && tb.time < 24 && tb.min < 60 && tb.week < 7
  {
    var t := DateOfDay(date / (60 * 24));
    ByteYearMonths(t.year, t.month);
  }

  /** A minute count of a day inside the 256 byte-named years fits in 32 bits. */
  lemma MinutesNoWrap(d: int, time: int, min: int)
    requires 0 <= d < ByteYearsDays && 0 <= time < 24 && 0 <= min < 60
    ensures 0 <= d * (60 * 24) + time * 60 + min < 0x1_0000_0000
    ensures (d * (60 * 24) + time * 60 + min) % 0x1_0000_0000 == d * (60 * 24) + time * 60 + min
  {
  }

  /** Timestamps inside the 256 years the year byte can name pack without 32-bit
      wrap-around. */
  lemma PackedNoWrap(tb: BackupDate)
    requires Valid(Date(tb.year as nat, tb.month as int, tb.day as int)) && tb.time < 24 && tb.min < 60
    ensures DaysOf(tb) < ByteYearsDays
    ensures Packed(tb) == DaysOf(tb) * (60 * 24) + tb.time * 60 + tb.min
  {
    assert tb.month <= 12 && !IsNullDate(tb);
    ByteYearsDay(Date(tb.year as nat, tb.month as int, tb.day as int));
    MinutesNoWrap(DaysOf(tb), tb.time as int, tb.min as int);
  }

  /** `bup_getdate` inverts `bup_setdate` on every well-formed timestamp: all fields come
      back, and the weekday is the weekday of the packed day. */
  lemma UnpackPacked(tb: BackupDate)
    requires Valid(Date(tb.year as nat, tb.month as int, tb.day as int)) && tb.time < 24 && tb.min < 60
    ensures Unpacked(Packed(tb)) == tb.(week := Weekday(DaysOf(tb)))
  {
    PackedNoWrap(tb);
    MinutesSplit(DaysOf(tb), tb.time as nat, tb.min as nat);
    DateOfDayNumber(Date(tb.year as nat, tb.month as int, tb.day as int));
  }

  /** `bup_setdate` inverts `bup_getdate` on every packed date whose day lies in the 256
      years the year byte can name. */
  lemma PackUnpacked(date: uint32)
    requires date / (60 * 24) < ByteYearsDays
    ensures Packed(Unpacked(date)) == date
  {
    var div := date / (60 * 24);
    var t := DateOfDay(div);
    assert t.year < 256 by {
      ByteYearsBound(t.year);
    }
    var time, min := (date % (60 * 24)) / 60, date % 60;
    assert Unpacked(date) == BackupDate(t.year as uint8, t.month as uint8, t.day as uint8, time, min, Weekday(div));
    PackedFields(t, time, min, Weekday(div));
    MinutesJoin(date as nat);
  }

  /** The packed form of a valid date in the year byte's range, with an hour and minute. */
  lemma PackedFields(t: Date, time: uint8, min: uint8, week: uint8)
    requires Valid(t) && t.year < 256 && time < 24 && min < 60
    ensures Packed(BackupDate(t.year as uint8, t.month as uint8, t.day as uint8, time, min, week))
            == DayNumber(t.year, t.month, t.day) * (60 * 24) + time * 60 + min
  {
    var tb := BackupDate(t.year as uint8, t.month as uint8, t.day as uint8, time, min, week);
    PackedNoWrap(tb);
  }

  /** A minute count is its whole days, hours and minutes put back together. */
  lemma MinutesJoin(x: nat)
    ensures x == (x / (60 * 24)) * (60 * 24) + ((x % (60 * 24)) / 60) * 60 + x % 60
  {
    var r := x % (60 * 24);
    assert x == (x / (60 * 24)) * (60 * 24) + r;
    assert r == (r / 60) * 60 + r % 60;
    assert r % 60 == x % 60;
  }

  /** Chronological order of timestamps, weekday aside. */
  predicate Earlier(a: BackupDate, b: BackupDate)
  {
    var da, db := Date(a.year as nat, a.month as int, a.day as int), Date(b.year as nat, b.month as int, b.day as int);
    Before(da, db) || (da == db && (a.time < b.time || (a.time == b.time && a.min < b.min)))
  }

  /** Packed dates of well-formed timestamps compare as the timestamps do. */
  lemma PackedIncreasing(a: BackupDate, b: BackupDate)
    requires Valid(Date(a.year as nat, a.month as int, a.day as int)) && a.time < 24 && a.min < 60
    requires Valid(Date(b.year as nat, b.month as int, b.day as int)) && b.time < 24 && b.min < 60
    requires Earlier(a, b)
    ensures Packed(a) < Packed(b)
  {
    PackedNoWrap(a);
    PackedNoWrap(b);
    var da, db := Date(a.year as nat, a.month as int, a.day as int), Date(b.year as nat, b.month as int, b.day as int);
    if Before(da, db) {
      DayNumberIncreasing(da, db);
      assert DaysOf(a) + 1 <= DaysOf(b);
    }
  }

  /** The null-date sentinel is the packed form of 1996-03-26 00:00, a Tuesday. */
  lemma NullDateSentinelValue()
    ensures Unpacked(NullDateSentinel) == BackupDate(16, 3, 26, 0, 0, 2)
  {
    assert DaysBeforeYear(16) == 5844 by {
      YearTable(16);
    }
    assert DaysBeforeMonth(16, 3) == 60 by {
      MonthTable(16, 3);
    }
    DateOfDayNumber(Date(16, 3, 26));
    assert DateOfDay(5929) == Date(16, 3, 26);
    assert NullDateSentinel / (60 * 24) == 5929 && NullDateSentinel % (60 * 24) == 0;
  }

  /** The sentinel does not single out the null date: 1996-03-26 00:00 packs to it too. */
  lemma NullDateSentinelShared(week: uint8)
    ensures Packed(BackupDate(16, 3, 26, 0, 0, week)) == NullDateSentinel
    ensures Packed(BackupDate(0, 0, 0, 0, 0, week)) == NullDateSentinel
  {
    YearTable(16);
    MonthTable(16, 3);
  }

  /** The first packed date the header documents: 1981-01-01 00:42, a Thursday. */
  lemma DocumentedDate1981()
    ensures Unpacked(0x00080AEA) == BackupDate(1, 1, 1, 0, 42, 4)
  {
    assert DaysBeforeYear(1) == 366 by {
      YearTable(1);
    }
    DateOfDayNumber(Date(1, 1, 1));
    assert DateOfDay(366) == Date(1, 1, 1);
    assert 0x00080AEA / (60 * 24) == 366 && 0x00080AEA % (60 * 24) == 42;
  }

  /** The second packed date the header documents: 1985-01-01 00:42, a Tuesday. */
  lemma DocumentedDate1985()
    ensures Unpacked(0x0028250A) == BackupDate(5, 1, 1, 0, 42, 2)
  {
    assert DaysBeforeYear(5) == 1827 by {
      YearTable(5);
    }
    DateOfDayNumber(Date(5, 1, 1));
    assert DateOfDay(1827) == Date(5, 1, 1);
    assert 0x0028250A / (60 * 24) == 1827 && 0x0028250A % (60 * 24) == 42;
  }

  /** 1980-01-01 was a Tuesday; each later day advances the weekday by one, except the
      cycle calendar's 2100-02-29 (day 0xAB71), whose successor repeats its weekday so
      that the weekdays keep following the Gregorian calendar until 2200-02-28 (the cycle
      calendar also has a 2200-02-29, which is not skipped). */
  lemma WeekdaySuccession(n: nat)
    ensures Weekday(0) == 2
    ensures n != 0xAB71 ==> Weekday(n + 1) == (Weekday(n) + 1) % 7
    ensures Weekday(0xAB71 + 1) == Weekday(0xAB71)
    ensures DayNumber(120, 2, 29) == 0xAB71
  {
    assert DaysBeforeYear(120) == 30 * DaysPerCycle by {
      YearTable(120);
    }
    assert DaysBeforeMonth(120, 2) == 31 by {
      MonthTable(120, 2);
    }
  }
}
