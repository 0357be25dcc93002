/** The Python tool for `.BUP` files (bup_parse.py): the language table, its ports of
    `bup_getdate` and `bup_setdate` to Python `datetime` values, the header check of
    `validateBUPData` and the header builder `createBUPHeader`. */
module BupParse {
  import opened Wrappers
  import opened Bytes
  import opened CycleCalendar
  import BupHeader

  const BupHeaderSize := 64
  /** `BUP_HEADER_MAGIC`. */
  const BupHeaderMagic: string := "Vmem"
  const MaxSaveNameLength := 12
  const MaxSaveCommentLength := 11

  // ---------------------------------------------------------------------------
  // Languages

  /** `getBUPLanguage`: the language name of an id. */
  function GetBupLanguage(langId: int): (name: Option<string>)
    ensures name.Some? <==> 0 <= langId <= 5
  {
    if langId == 0 then Some("Japanese")
    else if langId == 1 then Some("English")
    else if langId == 2 then Some("Francais")
    else if langId == 3 then Some("Deutsch")
    else if langId == 4 then Some("Espanol")
    else if langId == 5 then Some("Italiano")
    else None
  }

  /** `str.lower()` on the ASCII letters. */
  function LowerChar(c: char): char
  {
    if 'A' <= c <= 'Z' then (c as int + 32) as char else c
  }

  function ToLower(s: string): string
  {
    seq(|s|, i requires 0 <= i < |s| => LowerChar(s[i]))
  }

  /** `getBUPLangId`: the id of a language name, whatever its letter case. */
  function GetBupLangId(language: string): (langId: Option<int>)
    ensures langId.Some? ==> 0 <= langId.value <= 5
  {
    var language := ToLower(language);
    if language == "japanese" then Some(0)
    else if language == "english" then Some(1)
    else if language == "francais" then Some(2)
    else if language == "deutsch" then Some(3)
    else if language == "espanol" then Some(4)
    else if language == "italiano" then Some(5)
    else None
  }

  /** The table's names, lower-cased, are the names `getBUPLangId` compares against. */
  lemma LowerLanguageNames()
    ensures ToLower("Japanese") == "japanese" && ToLower("English") == "english"
    ensures ToLower("Francais") == "francais" && ToLower("Deutsch") == "deutsch"
    ensures ToLower("Espanol") == "espanol" && ToLower("Italiano") == "italiano"
  {
    assert ToLower("Japanese") == "japanese";
    assert ToLower("English") == "english";
    assert ToLower("Francais") == "francais";
    assert ToLower("Deutsch") == "deutsch";
    assert ToLower("Espanol") == "espanol";
    assert ToLower("Italiano") == "italiano";
  }

  /** A name matches an id exactly when it equals that id's name up to letter case. */
  lemma LangIdMatches(language: string, i: int)
    ensures GetBupLangId(language) == Some(i)
            <==> 0 <= i <= 5 && ToLower(language) == ToLower(GetBupLanguage(i).value)
  {
    LowerLanguageNames();
    assert "japanese"[0] == 'j' && "english"[0] == 'e' && "francais"[0] == 'f';
    assert "deutsch"[0] == 'd' && "espanol"[1] == 's' && "italiano"[0] == 'i' && "english"[1] == 'n';
  }

  /** Every id's name maps back to the id. */
  lemma LanguageRoundTrip(i: int)
    requires 0 <= i <= 5
    ensures GetBupLangId(GetBupLanguage(i).value) == Some(i)
  {
    LangIdMatches(GetBupLanguage(i).value, i);
  }

  /** "ENGLISH" is English. */
  lemma UpperCaseLanguage()
    ensures GetBupLangId("ENGLISH") == Some(1)
  {
    assert ToLower("ENGLISH") == "english";
  }

  /** The Python names follow the C `jo_backup_language` enumeration. */
  lemma LanguageTablesAgree(i: int)
    ensures GetBupLanguage(i).Some? <==> BupHeader.LanguageOf(i).Some?
    ensures GetBupLanguage(i).Some? ==> BupHeader.Ordinal(BupHeader.LanguageOf(i).value) == i
  {
  }

  // ---------------------------------------------------------------------------
  // Dates

  /** The fields `convertBUPDatetoDatetime` hands to `datetime.datetime`: an absolute
      year, month, day, hour and minute. */
  datatype DateTime = DateTime(year: int, month: int, day: int, hour: int, minute: int)

  /** Days in a month of the Gregorian calendar, which `datetime` follows. */
  function GregorianMonthLength(year: int, month: int): int
    requires 1 <= month <= 12
  {
    if month == 2 then (if IsGregorianLeap(year) then 29 else 28)
    else if month == 4 || month == 6 || month == 9 || month == 11 then 30
    else 31
  }

  /** The values a Python `datetime` can hold (to the minute). */
  predicate IsDateTime(dt: DateTime)
  {
    1 <= dt.year <= 9999 && 1 <= dt.month <= 12 && 1 <= dt.day <= GregorianMonthLength(dt.year, dt.month)
    && 0 <= dt.hour < 24 && 0 <= dt.minute < 60
  }

  /** The timestamp of a packed date, with the year counted from 1980 without the C
      field's one-byte truncation. */
  ghost function DatetimeOfBupDate(bupDate: uint32): DateTime
  {
    var t := DateOfDay(bupDate / (60 * 24));
    DateTime(t.year + 1980, t.month, t.day, (bupDate % (60 * 24)) / 60, bupDate % 60)
  }

  /** `convertBUPDatetoDatetime`: `bup_getdate` without the weekday, and with the year
      made absolute instead of cut to a byte. Its float divisions are
      exact here and are written as integer divisions. */
  method ConvertBupDateToDatetime(bupDate: uint32) returns (dt: DateTime)
    ensures dt == DatetimeOfBupDate(bupDate)
  {
    var mins := (bupDate % 60) % 0x100;
    var hours := ((bupDate % (60 * 24)) / 60) % 0x100;
    assert mins == bupDate % 60 && hours == (bupDate % (60 * 24)) / 60 by {
      assert (bupDate % (60 * 24)) / 60 < 24;
    }
    var div := bupDate / (60 * 24);

    // The 48-month walk of `convertBUPDatetoDatetime` is line for line that of `bup_getdate`.
    var yearBase, month, daysRemain := BupHeader.WalkCycle(div);

    var year := yearBase + 1980;
    dt := DateTime(year, month + 1, daysRemain + 1, hours, mins);
  }

  /** The days by which the Python leap-year fix-ups, which test the absolute year,
      move a February date away from the cycle calendar: one day later in years like
      1900 (divisible by 100, not by 400, before 2001), one day earlier in years like
      2400 (divisible by 400, after 2000). */
  function FebruaryDrift(year: int, month: int): int
  {
    if month != 2 then 0
    else if year % 100 == 0 && year % 400 != 0 && year <= 2000 then 1
    else if year % 400 == 0 && year > 2000 then -1
    else 0
  }

  /** What `convertDatetimetoBUPDate` computes: minutes since 1980-01-01 00:00 in the
      cycle calendar, for the year offset cut to a byte, shifted by the February drift. */
  function BupDateOf(dt: DateTime): int
    requires IsDateTime(dt)
  {
    (DayNumber((dt.year - 1980) % 256, dt.month, dt.day) + FebruaryDrift(dt.year, dt.month)) * (60 * 24)
    + dt.hour * 60 + dt.minute
  }

  /** The two Python fix-ups and the cycle's February day together give the drift. */
  lemma PythonLeapFixups(year: int, month: int)
    ensures (if month == 2 && year % 4 == 0 then 1 else 0)
            - (if IsGregorianLeap(year) && month == 2 then 1 else 0)
            - (if year > 2000 && year % 100 == 0 && month == 2 then 1 else 0)
            == FebruaryDrift(year, month)
  {
    if year % 100 == 0 {
      var q := year / 100;
      assert year == 4 * (25 * q);
    }
    if year % 400 == 0 {
      var q := year / 400;
      assert year == 100 * (4 * q);
    }
  }

  /** The byte-sized year offset keeps the year's place in the four-year cycle. */
  lemma OffsetParity(year: int)
    ensures ((year - 1980) % 256) % 4 == year % 4
  {
    var o := year - 1980;
    var q := o / 256;
    assert o % 256 == o - 256 * q;
    assert o - 256 * q == 4 * (495 - 64 * q) + (year - 4 * 495 * 2);
    assert (o - 256 * q) % 4 == (year - 3960) % 4;
    assert (year - 3960) % 4 == year % 4;
  }

  /** `convertDatetimetoBUPDate`: the `bup_setdate` sum on a `datetime`. Its all-zero
      guard cannot fire, because a `datetime` year is at least 1. */
  method ConvertDatetimeToBupDate(dt: DateTime) returns (r: int)
    requires IsDateTime(dt)
    ensures r == BupDateOf(dt)
  {
    // Add year to result.
    var data := (dt.year - 1980) % 0x100;
    var date := (data / 4) * 0x5B5;
    var remainder := data % 4;
    if remainder != 0 {
      date := date + (remainder * 0x16D) + 1;
    }
    assert date == DaysBeforeYear(data) by {
      YearTable(data);
    }

    // Leap year fix.
    var year := dt.year % 0x1_0000;
    var leapYear := 0;
    if year % 4 != 0 {
      leapYear := 0;
    } else if year % 100 != 0 {
      leapYear := 1;
    } else if year % 400 != 0 {
      leapYear := 0;
    } else {
      leapYear := 1;
    }
    assert year == dt.year && (leapYear == 1 <==> IsGregorianLeap(dt.year));
    date := date - 1;
    if leapYear != 0 && dt.month == 2 {
      date := date - 1;
    }
    if year > 2000 && year % 100 == 0 && dt.month == 2 {
      date := date - 1;
    }
    assert date == DaysBeforeYear(data) - 1 + FebruaryDrift(dt.year, dt.month)
                   - (if dt.month == 2 && remainder == 0 then 1 else 0) by {
      OffsetParity(dt.year);
      PythonLeapFixups(dt.year, dt.month);
    }

    // Add month to result.
    var month := dt.month;
    if month != 1 && month < 13 {
      date := date + ElapsedDays[month - 2];
      if date > 2 && remainder == 0 {
        date := date + 1;
      }
    }
    assert date == DaysBeforeYear(data) + DaysBeforeMonth(data, dt.month) - 1
                   + FebruaryDrift(dt.year, dt.month) by {
      MonthTable(data, dt.month);
    }

    // Add day, hour and minute.
    date := date + dt.day;
    assert date == DayNumber((dt.year - 1980) % 256, dt.month, dt.day) + FebruaryDrift(dt.year, dt.month);
    date := date * 0x5A0;
    date := date + (dt.hour * 0x3C);
    date := date + dt.minute;
    r := date;
  }

  /** A Gregorian date is a date of the cycle calendar too: its 29 February falls in a
      year divisible by 4, which the byte offset keeps. */
  lemma GregorianIsCycleValid(dt: DateTime)
    requires IsDateTime(dt)
    ensures Valid(Date((dt.year - 1980) % 256, dt.month, dt.day))
  {
    OffsetParity(dt.year);
  }

  /** Every `datetime` packs into 32 bits, so `date.to_bytes(4, "big")` cannot overflow. */
  lemma BupDateOfBounds(dt: DateTime)
    requires IsDateTime(dt)
    ensures 0 <= BupDateOf(dt) < 0x1_0000_0000
  {
    PackedDayBounds(dt);
    var days := DayNumber((dt.year - 1980) % 256, dt.month, dt.day) + FebruaryDrift(dt.year, dt.month);
    BupHeader.MinutesNoWrap(days, dt.hour, dt.minute);
  }

  /** The drifted day count of a `datetime` lies in the 256 years a byte can name. */
  lemma PackedDayBounds(dt: DateTime)
    requires IsDateTime(dt)
    ensures 0 <= DayNumber((dt.year - 1980) % 256, dt.month, dt.day) + FebruaryDrift(dt.year, dt.month) < ByteYearsDays
  {
    var off := (dt.year - 1980) % 256;
    GregorianIsCycleValid(dt);
    DayInYear(Date(off, dt.month, dt.day));
    ByteYearsBound(off + 1);
    assert DaysBeforeYear(off + 1) == DaysBeforeYear(off) + YearLength(off);
    if dt.month == 2 {
      MonthTable(off, 2);
    }
  }

  /** Between 1980 and 2235 the February drift vanishes. */
  lemma NoDriftInByteYears(year: int, month: int)
    requires 1980 <= year <= 2235
    ensures FebruaryDrift(year, month) == 0
  {
  }

  /** For the years a one-byte offset can name, the Python port packs a `datetime` as
      `bup_setdate` packs the same timestamp with the offset from 1980. */
  lemma PythonPackMatchesC(dt: DateTime, week: uint8)
    requires IsDateTime(dt) && 1980 <= dt.year <= 2235
    ensures BupDateOf(dt)
            == BupHeader.Packed(BupHeader.BackupDate((dt.year - 1980) as uint8, dt.month as uint8, dt.day as uint8,
                                                     dt.hour as uint8, dt.minute as uint8, week))
  {
    GregorianIsCycleValid(dt);
    NoDriftInByteYears(dt.year, dt.month);
    BupHeader.PackedNoWrap(BupHeader.BackupDate((dt.year - 1980) as uint8, dt.month as uint8, dt.day as uint8,
                                                dt.hour as uint8, dt.minute as uint8, week));
  }

  /** The Python port unpacks every field as `bup_getdate` does, except that its year is
      not cut to a byte. */
  lemma PythonUnpackMatchesC(bupDate: uint32)
    ensures var c, p := BupHeader.Unpacked(bupDate), DatetimeOfBupDate(bupDate);
      (p.year - 1980) % 256 == c.year as int && p.year >= 1980 && p.month == c.month as int
      && p.day == c.day as int && p.hour == c.time as int && p.minute == c.min as int
  {
  }

  /** Unpacking undoes packing for every `datetime` from 1980 to 2235. */
  lemma PythonRoundTrip(dt: DateTime)
    requires IsDateTime(dt) && 1980 <= dt.year <= 2235
    ensures 0 <= BupDateOf(dt) < 0x1_0000_0000 && DatetimeOfBupDate(BupDateOf(dt) as uint32) == dt
  {
    var t := Date(dt.year - 1980, dt.month, dt.day);
    PackedInByteYears(dt);
    UnpackMinutes(t, dt.hour, dt.minute);
  }

  /** In the years a byte can name, a `datetime` packs to the minutes of its cycle date. */
  lemma PackedInByteYears(dt: DateTime)
    requires IsDateTime(dt) && 1980 <= dt.year <= 2235
    ensures Valid(Date(dt.year - 1980, dt.month, dt.day))
    ensures BupDateOf(dt) == DayNumber(dt.year - 1980, dt.month, dt.day) * (60 * 24) + dt.hour * 60 + dt.minute
  {
    assert (dt.year - 1980) % 256 == dt.year - 1980;
    GregorianIsCycleValid(dt);
    NoDriftInByteYears(dt.year, dt.month);
  }

  /** The minutes of a valid date in the byte's years, with an hour and a minute, unpack
      to that date with the year made absolute. */
  lemma UnpackMinutes(t: Date, hour: int, minute: int)
    requires Valid(t) && t.year < 256 && 0 <= hour < 24 && 0 <= minute < 60
    ensures var v := DayNumber(t.year, t.month, t.day) * (60 * 24) + hour * 60 + minute;
      0 <= v < 0x1_0000_0000 && DatetimeOfBupDate(v) == DateTime(t.year + 1980, t.month, t.day, hour, minute)
  {
    var days := DayNumber(t.year, t.month, t.day);
    ByteYearsDay(t);
    BupHeader.MinutesNoWrap(days, hour, minute);
    BupHeader.MinutesSplit(days, hour, minute);
    DateOfDayNumber(t);
  }

  /** Packing undoes unpacking for every packed date in the years a byte can name whose
      timestamp is a `datetime`. */
  lemma PythonUnpackPack(bupDate: uint32)
    requires bupDate / (60 * 24) < ByteYearsDays && IsDateTime(DatetimeOfBupDate(bupDate))
    ensures BupDateOf(DatetimeOfBupDate(bupDate)) == bupDate
  {
    var div := bupDate / (60 * 24);
    var t := DateOfDay(div);
    var dt := DatetimeOfBupDate(bupDate);
    assert t.year < 256 by {
      ByteYearsBound(t.year);
    }
    assert (dt.year - 1980) % 256 == t.year;
    assert DayNumber((dt.year - 1980) % 256, dt.month, dt.day) == div;
    assert FebruaryDrift(dt.year, dt.month) == 0 by {
      NoDriftInByteYears(dt.year, dt.month);
    }
    BupHeader.MinutesJoin(bupDate);
  }

  /** The cycle calendar's 2100-02-29 is a packed date, but not a `datetime`, so
      `datetime.datetime` rejects what `convertBUPDatetoDatetime` computes for it. */
  lemma PhantomLeapDay()
    ensures DatetimeOfBupDate(0xAB71 * (60 * 24)) == DateTime(2100, 2, 29, 0, 0)
    ensures !IsDateTime(DatetimeOfBupDate(0xAB71 * (60 * 24)))
  {
    BupHeader.WeekdaySuccession(0);
    UnpackMinutes(Date(120, 2, 29), 0, 0);
  }

  /** The default save date, the Saturn's launch day 1994-11-24, packs to 7835040. */
  lemma LaunchDate()
    ensures BupDateOf(DateTime(1994, 11, 24, 0, 0)) == 7835040
  {
    assert DaysBeforeYear(14) == 5114 by {
      YearTable(14);
    }
    assert DaysBeforeMonth(14, 11) == 304 by {
      MonthTable(14, 11);
    }
    assert DayNumber(14, 11, 24) == 5441;
    var dt := DateTime(1994, 11, 24, 0, 0);
    assert IsDateTime(dt) && (dt.year - 1980) % 256 == 14 && FebruaryDrift(dt.year, dt.month) == 0;
    assert BupDateOf(dt) == DayNumber(14, 11, 24) * (60 * 24);
  }

  // ---------------------------------------------------------------------------
  // Text encodings

  /** Text made only of 7-bit characters. */
  predicate IsAsciiText(s: string)
  {
    forall i :: 0 <= i < |s| ==> s[i] as int < 0x80
  }

  /** Bytes that `bytes.decode("ascii")` accepts. */
  predicate IsAscii(bs: seq<uint8>)
  {
    forall i :: 0 <= i < |bs| ==> bs[i] < 0x80
  }

  /** `bytes.decode("ascii")`: one character per byte. */
  function AsciiDecode(bs: seq<uint8>): string
    requires IsAscii(bs)
  {
    seq(|bs|, i requires 0 <= i < |bs| => bs[i] as char)
  }

  /** The UTF-8 form of one character: one byte below U+0080, up to four above. */
  function Utf8Char(c: char): (bs: seq<uint8>)
    ensures 1 <= |bs| <= 4 && (|bs| == 1 <==> c as int < 0x80)
    ensures c as int < 0x80 ==> bs == [c as int]
  {
    var n := c as int;
    if n < 0x80 then [n]
    else if n < 0x800 then [0xC0 + n / 0x40, 0x80 + n % 0x40]
    else if n < 0x1_0000 then [0xE0 + n / 0x1000, 0x80 + (n / 0x40) % 0x40, 0x80 + n % 0x40]
    else [0xF0 + n / 0x4_0000, 0x80 + (n / 0x1000) % 0x40, 0x80 + (n / 0x40) % 0x40, 0x80 + n % 0x40]
  }

  /** `str.encode("utf-8")`. */
  function Utf8(s: string): seq<uint8>
  {
    if s == [] then [] else Utf8Char(s[0]) + Utf8(s[1..])
  }

  /** UTF-8 is never shorter than the text, and as long exactly for 7-bit text. */
  lemma {:induction false} Utf8Length(s: string)
    ensures |Utf8(s)| >= |s|
    ensures |Utf8(s)| == |s| <==> IsAsciiText(s)
  {
    if s != [] {
      Utf8Length(s[1..]);
      assert IsAsciiText(s) <==> s[0] as int < 0x80 && IsAsciiText(s[1..]) by {
        if IsAsciiText(s[1..]) && s[0] as int < 0x80 {
          forall i | 0 <= i < |s|
            ensures s[i] as int < 0x80
          {
            if i > 0 {
              assert s[i] == s[1..][i - 1];
            }
          }
        }
      }
    }
  }

  /** The UTF-8 form of 7-bit text is its character codes, which decode back to it. */
  lemma {:induction false} Utf8Ascii(s: string)
    requires IsAsciiText(s)
    ensures |Utf8(s)| == |s| && IsAscii(Utf8(s)) && AsciiDecode(Utf8(s)) == s
  {
    if s != [] {
      assert IsAsciiText(s[1..]) by {
        forall i | 0 <= i < |s[1..]|
          ensures s[1..][i] as int < 0x80
        {
          assert s[1..][i] == s[i + 1];
        }
      }
      Utf8Ascii(s[1..]);
      var u := Utf8(s);
      assert u == [s[0] as int] + Utf8(s[1..]);
      forall i | 0 <= i < |u|
        ensures u[i] < 0x80 && u[i] as char == s[i]
      {
        if i > 0 {
          assert u[i] == Utf8(s[1..])[i - 1];
          assert AsciiDecode(Utf8(s[1..]))[i - 1] == s[1..][i - 1];
        }
      }
    }
  }

  /** Encoding distributes over concatenation. */
  lemma {:induction false} Utf8Append(a: string, b: string)
    ensures Utf8(a + b) == Utf8(a) + Utf8(b)
  {
    if a != [] {
      assert (a + b)[0] == a[0] && (a + b)[1..] == a[1..] + b;
      Utf8Append(a[1..], b);
      assert Utf8(a + b) == Utf8Char(a[0]) + (Utf8(a[1..]) + Utf8(b));
    } else {
      assert a + b == b;
    }
  }

  /** k NUL characters, the padding `createBUPHeader` appends. */
  function Nuls(k: nat): (z: string)
    ensures |z| == k && forall i :: 0 <= i < k ==> z[i] == '\0'
  {
    seq(k, _ => '\0')
  }

  /** NUL characters encode as zero bytes. */
  lemma {:induction false} Utf8Nuls(k: nat)
    ensures Utf8(Nuls(k)) == Zeros(k)
  {
    if k > 0 {
      assert Nuls(k)[1..] == Nuls(k - 1);
      Utf8Nuls(k - 1);
    }
  }

  /** `str.rstrip('\x00')`: drops the trailing NUL characters. */
  function StripTrailingNuls(s: string): (r: string)
    ensures r <= s
    ensures r == [] || r[|r| - 1] != '\0'
    ensures forall i :: |r| <= i < |s| ==> s[i] == '\0'
  {
    if s != [] && s[|s| - 1] == '\0' then StripTrailingNuls(s[..|s| - 1]) else s
  }

  /** Stripping undoes NUL padding of text that does not end in NUL. */
  lemma StripPadding(s: string, k: nat)
    requires s == [] || s[|s| - 1] != '\0'
    ensures StripTrailingNuls(s + Nuls(k)) == s
  {
    var p := s + Nuls(k);
    var r := StripTrailingNuls(p);
    assert |r| <= |s| by {
      assert forall i :: |s| <= i < |p| ==> p[i] == '\0';
    }
    assert |r| >= |s| by {
      assert s == [] || p[|s| - 1] != '\0';
    }
    assert r == p[..|s|];
  }

  // ---------------------------------------------------------------------------
  // File layout

  /** The 64-byte header `createBUPHeader` writes, followed by the payload: "Vmem",
      twelve zero bytes (save id, stats and unused1), the name and the comment with NUL
      padding, the language id, the date, the payload size, the language id again in the
      block-size field, two zero bytes, the date, and the 8-byte form of the date. */
  ghost predicate IsBupFile(out: seq<uint8>, name: seq<uint8>, comment: seq<uint8>, langId: int, date: int,
                            payload: seq<uint8>)
  {
    Pow256Values();
    |name| <= MaxSaveNameLength && |comment| <= MaxSaveCommentLength && 0 <= langId <= 5
    && 0 <= date < 0x1_0000_0000 && |payload| < 0x1_0000_0000
    && |out| == BupHeaderSize + |payload|
    && out[..4] == BupHeader.VmemMagicString
    && out[4..16] == Zeros(12)
    && out[16..28] == name + Zeros(MaxSaveNameLength - |name|)
    && out[28..39] == comment + Zeros(MaxSaveCommentLength - |comment|)
    && out[39] == langId
    && out[40..44] == ToBigEndian(date, 4)
    && out[44..48] == ToBigEndian(|payload|, 4)
    && out[48..50] == ToBigEndian(langId, 2)
    && out[50..52] == Zeros(2)
    && out[52..56] == ToBigEndian(date, 4)
    && out[56..60] == Zeros(4)
    && out[60..64] == ToBigEndian(date, 4)
    && out[64..] == payload
  }

  /** The slice bounds the Python code uses are the C struct's field offsets. */
  lemma SlicesFollowStruct()
    ensures BupHeader.Offset(BupHeader.HeaderFieldSizes, BupHeader.HeaderDir) == 16
    ensures 16 + BupHeader.Offset(BupHeader.DirFieldSizes, BupHeader.DirComment) == 28
    ensures 16 + BupHeader.Offset(BupHeader.DirFieldSizes, BupHeader.DirLanguage) == 39
    ensures 16 + BupHeader.Offset(BupHeader.DirFieldSizes, BupHeader.DirDate) == 40
    ensures 16 + BupHeader.Offset(BupHeader.DirFieldSizes, BupHeader.DirDatasize) == 44
    ensures 16 + BupHeader.Offset(BupHeader.DirFieldSizes, BupHeader.DirBlocksize) == 48
    ensures 16 + BupHeader.Offset(BupHeader.DirFieldSizes, BupHeader.DirPadding) == 50
    ensures BupHeader.Offset(BupHeader.HeaderFieldSizes, BupHeader.HeaderDate) == 52
    ensures BupHeader.Offset(BupHeader.HeaderFieldSizes, BupHeader.HeaderUnused2) == 56
    ensures BupHeader.Sum(BupHeader.HeaderFieldSizes) == BupHeaderSize
    ensures Utf8(BupHeaderMagic) == BupHeader.VmemMagicString
    ensures MaxSaveNameLength == BupHeader.JoBackupMaxFilenameLength
    ensures MaxSaveCommentLength == BupHeader.JoBackupMaxCommentLength + 1
  {
    BupHeader.HeaderLayout();
    MagicBytes();
  }

  /** "Vmem" encodes to the magic bytes of the C header. */
  lemma MagicBytes()
    ensures Utf8(BupHeaderMagic) == BupHeader.VmemMagicString
  {
    assert Utf8(BupHeaderMagic) == Utf8Char('V') + Utf8Char('m') + Utf8Char('e') + Utf8Char('m') by {
      assert BupHeaderMagic == ['V'] + ['m', 'e', 'm'];
      assert ['m', 'e', 'm'][1..] == ['e', 'm'];
      assert ['e', 'm'][1..] == ['m'];
    }
  }

  // ---------------------------------------------------------------------------
  // Validating a file

  datatype ParseError =
    | TooSmall         // fewer bytes than a header
    | NotAscii         // `decode("ascii")` of the magic or the name raises
    | BadMagic         // the magic is not "Vmem"
    | BadLanguageId    // `getBUPLanguage` gives None and the print of it raises
    | SizeMismatch     // the data-size field is not the payload length

  /** What `validateBUPData` reads from a header; it prints all of it and returns the
      save name. */
  datatype BupInfo = BupInfo(saveName: string, comment: seq<uint8>, language: string, date: uint32,
                             dataSize: nat, blockSize: nat)

  /** `validateBUPData`: checks a file's header, in `validateBUPData`'s order. */
  function ValidateBupData(bupData: seq<uint8>): (r: Result<BupInfo, ParseError>)
    ensures r.Success? <==>
              |bupData| >= BupHeaderSize && bupData[..4] == BupHeader.VmemMagicString && IsAscii(bupData[16..28])
              && bupData[39] <= 5 && FromBigEndian(bupData[44..48]) == |bupData| - BupHeaderSize
  {
    if |bupData| < BupHeaderSize then Failure(TooSmall)
    else if !IsAscii(bupData[..4]) then Failure(NotAscii)
    else if bupData[..4] != BupHeader.VmemMagicString then Failure(BadMagic)
    else if !IsAscii(bupData[16..28]) then Failure(NotAscii)
    else
      var saveName := StripTrailingNuls(AsciiDecode(bupData[16..28]));
      var comment := bupData[28..39];
      var langId := bupData[39];
      var language := GetBupLanguage(langId);
      if language.None? then Failure(BadLanguageId)
      else
        Pow256Values();
        var date := FromBigEndian(bupData[40..44]);
        var dataSize := FromBigEndian(bupData[44..48]);
        var blockSize := FromBigEndian(bupData[48..50]);
        if dataSize != |bupData| - BupHeaderSize then Failure(SizeMismatch)
        else Success(BupInfo(saveName, comment, language.value, date, dataSize, blockSize))
  }

  /** Each rejection happens exactly when every earlier check passed and its own fails. */
  lemma ValidateErrors(bupData: seq<uint8>)
    ensures ValidateBupData(bupData) == Failure(TooSmall) <==> |bupData| < BupHeaderSize
    ensures ValidateBupData(bupData) == Failure(BadMagic)
            <==> |bupData| >= BupHeaderSize && IsAscii(bupData[..4]) && bupData[..4] != BupHeader.VmemMagicString
    ensures ValidateBupData(bupData) == Failure(NotAscii)
            <==> |bupData| >= BupHeaderSize
                 && (!IsAscii(bupData[..4]) || (bupData[..4] == BupHeader.VmemMagicString && !IsAscii(bupData[16..28])))
    ensures ValidateBupData(bupData) == Failure(BadLanguageId)
            <==> |bupData| >= BupHeaderSize && bupData[..4] == BupHeader.VmemMagicString
                 && IsAscii(bupData[16..28]) && bupData[39] > 5
    ensures ValidateBupData(bupData) == Failure(SizeMismatch)
            <==> |bupData| >= BupHeaderSize && bupData[..4] == BupHeader.VmemMagicString
                 && IsAscii(bupData[16..28]) && bupData[39] <= 5
                 && FromBigEndian(bupData[44..48]) != |bupData| - BupHeaderSize
  {
    if |bupData| >= BupHeaderSize && bupData[..4] == BupHeader.VmemMagicString {
      assert IsAscii(bupData[..4]);
    }
  }

  /** Reading back a file laid out as `createBUPHeader` writes it recovers the name, the
      padded comment, the language, the date, the payload size and the block-size field,
      and the payload follows the header. */
  lemma ValidateBupFile(out: seq<uint8>, name: string, comment: seq<uint8>, langId: int, date: int,
                        payload: seq<uint8>)
    requires IsAsciiText(name) && (name == [] || name[|name| - 1] != '\0')
    requires IsBupFile(out, Utf8(name), comment, langId, date, payload)
    ensures ValidateBupData(out)
            == Success(BupInfo(name, comment + Zeros(MaxSaveCommentLength - |comment|),
                               GetBupLanguage(langId).value, date, |payload|, langId))
    ensures out[BupHeaderSize..] == payload
  {
    BupFileFields(out, Utf8(name), comment, langId, date, payload);
    Utf8Ascii(name);
    assert out[16..28] == Utf8(name) + Zeros(MaxSaveNameLength - |name|);
    PaddedNameReads(name, out[16..28]);
    ValidateFields(out, name, comment + Zeros(MaxSaveCommentLength - |comment|), langId, date, |payload|);
  }

  /** The fields of a file laid out as `createBUPHeader` writes it, one fact each. */
  lemma BupFileFields(out: seq<uint8>, name: seq<uint8>, comment: seq<uint8>, langId: int, date: int,
                      payload: seq<uint8>)
    requires IsBupFile(out, name, comment, langId, date, payload)
    ensures |out| == BupHeaderSize + |payload| && out[BupHeaderSize..] == payload
    ensures out[..4] == BupHeader.VmemMagicString && |name| <= MaxSaveNameLength && 0 <= langId <= 5
    ensures 0 <= date < 0x1_0000_0000
    ensures out[16..28] == name + Zeros(MaxSaveNameLength - |name|)
    ensures out[28..39] == comment + Zeros(MaxSaveCommentLength - |comment|) && out[39] == langId
    ensures FromBigEndian(out[40..44]) == date && FromBigEndian(out[44..48]) == |payload|
    ensures FromBigEndian(out[48..50]) == langId
  {
    Pow256Values();
    FromToBigEndian(date, 4);
    FromToBigEndian(|payload|, 4);
    FromToBigEndian(langId, 2);
  }

  /** A header whose fields hold these values validates to them. */
  lemma ValidateFields(out: seq<uint8>, name: string, comment: seq<uint8>, langId: int, date: uint32, size: nat)
    requires |out| == BupHeaderSize + size && out[..4] == BupHeader.VmemMagicString
    requires IsAscii(out[16..28]) && StripTrailingNuls(AsciiDecode(out[16..28])) == name
    requires out[28..39] == comment && out[39] == langId && 0 <= langId <= 5
    requires FromBigEndian(out[40..44]) == date && FromBigEndian(out[44..48]) == size
    requires FromBigEndian(out[48..50]) == langId
    ensures ValidateBupData(out) == Success(BupInfo(name, comment, GetBupLanguage(langId).value, date, size, langId))
  {
    Pow256Values();
    assert IsAscii(out[..4]);
  }

  /** A NUL-padded 7-bit name decodes and strips back to itself. */
  lemma PaddedNameReads(name: string, field: seq<uint8>)
    requires IsAsciiText(name) && (name == [] || name[|name| - 1] != '\0') && |name| <= MaxSaveNameLength
    requires field == Utf8(name) + Zeros(MaxSaveNameLength - |name|)
    ensures IsAscii(field) && StripTrailingNuls(AsciiDecode(field)) == name
  {
    Utf8Ascii(name);
    var k := MaxSaveNameLength - |name|;
    assert IsAscii(field);
    assert AsciiDecode(field) == name + Nuls(k);
    StripPadding(name, k);
  }

  // ---------------------------------------------------------------------------
  // Creating a file

  datatype CreateError =
    | NameTooLong           // the name has more than 11 characters
    | CommentTooLong        // the comment has more than 10 characters
    | UnknownLanguageName   // `getBUPLangId` gives None
    | PayloadTooLarge       // `to_bytes(4, "big")` of the payload length raises OverflowError
    | HeaderLengthMismatch  // the encoded header is not 64 bytes

  /** Name and comment leave room for their NUL terminators. */
  predicate TextFits(saveName: string, saveComment: string)
  {
    |saveName| <= MaxSaveNameLength - 1 && |saveComment| <= MaxSaveCommentLength - 1
  }

  /** `createBUPHeader`: the 64-byte header for a save followed by the save's bytes.
      Each `sys.exit` and the overflow become an error, reported in `createBUPHeader`'s order;
      the header length check fails exactly when the name or the comment is not 7-bit
      text, whose UTF-8 form is longer than its character count. */
  method CreateBupHeader(saveName: string, saveComment: string, saveDate: DateTime, saveLanguage: string,
                         saveData: seq<uint8>) returns (r: Result<seq<uint8>, CreateError>)
    requires IsDateTime(saveDate)
    ensures |saveName| > MaxSaveNameLength - 1 ==> r == Failure(NameTooLong)
    ensures |saveName| <= MaxSaveNameLength - 1 && |saveComment| > MaxSaveCommentLength - 1
            ==> r == Failure(CommentTooLong)
    ensures TextFits(saveName, saveComment) && GetBupLangId(saveLanguage).None?
            ==> r == Failure(UnknownLanguageName)
    ensures TextFits(saveName, saveComment) && GetBupLangId(saveLanguage).Some?
            && |saveData| >= 0x1_0000_0000
            ==> r == Failure(PayloadTooLarge)
    ensures TextFits(saveName, saveComment) && GetBupLangId(saveLanguage).Some?
            && |saveData| < 0x1_0000_0000 && !(IsAsciiText(saveName) && IsAsciiText(saveComment))
            ==> r == Failure(HeaderLengthMismatch)
    ensures TextFits(saveName, saveComment) && GetBupLangId(saveLanguage).Some?
            && |saveData| < 0x1_0000_0000 && IsAsciiText(saveName) && IsAsciiText(saveComment)
            ==> r.Success? && IsBupFile(r.value, Utf8(saveName), Utf8(saveComment),
                                        GetBupLangId(saveLanguage).value, BupDateOf(saveDate), saveData)
  {
    Pow256Values();
    var bupHeader: seq<uint8> := [];
    bupHeader := bupHeader + Utf8(BupHeaderMagic);
    bupHeader := bupHeader + ToBigEndian(0, 4);   // save id
    bupHeader := bupHeader + ToBigEndian(0, 4);   // stats
    bupHeader := bupHeader + ToBigEndian(0, 4);   // unused1

    if |saveName| > MaxSaveNameLength - 1 {
      return Failure(NameTooLong);
    }
    var name := PadWithNuls(saveName, MaxSaveNameLength);
    bupHeader := bupHeader + Utf8(name);

    if |saveComment| > MaxSaveCommentLength - 1 {
      return Failure(CommentTooLong);
    }
    var comment := PadWithNuls(saveComment, MaxSaveCommentLength);
    bupHeader := bupHeader + Utf8(comment);

    var langId := GetBupLangId(saveLanguage);
    if langId.None? {
      return Failure(UnknownLanguageName);
    }
    bupHeader := bupHeader + ToBigEndian(langId.value, 1);

    var date := ConvertDatetimeToBupDate(saveDate);
    BupDateOfBounds(saveDate);
    bupHeader := bupHeader + ToBigEndian(date, 4);

    var saveSize := |saveData|;
    if saveSize >= 0x1_0000_0000 {
      return Failure(PayloadTooLarge);
    }
    bupHeader := bupHeader + ToBigEndian(saveSize, 4);
    bupHeader := bupHeader + ToBigEndian(langId.value, 2);   // block size
    bupHeader := bupHeader + ToBigEndian(0, 2);              // padding
    bupHeader := bupHeader + ToBigEndian(date, 4);           // the date again
    bupHeader := bupHeader + ToBigEndian(date, 8);           // unused2

    MagicBytes();
    PaddedFields(saveName, saveComment, name, comment);
    TextLengths(saveName, saveComment);
    if |bupHeader| != BupHeaderSize {
      return Failure(HeaderLengthMismatch);
    }

    AssembledFile(Utf8(saveName), Utf8(saveComment), Utf8(name), Utf8(comment), langId.value, date, saveData);
    bupHeader := bupHeader + saveData;
    return Success(bupHeader);
  }

  /** `validateBUPData` after `createBUPHeader`: a save with a 7-bit name that does not
      end in NUL, a 7-bit comment, a known language, a payload below 4 GiB and a date in
      the 256 byte-named years validates, and reads back its name, its comment with NUL
      padding, its language up to letter case, its date, its payload size and payload. */
  method CreateThenValidate(saveName: string, saveComment: string, saveDate: DateTime, saveLanguage: string,
                            saveData: seq<uint8>) returns (file: seq<uint8>, info: Result<BupInfo, ParseError>)
    requires IsDateTime(saveDate) && 1980 <= saveDate.year <= 2235
    requires TextFits(saveName, saveComment) && IsAsciiText(saveName) && IsAsciiText(saveComment)
    requires saveName == [] || saveName[|saveName| - 1] != '\0'
    requires GetBupLangId(saveLanguage).Some? && |saveData| < 0x1_0000_0000
    ensures info.Success? && info.value.saveName == saveName
    ensures info.value.comment == Utf8(saveComment) + Zeros(MaxSaveCommentLength - |saveComment|)
    ensures ToLower(info.value.language) == ToLower(saveLanguage)
    ensures DatetimeOfBupDate(info.value.date) == saveDate
    ensures info.value.dataSize == |saveData| && |file| == BupHeaderSize + |saveData|
    ensures file[BupHeaderSize..] == saveData
  {
    var created := CreateBupHeader(saveName, saveComment, saveDate, saveLanguage, saveData);
    file := created.value;
    info := ValidateBupData(file);
    var langId := GetBupLangId(saveLanguage).value;
    ValidateBupFile(file, saveName, Utf8(saveComment), langId, BupDateOf(saveDate), saveData);
    Utf8Length(saveComment);
    PythonRoundTrip(saveDate);
    LangIdMatches(saveLanguage, langId);
  }

  /** The NUL-padded name and comment encode as their own bytes followed by zero bytes. */
  lemma PaddedFields(saveName: string, saveComment: string, name: string, comment: string)
    requires TextFits(saveName, saveComment)
    requires name == saveName + Nuls(MaxSaveNameLength - |saveName|)
    requires comment == saveComment + Nuls(MaxSaveCommentLength - |saveComment|)
    ensures Utf8(name) == Utf8(saveName) + Zeros(MaxSaveNameLength - |saveName|)
    ensures Utf8(comment) == Utf8(saveComment) + Zeros(MaxSaveCommentLength - |saveComment|)
  {
    Utf8Padded(saveName, MaxSaveNameLength);
    Utf8Padded(saveComment, MaxSaveCommentLength);
  }

  /** Name and comment together encode to as many bytes as they have characters exactly
      when both are 7-bit text: every other character takes more than one UTF-8 byte. */
  lemma TextLengths(saveName: string, saveComment: string)
    ensures |Utf8(saveName)| + |Utf8(saveComment)| == |saveName| + |saveComment|
            <==> IsAsciiText(saveName) && IsAsciiText(saveComment)
    ensures IsAsciiText(saveName) ==> |Utf8(saveName)| == |saveName|
    ensures IsAsciiText(saveComment) ==> |Utf8(saveComment)| == |saveComment|
  {
    Utf8Length(saveName);
    Utf8Length(saveComment);
  }

  /** The header `createBUPHeader` appends field by field, with the name and the comment
      fields their bytes padded with zeros, followed by the payload, is the file layout. */
  lemma AssembledFile(name: seq<uint8>, comment: seq<uint8>, nameField: seq<uint8>, commentField: seq<uint8>,
                      langId: int, date: int, payload: seq<uint8>)
    requires |name| <= MaxSaveNameLength && nameField == name + Zeros(MaxSaveNameLength - |name|)
    requires |comment| <= MaxSaveCommentLength && commentField == comment + Zeros(MaxSaveCommentLength - |comment|)
    requires 0 <= langId <= 5 && 0 <= date < 0x1_0000_0000 && |payload| < 0x1_0000_0000
    requires Pow256(1) == 0x100 && Pow256(2) == 0x1_0000
    requires Pow256(4) == 0x1_0000_0000 && Pow256(8) == 0x1_0000_0000_0000_0000
    ensures IsBupFile([] + Utf8(BupHeaderMagic) + ToBigEndian(0, 4) + ToBigEndian(0, 4) + ToBigEndian(0, 4)
                      + nameField + commentField
                      + ToBigEndian(langId, 1) + ToBigEndian(date, 4) + ToBigEndian(|payload|, 4)
                      + ToBigEndian(langId, 2) + ToBigEndian(0, 2) + ToBigEndian(date, 4) + ToBigEndian(date, 8)
                      + payload,
                      name, comment, langId, date, payload)
  {
    var out := [] + Utf8(BupHeaderMagic) + ToBigEndian(0, 4) + ToBigEndian(0, 4) + ToBigEndian(0, 4)
               + nameField + commentField + ToBigEndian(langId, 1) + ToBigEndian(date, 4)
               + ToBigEndian(|payload|, 4) + ToBigEndian(langId, 2) + ToBigEndian(0, 2) + ToBigEndian(date, 4)
               + ToBigEndian(date, 8) + payload;
    MagicBytes();
    Pieces(out, [] + Utf8(BupHeaderMagic), ToBigEndian(0, 4), ToBigEndian(0, 4), ToBigEndian(0, 4),
           nameField, commentField, ToBigEndian(langId, 1), ToBigEndian(date, 4),
           ToBigEndian(|payload|, 4), ToBigEndian(langId, 2), ToBigEndian(0, 2), ToBigEndian(date, 4),
           ToBigEndian(date, 8), payload);
    LaidOut(out, name, comment, langId, date, payload);
  }

  /** NUL padding encodes to zero bytes. */
  lemma Utf8Padded(s: string, width: nat)
    requires |s| <= width
    ensures Utf8(s + Nuls(width - |s|)) == Utf8(s) + Zeros(width - |s|)
  {
    Utf8Append(s, Nuls(width - |s|));
    Utf8Nuls(width - |s|);
  }

  /** The `while len(s) < width: s += '\x00'` loops of `createBUPHeader`. */
  method PadWithNuls(s: string, width: nat) returns (padded: string)
    requires |s| <= width
    ensures padded == s + Nuls(width - |s|)
  {
    padded := s;
    while |padded| < width
      invariant |s| <= |padded| <= width
      invariant padded == s + Nuls(|padded| - |s|)
      decreases width - |padded|
    {
      padded := padded + ['\0'];
    }
  }

  /** The fields `createBUPHeader` appends, once each is in place, make up the file layout. */
  lemma LaidOut(out: seq<uint8>, name: seq<uint8>, comment: seq<uint8>, langId: int, date: int,
                payload: seq<uint8>)
    requires |name| <= MaxSaveNameLength && |comment| <= MaxSaveCommentLength && 0 <= langId <= 5
    requires 0 <= date < 0x1_0000_0000 && |payload| < 0x1_0000_0000
    requires Pow256(1) == 0x100 && Pow256(2) == 0x1_0000
    requires Pow256(4) == 0x1_0000_0000 && Pow256(8) == 0x1_0000_0000_0000_0000
    requires |out| == BupHeaderSize + |payload| && out[..4] == BupHeader.VmemMagicString
    requires out[4..16] == ToBigEndian(0, 4) + ToBigEndian(0, 4) + ToBigEndian(0, 4)
    requires out[16..28] == name + Zeros(MaxSaveNameLength - |name|)
    requires out[28..39] == comment + Zeros(MaxSaveCommentLength - |comment|)
    requires out[39] == ToBigEndian(langId, 1)[0] && out[40..44] == ToBigEndian(date, 4)
    requires out[44..48] == ToBigEndian(|payload|, 4) && out[48..50] == ToBigEndian(langId, 2)
    requires out[50..52] == ToBigEndian(0, 2) && out[52..56] == ToBigEndian(date, 4)
    requires out[56..60] == ToBigEndian(date, 8)[..4] && out[60..64] == ToBigEndian(date, 8)[4..]
    requires out[64..] == payload
    ensures IsBupFile(out, name, comment, langId, date, payload)
  {
    ZeroBigEndian(4);
    ZeroBigEndian(2);
    WideHalves(date);
    OneByte(langId);
    ZerosAppend(4, 4);
    ZerosAppend(8, 4);
  }

  /** Where each piece of a 14-piece concatenation with the header's field widths lands. */
  lemma Pieces(out: seq<uint8>, p0: seq<uint8>, p1: seq<uint8>, p2: seq<uint8>, p3: seq<uint8>, p4: seq<uint8>,
               p5: seq<uint8>, p6: seq<uint8>, p7: seq<uint8>, p8: seq<uint8>, p9: seq<uint8>, p10: seq<uint8>,
               p11: seq<uint8>, p12: seq<uint8>, p13: seq<uint8>)
    requires |p0| == 4 && |p1| == 4 && |p2| == 4 && |p3| == 4 && |p4| == 12 && |p5| == 11 && |p6| == 1
    requires |p7| == 4 && |p8| == 4 && |p9| == 2 && |p10| == 2 && |p11| == 4 && |p12| == 8
    requires out == p0 + p1 + p2 + p3 + p4 + p5 + p6 + p7 + p8 + p9 + p10 + p11 + p12 + p13
    ensures |out| == 64 + |p13| && out[..4] == p0 && out[4..16] == p1 + p2 + p3
    ensures out[16..28] == p4 && out[28..39] == p5 && out[39] == p6[0]
    ensures out[40..44] == p7 && out[44..48] == p8 && out[48..50] == p9 && out[50..52] == p10
    ensures out[52..56] == p11 && out[56..60] == p12[..4] && out[60..64] == p12[4..] && out[64..] == p13
  {
  }
}
