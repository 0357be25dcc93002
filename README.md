# Sega Saturn `.BUP` save containers, modelled in Dafny

A `.BUP` file is a Sega Saturn save: a 64-byte big-endian header (`vmem_bup_header_t`)
followed by the raw save bytes. This project models the two halves of its codec:

- **The packed BUP date.** The C routines `bup_getdate` and `bup_setdate`
  (bup_header.h) and their Python ports `convertBUPDatetoDatetime` and
  `convertDatetimetoBUPDate` (bup_parse.py). A packed date counts minutes since
  1980-01-01 00:00 in a calendar that repeats every four years, with a February 29 in
  every year whose offset from 1980 is a multiple of four.
- **The header.** The struct layout and its constants, the language table
  (`getBUPLanguage` / `getBUPLangId`), the checks and field reads of `validateBUPData`,
  and the byte-by-byte assembly of `createBUPHeader`.

Files:

- `wrappers.dfy` (module `Wrappers`): `Option` and `Result`.
- `bytes.dfy` (module `Bytes`): big-endian `int.to_bytes` / `int.from_bytes` and their
  inverse lemmas.
- `cycle_calendar.dfy` (module `CycleCalendar`): the reference four-year-cycle
  calendar.
  - `DayNumber` takes (year offset, month, day) to a day count.
  - `DateOfDay` inverts it.
  - Also lemmas on the month table, injectivity and monotonicity.
- `bup_header.dfy` (module `BupHeader`): the C side.
  - The header layout as field-size tables, with the offsets proved.
  - The language enumeration.
  - `GetDate` and `SetDate`, written as the C code's own step-by-step methods, each
    proved equal to a specification function (`Unpacked`, `Packed`).
  - The theorems about those functions.
- `bup_parse.dfy` (module `BupParse`): the Python side.
  - `ConvertBupDateToDatetime` and `ConvertDatetimeToBupDate`, as methods proved
    against `DatetimeOfBupDate` and `BupDateOf`.
  - Their agreement with the C functions.
  - `ValidateBupData`, and `CreateBupHeader` as a method that appends each field in
    turn and pads with loops. Its result is characterised by the layout predicate
    `IsBupFile`, which `ValidateBupFile` reads back.

Modelling choices:

- The C output argument `jo_backup_date *tb` is the returned `BackupDate` value.
- C's unsigned arithmetic in `bup_setdate` is one final reduction modulo 2^32. This
  agrees with the step-by-step wrap-around because addition and multiplication commute
  with the reduction. The one comparison on the way, `date > 2` at bup_header.h:369,
  does not commute with it; it is unaffected because `date` there is at least 28 (the
  smallest `monthtbl` entry, 31, less at most three fix-up days) and far below 2^32.
- The float divisions of `convertBUPDatetoDatetime` (bup_parse.py:78-86) are written as
  integer divisions. For a 32-bit input the exact quotient is either an integer or at
  least 1/1461 (the largest divisor, bup_parse.py:84) below the next one. The quotients
  stay below 2^22, so a double's rounding error is about 1e-9, far less than that gap,
  and `int(...)` of the float quotient is the integer quotient.
- The padding loops of `createBUPHeader` (bup_parse.py:269-270, 279-280) rebind the
  `saveName` and `saveComment` parameters to new strings; `PadWithNuls` returns the
  padded value.
- `tb->year = year_base` truncates to a byte and is written `% 256`.
- Python names and comments are `string`s: sequences of Unicode scalar values, which
  cannot hold a lone surrogate. `str.encode("utf-8")` is modelled (`Utf8`). As a
  result, for such strings the header length check at bup_parse.py:317 fails exactly
  when the name or the comment has a character outside 7-bit ASCII.
- Each `sys.exit(-1)` and each exception the model's inputs can reach becomes a named
  error value:
  - `ParseError`: `TooSmall`, `NotAscii`, `BadMagic`, `BadLanguageId`,
    `SizeMismatch`.
  - `CreateError`: `NameTooLong`, `CommentTooLong`, `UnknownLanguageName`,
    `PayloadTooLarge`, `HeaderLengthMismatch`.

Where the code and its description differ, the model follows the code:

- On decode only the save name has its NUL padding stripped (bup_parse.py:207). The
  comment is returned as its 11 raw bytes (bup_parse.py:210).
- The 8-byte `unused2` field is not zero. It holds the date's 8-byte big-endian form, so
  bytes 56–59 are zero and bytes 60–63 repeat the date (bup_parse.py:315). The
  block-size field holds the language id (bup_parse.py:302).
- The sentinel 0x008246A0 is not reserved for the null timestamp: 1996-03-26 00:00
  packs to the same value (`NullDateSentinelShared`).
- The Python null-date guard (bup_parse.py:137) starts with `dt.year == 0`, which no
  `datetime` satisfies. The guard is therefore always false, so the other tests in it
  (the truthy `dt.day`, the missing `dt.minutes`) are never evaluated, and `BupDateOf`
  has no such branch.
- The language check at bup_parse.py:216 tests `langId` rather than `language`. The
  failure for an id above 5 comes from `"..." + None` at line 219 (`BadLanguageId`).
- The bad-magic message reads the undefined `magici` (line 203), so that path ends in
  a `NameError`. Either way it is a failure (`BadMagic`).
- The date codec round trip holds for absolute years 1980..2235, the 256 years the
  year byte can name. That is wider than the "until 2199" stated at
  bup_header.h:331-334.
- A payload of 2^32 bytes or more makes `to_bytes(4, "big")` raise `OverflowError`
  (bup_parse.py:299; `PayloadTooLarge`).

## Model

| member | source | states |
|---|---|---|
| BupHeader.HeaderLayout | bup_header.h:44-129 | the header is 64 bytes, `dir` is 36 bytes at offset 16 with filename 12 bytes and comment 11 at 28, language at 39, date 40, datasize 44, blocksize 48, padding 50, the second date at 52 and `unused2` at 56; every multi-byte field is naturally aligned |
| BupHeader.LanguageOf | bup_header.h:31-39 | an ordinal names a language exactly when it is 0..5, and the language's ordinal is that number |
| BupHeader.LanguageRoundTrip | bup_header.h:31-39 | every `jo_backup_language` value is named by its own ordinal |
| BupHeader.GetDate | bup_header.h:151-215 | `bup_getdate` computes `Unpacked(date)`: minute `date % 60`, hour `(date % 1440) / 60`, the weekday rule around day 0xAB71, and the cycle-calendar date of day `date / 1440` with the year cut to a byte |
| BupHeader.WalkCycle | bup_header.h:182-210 | the 48-month walk from the start of the day's four-year cycle stops at the day's own year, month and day (`DateOfDay(div)`), so month is 1..12 and day lies within that month |
| BupHeader.UnpackedInRange | bup_header.h:156-213 | every unpacked date has a valid cycle-calendar month and day, hour below 24, minute below 60 and weekday below 7 |
| BupHeader.WeekdaySuccession | bup_header.h:162-172 | day 0 is weekday 2 and the weekday advances by one a day, except that it stalls from 0xAB71 to 0xAB72; 0xAB71 is the day number of offset 120 (2100) February 29 |
| BupHeader.DocumentedDate1981 | bup_header.h:225-227 | 0x00080AEA unpacks to 1981/01/01 00:42 weekday 4, not the BIOS's December 32 |
| BupHeader.DocumentedDate1985 | bup_header.h:231-233 | 0x0028250A unpacks to 1985/01/01 00:42 weekday 2 |
| BupHeader.SetDate | bup_header.h:258-386 | `bup_setdate` computes `Packed(tb)`: the sentinel for the null date, otherwise day number × 1440 + hour × 60 + minute modulo 2^32, including the three leap-year fix-ups and the `date > 2 && remainder == 0` correction |
| BupHeader.LeapFixups | bup_header.h:335-362 | for every year offset, the two Gregorian fix-ups together subtract one day exactly in years whose offset is a multiple of four, which is the cycle calendar's leap year |
| BupHeader.NullDateSentinelValue | bup_header.h:288-290 | the sentinel 0x008246A0 unpacks to 1996/03/26 00:00, a Tuesday (weekday 2) |
| BupHeader.NullDateSentinelShared | bup_header.h:300-307 | the null timestamp and 1996/03/26 00:00 both pack to the sentinel, so the sentinel does not identify the null date |
| BupHeader.PackedNoWrap | bup_header.h:376-385 | timestamps in the 256 byte-named years pack without 32-bit wrap-around |
| BupHeader.UnpackPacked | bup_header.h:151-249 | `bup_getdate(bup_setdate(t))` returns year, month, day, hour and minute of every valid timestamp unchanged, with the weekday of its day |
| BupHeader.PackUnpacked | bup_header.h:258-386 | `bup_setdate(bup_getdate(d)) == d` for every packed date whose day falls in the 256 byte-named years |
| BupHeader.PackedIncreasing | bup_header.h:115-118 | packing is strictly increasing in chronological order of valid timestamps, so a later save has a larger date |
| BupHeader.MinutesSplit | bup_header.h:156-162 | dividing days × 1440 + hour × 60 + minute gives back the day count, hour and minute |
| BupHeader.ByteYearMonths | bup_header.h:214 | cutting the year offset to a byte keeps every month's length |
| CycleCalendar.DateOfDayNumber | bup_header.h:182-213 | the date of a valid date's day number is that date |
| CycleCalendar.DayNumberInjective | bup_header.h:309-378 | distinct valid dates have distinct day numbers |
| CycleCalendar.DayNumberIncreasing | bup_header.h:115-118 | day numbers increase with the date |
| CycleCalendar.CycleMonthLength | bup_header.h:189-195 | the loop's month length `days_count[i % 12]` (+1 at i == 1) is the length of month `i % 12 + 1` of cycle year `i / 12` |
| CycleCalendar.MonthTable | bup_header.h:261-274 | the days before a month are the `monthtbl` entry, plus one after February of a cycle leap year |
| CycleCalendar.YearTable | bup_header.h:310-317 | the days before a year offset are `(y / 4) * 0x5B5` plus `(y % 4) * 0x16D + 1` when `y % 4 != 0` |
| CycleCalendar.ByteYearsDay | bup_header.h:214 | a valid date with a year offset below 256 has a day number below 64 cycles |
| BupParse.GetBupLanguage | bup_parse.py:32-48 | an id has a name exactly when it is 0..5 |
| BupParse.GetBupLangId | bup_parse.py:51-69 | a found id is in 0..5 |
| BupParse.LangIdMatches | bup_parse.py:51-69 | a name maps to id i exactly when i is 0..5 and the name equals the i-th table name up to letter case |
| BupParse.LanguageRoundTrip | bup_parse.py:32-69 | `getBUPLangId(getBUPLanguage(i)) == i` for every i in 0..5 |
| BupParse.UpperCaseLanguage | bup_parse.py:53-57 | "ENGLISH" maps to 1 |
| BupParse.LanguageTablesAgree | bup_parse.py:32-48 | the Python names are defined on exactly the C enumeration's ordinals |
| BupParse.ConvertBupDateToDatetime | bup_parse.py:73-111 | `convertBUPDatetoDatetime` gives the cycle-calendar date of day `bupDate / 1440` with the year made absolute, and the hour and minute of the day; its `& 0xFF` masks change nothing (the float divisions are discussed under modelling choices) |
| BupParse.PythonUnpackMatchesC | bup_parse.py:72-111 | the Python unpack agrees with `bup_getdate` on month, day, hour and minute, and its year minus 1980 is the C year byte modulo 256 |
| BupParse.ConvertDatetimeToBupDate | bup_parse.py:115-189 | `convertDatetimetoBUPDate` computes `BupDateOf(dt)`: the cycle day of `(year - 1980) & 0xFF` with the fix-ups taken on the absolute year |
| BupParse.PythonLeapFixups | bup_parse.py:153-177 | the Python fix-ups net to the cycle-calendar leap day plus the drift `FebruaryDrift`, which is non-zero only in some Februaries of century years |
| BupParse.NoDriftInByteYears | bup_parse.py:153-170 | the drift is zero for every year 1980..2235 |
| BupParse.BupDateOfBounds | bup_parse.py:294-295 | every `datetime` packs into 0..2^32-1, so `to_bytes(4, "big")` never overflows |
| BupParse.PythonPackMatchesC | bup_parse.py:114-189 | for years 1980..2235 the Python pack equals `bup_setdate` of the timestamp with offset year - 1980 |
| BupParse.PythonRoundTrip | bup_parse.py:73-189 | unpacking the packed form of any `datetime` in 1980..2235 gives it back |
| BupParse.PythonUnpackPack | bup_parse.py:73-189 | packing the unpacked form of a packed date in the 256 byte-named years gives it back, when that form is a `datetime` |
| BupParse.PhantomLeapDay | bup_parse.py:111 | day 0xAB71 unpacks to 2100-02-29, which is no `datetime` |
| BupParse.LaunchDate | bup_parse.py:115-189 | 1994-11-24 00:00 packs to 7835040 |
| BupParse.GregorianIsCycleValid | bup_parse.py:141-146 | every `datetime` day is a valid day of the cycle year `(year - 1980) & 0xFF` |
| BupParse.Utf8Length | bup_parse.py:272-282 | UTF-8 is never shorter than the text, and as long exactly when the text is 7-bit |
| BupParse.Utf8Ascii | bup_parse.py:207 | the UTF-8 bytes of 7-bit text `decode("ascii")` back to the text |
| BupParse.Utf8Nuls | bup_parse.py:269-272 | NUL characters encode to zero bytes |
| BupParse.StripTrailingNuls | bup_parse.py:207 | `rstrip('\x00')` gives a prefix that does not end in NUL, with only NULs cut off |
| BupParse.StripPadding | bup_parse.py:207 | stripping undoes NUL padding of a name that does not end in NUL |
| BupParse.SlicesFollowStruct | bup_parse.py:201-223 | the slice bounds 16, 28, 39, 40, 44, 48 are the C struct's offsets, "Vmem" encodes to the magic, and the Python widths are the C widths |
| BupParse.ValidateBupData | bup_parse.py:194-238 | a file is accepted exactly when it has at least 64 bytes, the magic "Vmem", an ASCII name field, a language id of at most 5 and a size field equal to the payload length |
| BupParse.ValidateErrors | bup_parse.py:194-235 | each rejection happens exactly when every earlier check passed and its own fails, in the source's order |
| BupParse.ValidateBupFile | bup_parse.py:194-238 | any file with the created layout and a 7-bit name that does not end in NUL validates and reads back the name, the padded comment, the language, the date, the payload size and the language id as block size; the payload is the bytes after 64 |
| BupParse.BupFileFields | bup_parse.py:201-223 | the fields of a file with the created layout read back as written |
| BupParse.PaddedNameReads | bup_parse.py:207 | the padded name field of a 7-bit name is ASCII and strips back to the name |
| BupParse.CreateBupHeader | bup_parse.py:241-324 | errors in the source's order: name over 11, comment over 10, unknown language, payload of 2^32 bytes or more, and header length not 64 exactly when name or comment is not 7-bit text; otherwise the result has the full layout: "Vmem", 12 zero bytes, padded name and comment, language id, date, payload size, language id as block size, 2 zero bytes, date, date as 8 bytes, then the payload unchanged |
| BupParse.CreateThenValidate | bup_parse.py:194-324 | `validateBUPData` of a created file succeeds for a 7-bit name that does not end in NUL, a 7-bit comment, a known language, a payload below 2^32 bytes and a year in 1980..2235, and returns the name, the NUL-padded comment bytes, the language up to letter case, a date that unpacks to the save date, and the payload size; the payload follows the 64 header bytes |
| BupParse.PadWithNuls | bup_parse.py:269-270 | the padding loop appends NULs up to the width |
| BupParse.PaddedFields | bup_parse.py:269-282 | the padded name and comment encode as their own bytes followed by zero bytes |
| BupParse.TextLengths | bup_parse.py:317 | name and comment encode to as many bytes as they have characters exactly when both are 7-bit |
| BupParse.AssembledFile | bup_parse.py:246-322 | the appended fields followed by the payload have the file layout |
| BupParse.LaidOut | bup_parse.py:249-322 | the bytes each append writes are the layout's fields |
| Bytes.FromToBigEndian | bup_parse.py:221-223 | `int.from_bytes` undoes `to_bytes` |
| Bytes.ToFromBigEndian | bup_parse.py:221-223 | `to_bytes` undoes `int.from_bytes` at the same width |
| Bytes.ToBigEndianWiden | bup_parse.py:315 | a wider big-endian form is the narrower one preceded by zeros |
| Bytes.ZeroBigEndian | bup_parse.py:252-258 | zero encodes to zero bytes |

## Left out

- `usage`, `main`, the command-line options, `strptime`, file reading and writing, and
  every `print` (bup_parse.py:17-29, 326-443): these are I/O glue.
- The Shift-JIS decoding of the comment (bup_parse.py:210): a foreign codec. The comment
  is returned as its raw 11 bytes.
- The construction of `datetime.datetime` objects (bup_parse.py:111): the Python date
  is an integer tuple, and `IsDateTime` states which tuples a `datetime` can hold.
- BupParse.ValidateBupData: does not fail when the stored date decodes to a day no
  `datetime` has (such as 2100-02-29, `PhantomLeapDay`), where the source's
  `datetime.datetime` call raises `ValueError`. That call is the construction left out
  above.
- BupParse.ValidateBupData: does not fail when the comment bytes are not valid
  Shift-JIS, because that codec is not modelled.
- The `#if 0` block reproducing the BIOS December 32 bug (bup_header.h:239-248): it is
  compiled out.
- `vmem_bup_stats_t` (bup_header.h:75-88): it is four bytes with no behaviour, modelled
  only as their size and the zero bytes written for them.
- BupHeader.SetDate: requires a month of at least 1 unless the timestamp is null,
  because a month of 0 indexes `monthtbl[-2]`, which is undefined behaviour in C.
- BupHeader.SetDate: the intermediate unsigned wrap-around of `date--` is folded into
  one final reduction modulo 2^32, which gives the same result.
- BupParse.CreateBupHeader: names and comments are strings of Unicode scalar values,
  so the `UnicodeEncodeError` that `encode('utf-8')` raises for a name or comment
  holding a lone surrogate (bup_parse.py:272, 282) is not modelled. Such strings
  arise, for example, from command-line bytes that are not UTF-8.
- `LowerChar`: lower-cases only A–Z. Python's `str.lower` also folds non-ASCII letters,
  but no non-ASCII name matches a table entry either way.
