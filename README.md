# qds-tools core: csv2nds transcoder and civil-date arithmetic

This project models two parts of the qds-tools repository in Dafny and proves
properties about them.

**csv2nds/main.cpp** turns a CSV file into a binary file and a descriptor:

- **Splitting.** Each line is split into fields with a regular expression. A
  comma separates fields only when an even number of double quotes follows it
  to the end of the line (`CsvFields`).
- **Encoding.** Each dimension of the schema encodes its column (`Encoders`,
  `Dimensions`). Categorical dimensions use one of four encoders, each giving a
  `uint8_t`:
  - discrete: `find`;
  - range: `lower_bound`;
  - binary: `stoi`;
  - sequential: `linearScale`.

  Temporal dimensions give a `uint32_t` count of seconds. Spatial dimensions
  give two `float`s.
- **Writing** (`Transcoder`). `gerenate_from_csv` first writes an 8-byte
  placeholder header. Then, for each dimension, it rereads the whole input and
  appends that dimension's value for every line that encodes. Finally it seeks
  back and patches the header with `bytes` and `records`. The writer is a
  class, `OutputFile`, whose methods update its contents and put position.
- **Descriptor** (`Descriptor`). `generate_xml` hands each dimension an
  `index`, a `bin` and a byte `offset`. The offsets describe interleaved
  records, but the writer lays the payload out field-major.
  - Both sides are modelled as written.
  - `LayoutsAgree` proves exactly when the two layouts agree: with one
    dimension, or with at most one line.

**nc2nds/date_util.h** holds Howard Hinnant's proleptic Gregorian algorithms
and a `timegm`-like `mkgmtime`:

- **`CivilCalendar`**: `days_from_civil`, `civil_from_days`, `is_leap` and
  `last_day_of_month*`. Both round trips are proved: date to days to date, and
  days to date to days. So are the commented ranges of the intermediate values,
  and how the day count steps across days, months and years.
- **`Weekdays`**: the weekday helpers.
- **`GmTime`**: both `mkgmtime` overloads. They are imperative loops proved
  against specification functions.

C++ integer semantics that differ from Dafny's are written out in `CArith`:

- truncating `/` and `%`;
- conversion to `unsigned` / `uint32_t` modulo 2^32;
- the wrapping `uint32_t` sum and `++`.

Storing into a `uint8_t` is `% 256`.

Modelling choices:

- **Library conversions.** `std::stoi`, `std::stof`, the boost time parse and
  the bytes of a `float` are not available to the model. They are function
  fields of a `Parsers` value that the operations take as a parameter.
  `std::stoi` and `std::stof` return `None` where they throw
  `std::invalid_argument`.
- **Input and output.** The input file is the sequence of lines that
  `getline` delivers. The output file is a byte sequence.
- **`days_from_civil`'s precondition.** `DaysFromCivil` requires only a month
  in [1, 12] and a day in [1, 31], which is all the computation needs. The
  source documents a valid date as its precondition. The round trip
  `CivilRoundTrip` assumes a valid date.

## Model

| member | source | states |
|---|---|---|
| CArith.ToU32 | csv2nds/main.cpp:195 | the conversion to `uint32_t` differs from the value by a multiple of 2^32 and keeps values already in range |
| CArith.AddU32 | csv2nds/main.cpp:119 | `bytes += width` on `uint32_t` is the sum reduced modulo 2^32 |
| CArith.CDiv | nc2nds/date_util.h:27 | C++ division by a positive divisor truncates toward zero, for negative dividends too |
| CArith.CRem | nc2nds/date_util.h:108 | the C++ remainder is `a - (a / b) * b` with the truncating quotient: it takes the sign of the dividend and is smaller than the divisor in magnitude |
| CArith.IncrementsWrap | csv2nds/main.cpp:136 | n applications of `++` to a `uint32_t` counter starting at 0 leave n modulo 2^32 |
| CivilCalendar.IsLeapCpp | nc2nds/date_util.h:59-65 | `is_leap` with C++ truncating `%` is the Gregorian rule used throughout, for negative years too |
| CivilCalendar.LastDayOfMonthCommonYear | nc2nds/date_util.h:67-76 | the common-year month length lies in [28, 31] and is 28 exactly for February |
| CivilCalendar.LastDayOfMonthLeapYear | nc2nds/date_util.h:78-87 | the leap-year month length lies in [29, 31], is 29 exactly for February, and is the common-year length plus one day in February only |
| CivilCalendar.LastDayOfMonth | nc2nds/date_util.h:89-98 | `last_day_of_month` lies in [28, 31], is 29 exactly for February of a leap year, and is the leap-year or common-year table entry according to `is_leap` |
| CivilCalendar.EraOfYear | nc2nds/date_util.h:26-27 | the era of a (March-based) year is the 400-year block that contains it |
| CivilCalendar.EraOfYearAsWritten | nc2nds/date_util.h:27 | `(y >= 0 ? y : y-399) / 400` with truncating division is that block, for every year |
| CivilCalendar.EraOfDay | nc2nds/date_util.h:46-47 | the era of a shifted day count is the 146097-day block that contains it |
| CivilCalendar.EraOfDayAsWritten | nc2nds/date_util.h:47 | `(z >= 0 ? z : z-146096) / 146097` with truncating division is that block, for every day count |
| CivilCalendar.DaysFromCivilRanges | nc2nds/date_util.h:28-30 | for a valid date `yoe` lies in [0, 399], `doy` in [0, 365] and `doe` in [0, 146096], as commented |
| CivilCalendar.YearOfEraBounds | nc2nds/date_util.h:49-51 | `yoe` of `civil_from_days` lies in [0, 399] and `doe` falls within that year of the era, so `doy` is a day of it |
| CivilCalendar.YearOfEraUnique | nc2nds/date_util.h:49 | the `yoe` formula picks the one year of the era that contains the day |
| CivilCalendar.MonthOfYearBounds | nc2nds/date_util.h:52-53 | `mp` lies in [0, 11] and `doy` falls within month `mp`, so `d` lies in [1, 31] |
| CivilCalendar.MonthOfYearUnique | nc2nds/date_util.h:52 | the `mp` formula recovers the March-based month of a valid date's day of year |
| CivilCalendar.DaysFromCivil | nc2nds/date_util.h:7-32 | `days_from_civil` counts days from 1970-01-01: `days_from_civil(1970, 1, 1) == 0` |
| CivilCalendar.CivilOfEraDay | nc2nds/date_util.h:48-55 | the stages after the era split give a month in [1, 12] and a day in [1, 31] for every day of the era |
| CivilCalendar.CivilOfYearDay | nc2nds/date_util.h:51-55 | the last stage gives a month in [1, 12] and a day in [1, 31] for every day of the March-based year |
| CivilCalendar.CivilFromDays | nc2nds/date_util.h:34-56 | `civil_from_days` returns a month in [1, 12] and a day in [1, 31] for every day count |
| CivilCalendar.CivilOfYearDayValid | nc2nds/date_util.h:51-55 | the last stage of `civil_from_days` yields a valid date for every day of the March-based year |
| CivilCalendar.CivilOfEraDayValid | nc2nds/date_util.h:48-55 | the last two stages yield a valid date for every day of an era |
| CivilCalendar.LeapPeriodic | nc2nds/date_util.h:62-65 | leap years, and so year lengths, repeat every 400 years |
| CivilCalendar.CivilOfYearDayInverse | nc2nds/date_util.h:29-55 | the last stage of `civil_from_days` inverts the `doy` computation of `days_from_civil` |
| CivilCalendar.CivilFromDaysOfEra | nc2nds/date_util.h:46-48 | the first stage splits a day count into its era and day of era |
| CivilCalendar.CivilOfEraDayOfYear | nc2nds/date_util.h:49-51 | the second stage splits a day of the era into year of era and day of year |
| CivilCalendar.EraStage | nc2nds/date_util.h:26-48 | on a valid date's day count, `civil_from_days` finds the era and the day of era that `days_from_civil` used |
| CivilCalendar.YearStage | nc2nds/date_util.h:28-51 | on that day of era, `civil_from_days` finds the March-based year and the day of year that `days_from_civil` used |
| CivilCalendar.CivilFromDaysStages | nc2nds/date_util.h:46-51 | the first two stages of `civil_from_days` on `days_from_civil` of a valid date recover its March-based year and day of year |
| CivilCalendar.CivilRoundTrip | nc2nds/date_util.h:9-56 | for every valid date, `civil_from_days(days_from_civil(y, m, d)) == (y, m, d)` |
| CivilCalendar.DaysRoundTrip | nc2nds/date_util.h:17-56 | for every day count z, `civil_from_days(z)` is a valid date and `days_from_civil` of it is z |
| CivilCalendar.MarchFirstOfEra | nc2nds/date_util.h:26-31 | March 1 of year `yoe` of an era lies the days of the years before it past the start of the era |
| CivilCalendar.YearDayRoundTrip | nc2nds/date_util.h:17-55 | the date of day `doy` of a March-based year lies `doy` days after its March 1 |
| CivilCalendar.EraDayRoundTrip | nc2nds/date_util.h:17-55 | the date of day `doe` of an era is valid and converts back to the era's start plus `doe` |
| CivilCalendar.DecomposeDays | nc2nds/date_util.h:26-31 | a date's day count is its March-based year's March 1 plus its day of that year |
| CivilCalendar.MarchFirstStep | nc2nds/date_util.h:26-31 | from one March 1 to the next is the length of the calendar year the later one belongs to, across era boundaries too |
| CivilCalendar.NewYearStep | nc2nds/date_util.h:17-32 | from one January 1 to the next is the length of the year |
| CivilCalendar.MonthStep | nc2nds/date_util.h:17-98 | from the first of a month to the first of the next is `last_day_of_month` |
| CivilCalendar.DayStep | nc2nds/date_util.h:17-32 | within a month the day count advances by one per day |
| CivilCalendar.WithinYear | nc2nds/date_util.h:17-32 | every date of a year lies between its January 1 and the next |
| CivilCalendar.NewYearSign | nc2nds/date_util.h:7-8 | January 1 of a year is on or after day 0 exactly from 1970 on |
| CivilCalendar.DaysFromCivilSign | nc2nds/date_util.h:7-8 | a valid date's day count is negative exactly when the date is before 1970-01-01 |
| Weekdays.WeekdayFromDays | nc2nds/date_util.h:100-109 | `weekday_from_days` lies in [0, 6] and is `(z + 4)` modulo 7 (Euclidean) for every z, with the truncating `%` of both branches |
| Weekdays.WeekdayDifference | nc2nds/date_util.h:111-120 | on weekdays the unsigned `weekday_difference` lies in [0, 6] and is `(x - y)` modulo 7 |
| Weekdays.WeekdayDifferenceCases | nc2nds/date_util.h:116-120 | the unsigned wrap-around amounts to adding 7 exactly when `x < y` |
| Weekdays.NextWeekday | nc2nds/date_util.h:122-130 | `next_weekday` lies in [0, 6] and adds one modulo 7 on weekdays |
| Weekdays.PrevWeekday | nc2nds/date_util.h:132-141 | `prev_weekday` on a weekday lies in [0, 6] and subtracts one modulo 7 |
| Weekdays.NextPrevInverse | nc2nds/date_util.h:122-141 | `next_weekday` and `prev_weekday` undo each other on [0, 6] |
| Weekdays.WeekdayOfNeighbours | nc2nds/date_util.h:100-141 | the weekday of the next (previous) day is `next_weekday` (`prev_weekday`) of the day's weekday |
| Weekdays.WeekdayDifferenceCounts | nc2nds/date_util.h:100-120 | from day z to day z+k (k in [0, 6]), `weekday_difference` of their weekdays is k |
| Weekdays.AdvanceIsSum | nc2nds/date_util.h:122-130 | n applications of `next_weekday` add n modulo 7 |
| Weekdays.WeekdayDifferenceSteps | nc2nds/date_util.h:111-130 | stepping `weekday_difference(x, y)` times from y with `next_weekday` reaches x |
| Weekdays.EpochIsThursday | nc2nds/date_util.h:100-109 | 1970-01-01 is weekday 4, a Thursday |
| Weekdays.WeekdayOfDateAfterEra | nc2nds/date_util.h:100-109 | the weekday repeats after 146097 days, one era |
| GmTime.DaysBeforeMonth | nc2nds/date_util.h:157-161 | the days of the months before `tm_mon` lie in [0, year length] and reach the first of the next month as `days_from_civil` counts it |
| GmTime.MonthLengthAt | nc2nds/date_util.h:149-160 | the `DaysOfMonth` entry plus the leap-day correction is `last_day_of_month` |
| GmTime.DaysBeforeMonthStep | nc2nds/date_util.h:158-161 | one turn of the month loop adds the `DaysOfMonth` entry and February's leap day |
| GmTime.SecondsBeforeMonthStep | nc2nds/date_util.h:158-161 | one turn of the month loop, in seconds, along both branches of the leap-day test |
| GmTime.ElapsedYearDays | nc2nds/date_util.h:153-156 | the days the year loop adds are never negative and are zero exactly for years up to 1970 |
| GmTime.SecondsOfYearsSince1970 | nc2nds/date_util.h:153-156 | the year loop of `mkgmtime` leaves a whole year of seconds for every year from 1970 below the year |
| GmTime.SecondsBeforeMonth | nc2nds/date_util.h:157-161 | the month loop leaves the seconds of the months before `tm_mon` |
| GmTime.MkGmTime | nc2nds/date_util.h:145-167 | `mkgmtime(const tm*)` returns the as-written value: years since 1970, months before `tm_mon`, and the remaining fields as offsets |
| GmTime.MkGmTimeOf | nc2nds/date_util.h:169-181 | the six-argument `mkgmtime` fills a `tm` and, for a valid date from 1970 on, returns `days_from_civil` times 86400 plus the time of day |
| GmTime.MkGmTimeFromEpoch | nc2nds/date_util.h:145-167 | from 1970 on, `mkgmtime` is the number of seconds since the epoch |
| GmTime.MkGmTimeBefore1970 | nc2nds/date_util.h:153-156 | as written, 1969-12-31 comes out 364 days after the epoch, where one day before it is intended |
| GmTime.MkGmTimeSigned | nc2nds/date_util.h:145-167 | the corrected `mkgmtime` returns seconds since the epoch for every year, before 1970 too |
| GmTime.SecondsToNewYear | nc2nds/date_util.h:153-156 | the corrected year loop counts forward or backward from 1970 to `days_from_civil(year, 1, 1)` days of seconds |
| GmTime.EpochSecondsOfDate | nc2nds/date_util.h:162-165 | for a valid date the seconds are `days_from_civil` times 86400 plus the time of day |
| GmTime.EpochSecondsRoundTrip | nc2nds/date_util.h:145-167 | dividing the seconds of a valid date and time of day by 86400 gives back the date through `civil_from_days`, and the remainder is the time of day |
| CsvFields.Cuts | csv2nds/main.cpp:109 | lists, in increasing order, exactly the positions where the expression matches |
| CsvFields.DropTrailingEmpty | csv2nds/main.cpp:139-142 | a final empty field is dropped, and nothing else is |
| CsvFields.SplitFromPieces | csv2nds/main.cpp:139-142 | the token iterator scanning from any position yields the pieces between the matches from there on |
| CsvFields.SplitIsPiecesBetweenSeparators | csv2nds/main.cpp:109-142 | the fields are the pieces of the line between the commas followed by an even number of quotes, quotes kept, with a final empty piece dropped |
| CsvFields.JoinPieces | csv2nds/main.cpp:139-142 | joining the pieces between comma positions with commas restores the text |
| CsvFields.SplitJoin | csv2nds/main.cpp:139-142 | joining a line's fields with commas restores the line when it does not end with a comma, and the line without its last comma when it does |
| CsvFields.UnquotedCommaSplits | csv2nds/main.cpp:109 | in a line without quotes every comma separates |
| Encoders.ToByte | csv2nds/main.cpp:148-153 | storing into `uint8_t` keeps the value modulo 256 and keeps values in [0, 255] |
| Encoders.Find | csv2nds/main.cpp:152 | `std::find` returns the index of the first equal category, or the number of categories when none is equal |
| Encoders.LowerBound | csv2nds/main.cpp:157-158 | `std::lower_bound` returns the first position whose bound is not less than the value, all bounds before it being less |
| Encoders.LowerBoundCountsLess | csv2nds/main.cpp:157-159 | on ascending bounds the lower bound is the number of bounds strictly less than the value |
| Encoders.LinearScale | csv2nds/main.cpp:84-87 | for an increasing input range and a non-decreasing output range, every `x` in [min, max] maps into [floor(a), floor(b)] |
| Encoders.LinearScaleAtMin | csv2nds/main.cpp:84-87 | `linearScale` maps `min` to `a` |
| Encoders.LinearScaleMonotone | csv2nds/main.cpp:84-87 | `linearScale` is non-decreasing in `x` when `max > min` and `b >= a` |
| Encoders.SequentialWidth | csv2nds/main.cpp:169 | `second - first + 1` as `uint32_t` is the width of the interval when that fits |
| Encoders.LinearScaleUnit | csv2nds/main.cpp:84-87 | when the output range is as wide as the input range and starts at 0, `linearScale` rounds `x - min` down |
| Encoders.SequentialValue | csv2nds/main.cpp:168-173 | with the sequential encoder's arguments the scale factor is one: the value is `floor(x - first)` |
| Encoders.SequentialRange | csv2nds/main.cpp:168-173 | integers in [first, second] map onto [0, second - first], and integers outside are not clamped |
| Encoders.EncodeDiscrete | csv2nds/main.cpp:151-154 | the byte is the index of the first matching category, or the number of categories when none matches, modulo 256 |
| Encoders.EncodeRange | csv2nds/main.cpp:156-160 | on ascending bounds the byte is the number of bounds below the value, modulo 256 |
| Encoders.EncodeBinary | csv2nds/main.cpp:163-165 | the byte is the parsed integer modulo 256, with no check that it is 0 or 1 |
| Encoders.EncodeSequential | csv2nds/main.cpp:168-173 | for a non-empty interval whose width fits in `uint32_t`, the byte is `floor(x - first)` modulo 256 |
| Dimensions.Width | csv2nds/main.cpp:177-212 | a dimension writes 1, 4 or 8 bytes per line |
| Dimensions.WrappedWidth | csv2nds/main.cpp:117-119 | the `uint32_t` sum of the widths is the total width modulo 2^32 |
| Dimensions.U32Bytes | csv2nds/main.cpp:197 | a `uint32_t` written as four bytes reads back as the same value |
| Dimensions.U32BytesOfValue | csv2nds/main.cpp:197 | any four bytes are the bytes of the `uint32_t` they spell |
| Dimensions.EncodeField | csv2nds/main.cpp:144-215 | a field encodes to a value of the dimension's width, and fails exactly when a conversion throws `std::invalid_argument` |
| Dimensions.DiscreteFieldIsIndex | csv2nds/main.cpp:151-154 | a discrete field never fails and holds the category index |
| Dimensions.TemporalFieldIsSeconds | csv2nds/main.cpp:181-197 | a temporal field never fails and holds the seconds since 1970 modulo 2^32 |
| Dimensions.RangeFieldIsCount | csv2nds/main.cpp:156-160 | a range field is rejected when `std::stof` throws, and otherwise holds the number of ascending bounds below the value |
| Dimensions.BinaryFieldIsInteger | csv2nds/main.cpp:163-165 | a binary field is rejected when `std::stoi` throws, and otherwise holds the integer modulo 256 |
| Dimensions.SequentialFieldIsShift | csv2nds/main.cpp:168-173 | a sequential field is rejected when `std::stof` throws, and otherwise holds `floor(x - first)` modulo 256 |
| Dimensions.SpatialFieldIsCoordinates | csv2nds/main.cpp:203-212 | a spatial field is rejected when either `std::stof` throws, and otherwise holds the latitude's `float` bytes followed by the longitude's |
| Transcoder.HeaderBytes | csv2nds/main.cpp:95-101 | the header is 8 bytes, `bytes` then `records`, each read back as the `uint32_t` written |
| Transcoder.PlaceholderIsZero | csv2nds/main.cpp:95-101 | the placeholder header is eight zero bytes |
| Transcoder.Overwrite | csv2nds/main.cpp:229-232 | a write at a position replaces that range, keeps the bytes before and after it, and appends at the end |
| Transcoder.OutputFile.constructor | csv2nds/main.cpp:93 | a new output file is empty, positioned at 0 |
| Transcoder.OutputFile.Write | csv2nds/main.cpp:101-232 | `write` puts the bytes at the put position and moves past them |
| Transcoder.OutputFile.SeekStart | csv2nds/main.cpp:229-230 | `seekp(0)` moves to the start and keeps the contents |
| Transcoder.EofLines | csv2nds/main.cpp:131-132 | the `eof`-tested `getline` loop delivers at least one line, even from an empty file |
| Transcoder.EofLinesCons | csv2nds/main.cpp:131-132 | a line followed by its newline is delivered as that line |
| Transcoder.EofLinesOfTerminated | csv2nds/main.cpp:131-132 | for a file whose every line ends with a newline, the loop delivers those lines and one more, empty, line |
| Transcoder.FinalNewlineUnreadable | csv2nds/main.cpp:131-142 | that empty line is among the data lines, so it is counted as a record, and no dimension can read its columns |
| Transcoder.GetlineLinesOfTerminated | csv2nds/main.cpp:131-132 | a `while (getline(...))` loop delivers exactly the lines of a newline-terminated file |
| Transcoder.DataRows | csv2nds/main.cpp:126-129 | skipping the declared header line leaves one line fewer, and none of an empty file |
| Transcoder.RowBytes | csv2nds/main.cpp:134-219 | a line adds the dimension's width in bytes, or nothing when a conversion throws |
| Transcoder.GenerateFromCsv | csv2nds/main.cpp:89-237 | the file is the patched header followed by the field-major blocks; `bytes` is the total width modulo 2^32; `records` is the number of data lines modulo 2^32, or 0 without dimensions |
| Transcoder.TranscodeFields | csv2nds/main.cpp:117-221 | the outer loop appends every dimension's block in schema order, sums the widths and leaves the last dimension's line count |
| Transcoder.TranscodeField | csv2nds/main.cpp:131-220 | one pass appends the block of one dimension and counts every line, whether or not it encodes |
| Transcoder.TranscodeLine | csv2nds/main.cpp:138-219 | a line's value is written whole or, when a conversion throws, not at all |
| Transcoder.FieldBlockStep | csv2nds/main.cpp:131-220 | one more line adds exactly its own value to the block |
| Transcoder.PayloadStep | csv2nds/main.cpp:117-221 | one more dimension adds exactly its block to the payload and its width to `bytes` |
| Transcoder.PatchHeader | csv2nds/main.cpp:229-232 | rewriting the header at offset 0 changes only the header, not the payload |
| Transcoder.FailedLineSkipped | csv2nds/main.cpp:134-219 | a line that throws adds neither bytes nor an encoded value, and the loop goes on |
| Transcoder.FieldBlockLength | csv2nds/main.cpp:131-220 | a block holds one value of the dimension's width per line that encodes |
| Transcoder.AllEncodedCounted | csv2nds/main.cpp:131-220 | when no line throws, every line is encoded and the block holds `width * lines` bytes |
| Transcoder.PayloadLength | csv2nds/main.cpp:117-221 | when no line throws, the payload holds `bytes` per record: `total width * lines` |
| Transcoder.FieldBlockPrefix | csv2nds/main.cpp:131-220 | the block of the first lines starts the block of all lines |
| Transcoder.LinePrefix | csv2nds/main.cpp:131-220 | a line's value follows the values of the lines before it in the block |
| Transcoder.FieldBlockIndex | csv2nds/main.cpp:131-220 | when no line throws, byte j of line r's value is at `width * r + j` in the block |
| Transcoder.PayloadPrefix | csv2nds/main.cpp:117-221 | the payload of the first dimensions starts the payload of all |
| Transcoder.BlockPrefix | csv2nds/main.cpp:117-221 | a dimension's block follows the blocks of the dimensions before it |
| Transcoder.ValueAt | csv2nds/main.cpp:117-221 | a line's value for a dimension lies after the earlier dimensions' blocks and the earlier lines' values |
| Transcoder.PrefixLength | csv2nds/main.cpp:117-221 | when no line throws, the blocks before dimension k take the widths before k times the lines |
| Descriptor.GenerateXml | csv2nds/main.cpp:20-69 | one node per dimension in schema order: kind and bin of the dimension, index k and offset the widths before it, both modulo 2^32 |
| Descriptor.CountersStep | csv2nds/main.cpp:30-64 | one node advances `index` by one and `offset` by the dimension's width |
| Descriptor.NodeAtCounts | csv2nds/main.cpp:20-69 | the counters of node k are k and the prefix sum of the widths, modulo 2^32 |
| Descriptor.PositionParts | csv2nds/main.cpp:117-221 | when no line throws, the blocks before dimension k and the values before line r take the field-major offset |
| Descriptor.PayloadPosition | csv2nds/main.cpp:117-221 | when no line throws, byte j of line r's value for dimension k is at the field-major offset in the payload |
| Descriptor.FieldMajorPosition | csv2nds/main.cpp:95-221 | the same position in the file, past the 8-byte header |
| Descriptor.AfterHeader | csv2nds/main.cpp:101 | the payload starts right after the header |
| Descriptor.LayoutsAgree | csv2nds/main.cpp:20-69 | the descriptor's interleaved positions match the written field-major positions for every value exactly when there is at most one dimension or at most one line |

## Left out

- Integer widths of `date_util.h`. `Int`, `int` and `time_t` are unbounded here, so overflow near the limits of `Int` is not modelled. This covers `days_from_civil` and `civil_from_days` at the ends of their documented ranges, `weekday_from_days` near the largest `Int`, and `mkgmtime` past the range of `time_t`.
- DaysFromCivil: the `unsigned` intermediates are taken as wrap-free. That holds for a month in [1, 12] and a day in [1, 31], which its precondition requires. A day of 0 or above 31 is not modelled.
- EncodeRange: states the result only for ascending bounds. `std::lower_bound` requires bounds partitioned around the value, and for other bounds `LowerBound` models a linear search.
- LinearScale: uses `real` in place of `float`, so rounding is not modelled. `max == min` is excluded because the source divides by zero there and the floored result has no integer value.
- EncodeBinary: `std::stoi` out of range throws `std::out_of_range`, which the loop does not catch. The model has no such outcome.
- EncodeSequential: its contract covers intervals with `first <= second` whose width `second - first + 1` is below 2^32. For other intervals the `uint32_t` width `diff` wraps, and only the as-written value is modelled.
- Temporal encoding: the boost `time_input_facet` parse is a function parameter, `epochSeconds`. Its result is stored modulo 2^32.
- Spatial encoding: `std::stof` and the bytes of a `float` are function parameters.
- Byte order: the `uint32_t` header and values are taken as little-endian. `sizeof(coordinates_t)` is taken as 8, two `float`s. types.h is not part of this model.
- `get_n_bins()` and `interval` come from the schema. They are data of a `Dimension`; types.h is not part of this model.
- Input lines: `GenerateFromCsv` takes the sequence of lines that is read. The source indexes the split fields without a check, so every line must hold the columns the dimensions read (`ReadableBy`). The empty line that the `eof` loop adds after a final newline does not; see "## Findings". `GenerateFromCsv` therefore runs on the lines as the corrected `getline` loop (`GetlineLines`) delivers them. Rewinding the input per dimension, `cerr` logging and the stream state are not modelled.
- GenerateFromCsv: `bytes` sums `pair.second->bytes()` (csv2nds/main.cpp:119), which is declared in types.h. The model takes it to be `Width(d)`, the number of bytes the loop writes for the dimension (177, 197, 212). The `bytes` ensures and `PayloadLength` depend on that.
- `std::stof` out of range throws `std::out_of_range`, which the loop does not catch. This applies to the range encoder (157), the sequential encoder (170) and both spatial coordinates (207, 210). The model has no such outcome; `stof` either gives a value or fails with `std::invalid_argument`.
- Dimension order: `dims` is the order in which the loops visit `schema->dimension_map`. The map is keyed by the insertion count (260, 304, 320), so that is schema order when the map is ordered by key, as `std::map` is. The map type is declared in types.h, which is not part of this model.
- MkGmTimeOf: the six-argument `mkgmtime` declares `hour`, `min` and `sec` with default value 0 (nc2nds/date_util.h:169). Dafny has no default arguments, so the callers pass all six; a call with three arguments is `MkGmTimeOf(year, mon, mday, 0, 0, 0)`.
- The regular expression is modelled by what it matches, the separator rule. The regex engine is not modelled.
- `read_xml_schema`, the XML writing of `generate_xml`, and `main` with its command-line options: parsing and output plumbing. The model keeps the index, bin and offset computation.
- `linesregx` is declared but never used.
- hcf2nds/DataDescriptor.h: a map wrapper and file archive outside the transcoder and the calendar code.
- File-open failures and other I/O errors are not modelled.

## Findings

| source | as written | input that shows it | evidently intended | confidence | as-written member | corrected member |
|---|---|---|---|---|---|---|
| nc2nds/date_util.h:153-156 | the year loop runs from 1970 up to the year, so it adds nothing for a year before 1970 | `mkgmtime(1969, 12, 31)` gives 364 * 86400 instead of -86400; every pre-1970 date aliases a 1970 date | seconds since the epoch, negative before 1970, as for `timegm` | not executed; high that the value is as shown, medium that negative times were meant to be supported | GmTime.MkGmTimeBefore1970 | GmTime.MkGmTimeSigned |
| csv2nds/main.cpp:131-142 | the read loop tests `eof()` before `getline`, so after a final newline it reads one more, empty, line; it counts that line in `records` and indexes its empty field vector | any CSV file that ends with a newline, such as `"a,1\n"`, yields the lines `"a,1"` and `""` | one record per line of the file, as a `while (std::getline(infile, line))` loop reads them | not executed; high | Transcoder.FinalNewlineUnreadable | Transcoder.GetlineLinesOfTerminated |
