// Day serials and packed timestamps of compact records: the text they are decoded to parses to the
// day and the time they stand for.

module E2Dates {
  import opened Bytes
  import opened Calendar
  import opened E2Record

  /** Serials count days from 30 December 1899. */
  lemma SerialEpoch()
    ensures CivilToDays(1899, 12, 30) == -OLE_EPOCH_OFFSET
    ensures DaysToCivil(-OLE_EPOCH_OFFSET) == Calendar.Date(1899, 12, 30)
  {
    assert ValidDate(Calendar.Date(1899, 12, 30)) && CivilToDays(1899, 12, 30) == -OLE_EPOCH_OFFSET;
    hide DaysToCivil;
    hide CivilToDays;
    CivilRoundTrip(Calendar.Date(1899, 12, 30));
  }

  /** The year that a serial falls into. */
  function YearOf(serial: nat): int {
    DaysToCivil(serial - OLE_EPOCH_OFFSET).year
  }

  /** Serials are never so large that 32 bits cut them, up to the year 9999. */
  lemma SerialIsDay(serial: nat)
    requires YearOf(serial) <= 9999
    ensures 0 <= YearOf(serial)
    ensures DaySerialText(serial) == DateText(DaysToCivil(serial - OLE_EPOCH_OFFSET))
  {
    YearRange(serial - OLE_EPOCH_OFFSET);
    hide DaysToCivil;
    hide DateText;
  }

  /** The text of a serial parses to the day that many days after the epoch, up to the year 9999. */
  lemma SerialReadBack(serial: nat, rest: Bytes)
    requires YearOf(serial) <= 9999
    ensures |DaySerialText(serial)| == 10
    ensures ParseDate(DaySerialText(serial) + rest) == Some(CivilToDays(1899, 12, 30) + serial)
  {
    SerialEpoch();
    hide CivilToDays;
    SerialIsDay(serial);
    DateTextOf(serial - OLE_EPOCH_OFFSET, rest);
    hide DaysToCivil;
    hide DateText;
    hide ParseDate;
  }

  /** A packed timestamp parses to its day and its time in whole seconds, up to the year 9999. */
  lemma PackedReadBack(day: nat, centis: nat)
    requires day < 0x100_0000 && centis < 0x100_0000 && YearOf(day) <= 9999
    ensures ParseDatetime(PackedDateTimeText(day * 0x100_0000 + centis))
      == Some((CivilToDays(1899, 12, 30) + day) * 86_400_000_000 + centis / 100 * 1_000_000)
  {
    hide *;
    var date, secs := DaySerialText(day), centis / 100;
    SerialReadBack(day, [SPACE] + TimeText(secs));
    PackedTextIs(day, centis);
    TimestampParses(CivilToDays(1899, 12, 30) + day, date, secs);
  }

  lemma PackedTextIs(day: nat, centis: nat)
    requires day < 0x100_0000 && centis < 0x100_0000
    ensures PackedDateTimeText(day * 0x100_0000 + centis) == DaySerialText(day) + [SPACE] + TimeText(centis / 100)
  {
    hide DaySerialText;
    hide TimeText;
    var raw := day * 0x100_0000 + centis;
    assert raw / 0x100_0000 == day && raw % 0x100_0000 == centis;
  }

  /** A date and a time of day make a timestamp. */
  lemma TimestampParses(days: int, date: Bytes, secs: nat)
    requires |date| == 10 && secs < 360000 && ParseDate(date + ([SPACE] + TimeText(secs))) == Some(days)
    ensures ParseDatetime(date + [SPACE] + TimeText(secs)) == Some(days * 86_400_000_000 + secs * 1_000_000)
  {
    hide ParseDate;
    hide ParseClock;
    hide TimeText;
    var clock := TimeText(secs);
    Assoc(date, [SPACE], clock);
    ClockTextParses(date + [SPACE], secs, []);
    assert (date + [SPACE]) + clock + [] == (date + [SPACE]) + clock;
  }

  /** Hundredths of a second parse to whole seconds, for times below 100 hours. */
  lemma CentisecondsReadBack(centis: nat)
    requires centis < 36_000_000
    ensures ParseTime(TimeText(centis / 100)) == Some(centis / 100 * 1_000_000_000)
  {
    hide ParseClock;
    hide TimeText;
    ClockTextParses([], centis / 100, []);
    assert [] + TimeText(centis / 100) + [] == TimeText(centis / 100);
  }
}
