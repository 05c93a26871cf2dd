/** The bridge's cursor file: written to a temporary beside it and renamed, so that no reader ever sees a
    torn number. */
module CursorFile {
  import opened Options
  import opened Texts

  /** The cursor file and the temporary beside it; none while a file does not exist. */
  datatype Files = Files(cursor: Option<string>, temp: Option<string>)

  /** The number a file holds: none without a file, or when it holds anything but digits. */
  function CursorOf(file: Option<string>): Option<nat> {
    if file.None? then None
    else
      var raw := Trim(file.value);
      if raw == "" || !AllDigits(raw) then None else Some(Value(raw))
  }

  /** How a write ends: renamed, or thrown with so many digits in the temporary, or before the rename. */
  datatype WriteEnd = Renamed | DirectoryFails | WriteFails(digits: nat) | RenameFails

  /** The temporary replaced by the first `digits` digits of the cursor. */
  function Written(files: Files, cursor: nat, digits: nat): Files {
    var text := Decimal(cursor);
    files.(temp := Some(if digits < |text| then text[..digits] else text))
  }

  function RenamedTo(files: Files): Files { Files(files.temp, None) }

  /** Persist the cursor. The file reads as the new value when the write is durable and as before when it
      is not, whatever the temporary holds by then. */
  method WriteCursor(files: Files, cursor: nat, end: WriteEnd) returns (after: Files, durable: bool)
    ensures durable <==> end.Renamed?
    ensures CursorOf(after.cursor) == if durable then Some(cursor) else CursorOf(files.cursor)
    ensures CrashPoint(files, cursor, after)
  {
    after, durable := files, false;
    if end.DirectoryFails? {
      return;
    }
    if end.WriteFails? {
      after := Written(files, cursor, end.digits);
      return;
    }
    after := Written(files, cursor, |Decimal(cursor)|);
    if end.RenameFails? {
      return;
    }
    after, durable := RenamedTo(after), true;
    RoundTrip(cursor);
  }

  /** What a crash during the write can leave behind. */
  ghost predicate CrashPoint(files: Files, cursor: nat, after: Files) {
    || after == files
    || (exists digits :: after == Written(files, cursor, digits))
    || after == RenamedTo(Written(files, cursor, |Decimal(cursor)|))
  }

  /** A crash anywhere in the write leaves the old cursor or the new one, never a third. */
  lemma CrashNeverTears(files: Files, cursor: nat, after: Files)
    requires CrashPoint(files, cursor, after)
    ensures CursorOf(after.cursor) == CursorOf(files.cursor) || CursorOf(after.cursor) == Some(cursor)
  {
    RoundTrip(cursor);
  }

  /** A cursor written is the cursor read. */
  lemma RoundTrip(cursor: nat)
    ensures CursorOf(Some(Decimal(cursor))) == Some(cursor)
  {
    DigitsStay(Decimal(cursor));
    ValueOfDecimal(cursor);
  }

  lemma DigitsStay(text: string)
    requires AllDigits(text)
    ensures Trim(text) == text
  {
    assert text != "" ==> !IsSpace(text[0]) && !IsSpace(text[|text| - 1]);
  }

  /** A cursor with white space around it reads as the cursor. */
  lemma PaddedCursorReads(before: string, cursor: nat, after: string)
    requires Blank(before) && Blank(after)
    ensures CursorOf(Some(before + Decimal(cursor) + after)) == Some(cursor)
  {
    hide IsSpace, Trim;
    DigitsAreTight(Decimal(cursor));
    TrimPadded(before, Decimal(cursor), after);
    ValueOfDecimal(cursor);
  }

  lemma DigitsAreTight(text: string)
    requires AllDigits(text)
    ensures Tight(text)
  {
    assert text != "" ==> !IsSpace(text[0]) && !IsSpace(text[|text| - 1]);
  }

  /** A file is readable exactly when it holds digits with nothing but white space around them. */
  lemma ReadableExactlyWhen(raw: string)
    ensures CursorOf(Some(raw)).Some? <==>
            exists before, digits, after :: Blank(before) && digits != "" && AllDigits(digits) && Blank(after) && raw == before + digits + after
  {
    hide IsSpace, Trim, AllDigits;
    if before, digits, after :| Blank(before) && digits != "" && AllDigits(digits) && Blank(after) && raw == before + digits + after {
      DigitsAreTight(digits);
      TrimPadded(before, digits, after);
    } else {
      var before, after := TrimCuts(raw);
    }
  }

  /** Why it is not written in place: a number that lost its last digit still reads as a cursor, one far
      behind. */
  lemma TornNumberReads(cursor: nat)
    requires cursor >= 10
    ensures var text := Decimal(cursor); CursorOf(Some(text[..|text| - 1])) == Some(cursor / 10)
  {
    var text := Decimal(cursor);
    assert text[..|text| - 1] == Decimal(cursor / 10);
    RoundTrip(cursor / 10);
  }
}
