/** Choosing the event log format (`get_eventlog_format_high`). */
module EventLogFormat {
  import opened Common

  const TCG_1_2: bv32 := 0x00000001
  const TCG_2: bv32 := 0x00000002

  /** The status returned and the format written, if one is. */
  datatype Choice = Choice(status: Status, format: Option<bv32>)

  /** A failed capability query ends the function with its status. The code joins
      the bitmap and each format with a logical AND, so the first test already
      passes for any non-empty bitmap. */
  function FormatHigh(query: Status, supported: bv32): Choice {
    if IsError(query) then Choice(query, None)
    else if supported != 0 && TCG_2 != 0 then Choice(EFI_SUCCESS, Some(TCG_2))
    else if supported != 0 && TCG_1_2 != 0 then Choice(EFI_SUCCESS, Some(TCG_1_2))
    else Choice(EFI_SUCCESS, Some(0))
  }

  /** What the function's comment promises: the known format with the highest
      version among the supported ones, 0 if there is none; and no format, with
      the firmware's status, when the query failed. */
  predicate KeepsPromise(c: Choice, query: Status, supported: bv32) {
    if query >= 0x8000_0000_0000_0000 then c.format.None? && c.status == query
    else
      && c.status == EFI_SUCCESS
      && c.format == Some(if supported & TCG_2 != 0 then TCG_2
                          else if supported & TCG_1_2 != 0 then TCG_1_2
                          else 0)
  }

  /** The promise is kept exactly for firmware that fails the query, or supports
      the TCG 2 format, or no format at all. */
  lemma HighestExactlyWhen(query: Status, supported: bv32)
    ensures KeepsPromise(FormatHigh(query, supported), query, supported)
       <==> query >= 0x8000_0000_0000_0000 || supported & TCG_2 != 0 || supported == 0
  {
    assert supported == 0 ==> supported & TCG_2 == 0 && supported & TCG_1_2 == 0;
  }

  /** What is written: the TCG 2 format for any bitmap but the empty one. */
  lemma FormatGiven(query: Status, supported: bv32)
    ensures var c := FormatHigh(query, supported);
      if query >= 0x8000_0000_0000_0000 then c == Choice(query, None)
      else c.status == 0 && c.format == Some(if supported == 0 then 0x0 else 0x2)
  {
    assert TCG_2 != 0;
  }

  /** Firmware with only the TCG 1.2 log, and firmware with only a format this
      program does not know, are both taken to have the TCG 2 log. */
  lemma PromiseBroken()
    ensures FormatHigh(EFI_SUCCESS, TCG_1_2) == Choice(EFI_SUCCESS, Some(TCG_2))
    ensures !KeepsPromise(FormatHigh(EFI_SUCCESS, TCG_1_2), EFI_SUCCESS, TCG_1_2)
    ensures FormatHigh(EFI_SUCCESS, 0x4) == Choice(EFI_SUCCESS, Some(TCG_2))
    ensures !KeepsPromise(FormatHigh(EFI_SUCCESS, 0x4), EFI_SUCCESS, 0x4)
  {
    assert TCG_1_2 & TCG_2 == 0;
    assert (0x4 as bv32) & TCG_2 == 0;
  }
}
