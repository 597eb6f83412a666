/**
 * The share-settings dialog: share everything, or only the memories of a
 * date range that must be complete, ordered, not reach past today and hold
 * at least one memory. Dates are compared as calendar days; text that is
 * not a `YYYY-MM-DD` date behaves as JavaScript's invalid date, which
 * compares false with everything.
 */
module ShareSettings {
  import opened Wrappers
  import opened Dates
  import LocalDb

  datatype ShareMode = Unlimited | Range

  /** The configuration written by `setShareConfig`; the dates only in range mode. */
  datatype ShareConfig = ShareConfig(mode: ShareMode, startDate: Option<string>, endDate: Option<string>)

  const PickBoth: string := "请选择开始和结束日期"
  const StartAfterEnd: string := "开始日期不能晚于结束日期"
  const EndAfterToday: string := "结束日期不能晚于今日"
  const SaveFailed: string := "保存失败，请重试"

  /** `toLocaleDateString('zh-CN')`: year/month/day without padding, or "Invalid Date". */
  function LocaleDate(d: Option<Day>): (s: string)
    ensures d.None? ==> s == "Invalid Date"
  {
    if d.Some? && d.value.year >= 0 && d.value.month >= 0 && d.value.day >= 0
    then Decimal(d.value.year) + "/" + Decimal(d.value.month) + "/" + Decimal(d.value.day)
    else "Invalid Date"
  }

  function NoPhotosIn(start: Option<Day>, end: Option<Day>): string
  {
    "所选日期区间（" + LocaleDate(start) + " 至 " + LocaleDate(end) + "）内没有照片，请选择其他日期范围"
  }

  /** `start <= memoryDate <= end` by day, false as soon as one side is not a date. */
  predicate InRange(date: string, start: string, end: string)
  {
    var d, s, e := Parse(date), Parse(start), Parse(end);
    d.Some? && s.Some? && e.Some? && NotAfter(s.value, d.value) && NotAfter(d.value, e.value)
  }

  /** `memories.filter(inRange).length`. */
  function CountInRange(memories: seq<LocalDb.Memory>, start: string, end: string): (n: nat)
    ensures n <= |memories|
    decreases |memories|
  {
    if |memories| == 0 then 0
    else CountInRange(memories[..|memories| - 1], start, end) + (if InRange(memories[|memories| - 1].date, start, end) then 1 else 0)
  }

  /** The filter is non-empty exactly when `some` memory is in range. */
  lemma {:induction false} CountPositiveIffSome(memories: seq<LocalDb.Memory>, start: string, end: string)
    ensures CountInRange(memories, start, end) > 0 <==> exists i :: 0 <= i < |memories| && InRange(memories[i].date, start, end)
    decreases |memories|
  {
    if |memories| > 0 {
      var init := memories[..|memories| - 1];
      CountPositiveIffSome(init, start, end);
      assert forall i :: 0 <= i < |init| ==> init[i] == memories[i];
    }
  }

  /** `getPhotosCountInRange()`: 0 outside range mode or with a date missing. */
  function PhotosCountInRange(mode: ShareMode, start: string, end: string, memories: seq<LocalDb.Memory>): (n: nat)
    ensures mode != Range || start == "" || end == "" ==> n == 0
    ensures mode == Range && start != "" && end != "" ==> n == CountInRange(memories, start, end)
  {
    if mode != Range || start == "" || end == "" then 0 else CountInRange(memories, start, end)
  }

  /** Not later than is the negation of strictly after, on days that exist. */
  lemma NotBeforeIsNotAfter(s: Option<Day>, e: Option<Day>, today: Day)
    ensures s.Some? && e.Some? ==> (!Before(e.value, s.value) <==> NotAfter(s.value, e.value))
    ensures e.Some? ==> (!Before(today, e.value) <==> NotAfter(e.value, today))
  {
    if s.Some? && e.Some? {
      BeforeIsStrictOrder(s.value, e.value, today);
    }
    if e.Some? {
      BeforeIsStrictOrder(e.value, today, e.value);
    }
  }

  /** The conditions range mode checks, in order. */
  function CheckRange(start: string, end: string, today: Day, memories: seq<LocalDb.Memory>): Outcome
  {
    var s, e := Parse(start), Parse(end);
    if start == "" || end == "" then Fail(PickBoth)
    else if s.Some? && e.Some? && Before(e.value, s.value) then Fail(StartAfterEnd)
    else if e.Some? && Before(today, e.value) then Fail(EndAfterToday)
    else if !exists i :: 0 <= i < |memories| && InRange(memories[i].date, start, end) then Fail(NoPhotosIn(s, e))
    else Pass
  }

  /**
   * `validateDateRange()`: share-everything always passes; a range passes
   * exactly when both dates are set and valid, ordered, not after today,
   * and some memory falls between them (inclusive).
   */
  function ValidateDateRange(mode: ShareMode, start: string, end: string, today: Day, memories: seq<LocalDb.Memory>): (r: Outcome)
    ensures mode == Unlimited ==> r == Pass
    ensures mode == Range && (start == "" || end == "") ==> r == Fail(PickBoth)
    ensures mode == Range ==>
      (r == Pass <==>
        && start != "" && end != ""
        && Parse(start).Some? && Parse(end).Some?
        && NotAfter(Parse(start).value, Parse(end).value) && NotAfter(Parse(end).value, today)
        && exists i :: 0 <= i < |memories| && InRange(memories[i].date, start, end))
    ensures r.Fail? ==> r.error != ""
  {
    if mode == Range then
      var r := CheckRange(start, end, today, memories);
      assert r == Pass ==> Parse(start).Some? && Parse(end).Some? by {
        if r == Pass {
          var i :| 0 <= i < |memories| && InRange(memories[i].date, start, end);
        }
      }
      NotBeforeIsNotAfter(Parse(start), Parse(end), today);
      r
    else Pass
  }

  /** What the save button writes: the dates only in range mode. */
  function ConfigOf(mode: ShareMode, start: string, end: string): (c: ShareConfig)
    ensures c.mode == mode
    ensures mode == Range <==> c.startDate == Some(start) && c.endDate == Some(end)
    ensures mode == Unlimited ==> c.startDate.None? && c.endDate.None?
  {
    if mode == Range then ShareConfig(mode, Some(start), Some(end)) else ShareConfig(mode, None, None)
  }

  /**
   * A disabled save button never hides a range that would pass: in range
   * mode with both dates set, a count of 0 means validation fails.
   */
  lemma DisabledSaveWouldFail(start: string, end: string, today: Day, memories: seq<LocalDb.Memory>)
    requires start != "" && end != "" && PhotosCountInRange(Range, start, end, memories) == 0
    ensures ValidateDateRange(Range, start, end, today, memories).Fail?
  {
    CountPositiveIffSome(memories, start, end);
  }

  /** A passing range holds at least one memory, so its count is positive and the button is enabled. */
  lemma PassingRangeCounts(start: string, end: string, today: Day, memories: seq<LocalDb.Memory>)
    requires ValidateDateRange(Range, start, end, today, memories) == Pass
    ensures PhotosCountInRange(Range, start, end, memories) > 0
  {
    CountPositiveIffSome(memories, start, end);
  }

  /** The dialog's state: the mode, the two date inputs, the error line and the saving flag. */
  class ShareSettingsModal {
    var mode: ShareMode
    var startDate: string
    var endDate: string
    var error: string
    var loading: bool
    /** What `setShareConfig` last stored. */
    var stored: Option<ShareConfig>

    constructor()
      ensures mode == Unlimited && startDate == "" && endDate == "" && error == "" && !loading && stored == None
    {
      mode := Unlimited;
      startDate := "";
      endDate := "";
      error := "";
      loading := false;
      stored := None;
    }

    /** Opening loads the stored configuration, or the defaults, and clears the error. */
    method Open()
      modifies this
      ensures stored.Some? ==>
        && mode == stored.value.mode
        && startDate == (if stored.value.startDate.Some? then stored.value.startDate.value else "")
        && endDate == (if stored.value.endDate.Some? then stored.value.endDate.value else "")
      ensures stored.None? ==> mode == Unlimited && startDate == "" && endDate == ""
      ensures error == "" && stored == old(stored) && loading == old(loading)
    {
      if stored.Some? {
        var config := stored.value;
        mode := config.mode;
        startDate := if config.startDate.Some? then config.startDate.value else "";
        endDate := if config.endDate.Some? then config.endDate.value else "";
      } else {
        mode := Unlimited;
        startDate := "";
        endDate := "";
      }
      error := "";
    }

    /** `validateDateRange()` as the handler runs it: the verdict, and the error line set or cleared. */
    method Validate(today: Day, memories: seq<LocalDb.Memory>) returns (ok: bool)
      modifies this
      ensures var v := ValidateDateRange(mode, startDate, endDate, today, memories);
        ok == v.Pass? && error == (if v.Fail? then v.error else "")
      ensures mode == old(mode) && startDate == old(startDate) && endDate == old(endDate)
      ensures loading == old(loading) && stored == old(stored)
    {
      var v := ValidateDateRange(mode, startDate, endDate, today, memories);
      if v.Fail? {
        error := v.error;
        return false;
      }
      error := "";
      ok := true;
    }

    /**
     * `handleSave()`: nothing is written unless validation passes; then the
     * configuration is written (`writeOk` is the store's answer) and read
     * back (`readOk`), and the dialog hands the stored configuration to its
     * owner and closes. A failure of either call shows the save error, and
     * a failed read-back comes after the write has already happened.
     */
    method HandleSave(today: Day, memories: seq<LocalDb.Memory>, writeOk: bool, readOk: bool)
      returns (closed: bool, saved: Option<ShareConfig>)
      modifies this
      ensures var v := ValidateDateRange(mode, startDate, endDate, today, memories);
        && (v.Fail? ==> !closed && saved == None && stored == old(stored) && error == v.error)
        && (v.Pass? && !writeOk ==> !closed && saved == None && stored == old(stored) && error == SaveFailed)
        && (v.Pass? && writeOk ==> stored == Some(ConfigOf(mode, startDate, endDate)))
        && (v.Pass? && writeOk && !readOk ==> !closed && saved == None && error == SaveFailed)
        && (v.Pass? && writeOk && readOk ==> closed && saved == stored && error == "")
      ensures loading == (if ValidateDateRange(mode, startDate, endDate, today, memories).Pass? then false else old(loading))
      ensures mode == old(mode) && startDate == old(startDate) && endDate == old(endDate)
    {
      saved := None;
      var ok := Validate(today, memories);
      if !ok {
        return false, None;
      }
      loading := true;
      closed := false;
      if !writeOk {
        error := SaveFailed;
      } else {
        stored := Some(ConfigOf(mode, startDate, endDate));
        if readOk {
          saved := stored;
          closed := true;
        } else {
          error := SaveFailed;
        }
      }
      loading := false;
    }

    /** The save button's `disabled`. */
    predicate SaveDisabled(memories: seq<LocalDb.Memory>)
      reads this
    {
      loading || (mode == Range && startDate != "" && endDate != "" && PhotosCountInRange(mode, startDate, endDate, memories) == 0)
    }
  }
}
