// The manual-entry dialog: its three form fields, the validation done on
// save, and the reset done on close. The `onAdd` and `onClose` callbacks are
// recorded, in call order, in `calls`.

module AddContractionDialog {
  import opened Types

  /** Which toast a rejected save shows. */
  datatype AddError = MissingStartTime | MissingEndTime | EndNotAfterStart

  datatype AddDecision =
    | Reject(error: AddError)
    | Accept(startTime: Instant, endTime: Option<Instant>)

  datatype AddCall = OnAdd(startTime: Instant, endTime: Option<Instant>) | OnClose

  /**
   * The early-return checks of `handleSave`, with `parse` standing for
   * `new Date(text)`.
   */
  function DecideAdd(startField: string, endField: string, includeEndTime: bool,
                     parse: string -> Instant): (d: AddDecision)
    ensures d.Accept? <==>
      startField != "" && (includeEndTime ==> endField != "" && parse(endField) > parse(startField))
    ensures startField == "" ==> d == Reject(MissingStartTime)
    ensures startField != "" && includeEndTime && endField == "" ==> d == Reject(MissingEndTime)
    ensures startField != "" && includeEndTime && endField != "" && parse(endField) <= parse(startField) ==>
      d == Reject(EndNotAfterStart)
    ensures d.Accept? ==> d.startTime == parse(startField)
    ensures d.Accept? ==> (d.endTime.Some? <==> includeEndTime)
    ensures d.Accept? && d.endTime.Some? ==>
      d.endTime.value == parse(endField) && d.endTime.value > d.startTime
  {
    if startField == "" then Reject(MissingStartTime)
    else
      var startDate := parse(startField);
      if includeEndTime then
        if endField == "" then Reject(MissingEndTime)
        else
          var endDate := parse(endField);
          if endDate <= startDate then Reject(EndNotAfterStart)
          else Accept(startDate, Some(endDate))
      else Accept(startDate, None)
  }

  class AddDialog {
    var startTime: string
    var endTime: string
    var includeEndTime: bool
    var calls: seq<AddCall>

    /** Both fields empty and the end time included, as on first render. */
    constructor ()
      ensures startTime == "" && endTime == "" && includeEndTime && calls == []
    {
      startTime, endTime, includeEndTime := "", "", true;
      calls := [];
    }

    /** Resets the form and asks the parent to close the dialog. */
    method HandleClose()
      modifies this
      ensures startTime == "" && endTime == "" && includeEndTime
      ensures calls == old(calls) + [OnClose]
    {
      startTime := "";
      endTime := "";
      includeEndTime := true;
      calls := calls + [OnClose];
    }

    /**
     * Validates the form. A rejected save changes nothing; an accepted one
     * calls `onAdd` once and then closes through `HandleClose`.
     */
    method HandleSave(parse: string -> Instant) returns (d: AddDecision)
      modifies this
      ensures d == DecideAdd(old(startTime), old(endTime), old(includeEndTime), parse)
      ensures d.Reject? ==>
        startTime == old(startTime) && endTime == old(endTime)
        && includeEndTime == old(includeEndTime) && calls == old(calls)
      ensures d.Accept? ==>
        startTime == "" && endTime == "" && includeEndTime
        && calls == old(calls) + [OnAdd(d.startTime, d.endTime), OnClose]
    {
      d := DecideAdd(startTime, endTime, includeEndTime, parse);
      if d.Accept? {
        calls := calls + [OnAdd(d.startTime, d.endTime)];
        HandleClose();
      }
    }
  }
}
