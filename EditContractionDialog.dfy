// The edit dialog: the two form fields loaded from the selected contraction,
// and the validation done on save. The `onSave` and `onClose` callbacks are
// recorded, in call order, in `calls`.

module EditContractionDialog {
  import opened Types

  datatype EditDecision =
    | Ignore                      // returns silently: no toast, no callback
    | Reject                      // toast "End time must be after start time."
    | Save(id: string, startTime: Instant, endTime: Option<Instant>)

  datatype EditCall = OnSave(id: string, startTime: Instant, endTime: Option<Instant>) | OnClose

  /**
   * The checks of `handleSave`, with `parse` standing for `new Date(text)`.
   * An empty end field means an open-ended entry.
   */
  function DecideEdit(contraction: Option<Contraction>, startField: string, endField: string,
                      parse: string -> Instant): (d: EditDecision)
    ensures d.Ignore? <==> contraction.None? || startField == ""
    ensures d.Save? <==>
      contraction.Some? && startField != ""
      && (endField != "" ==> parse(endField) > parse(startField))
    ensures d.Save? ==> d.id == contraction.value.id && d.startTime == parse(startField)
    ensures d.Save? ==> (d.endTime.None? <==> endField == "")
    ensures d.Save? && d.endTime.Some? ==>
      d.endTime.value == parse(endField) && d.endTime.value > d.startTime
  {
    if contraction.None? || startField == "" then Ignore
    else
      var newStartTime := parse(startField);
      var newEndTime := if endField != "" then Some(parse(endField)) else None;
      if newEndTime.Some? && newEndTime.value <= newStartTime then Reject
      else Save(contraction.value.id, newStartTime, newEndTime)
  }

  /**
   * The text the end field is loaded with: the formatted end time, or empty
   * when the contraction has none. `format` stands for the date formatter,
   * whose text for an instant is never empty.
   */
  function EndFieldFor(c: Contraction, format: Instant -> string): (r: string)
    requires c.endTime.Some? ==> format(c.endTime.value) != ""
    ensures r == "" <==> c.endTime.None?
    ensures c.endTime.Some? ==> r == format(c.endTime.value)
  {
    if c.endTime.Some? then format(c.endTime.value) else ""
  }

  class EditDialog {
    var startTime: string
    var endTime: string
    var calls: seq<EditCall>

    constructor ()
      ensures startTime == "" && endTime == "" && calls == []
    {
      startTime, endTime := "", "";
      calls := [];
    }

    /** The effect run when the selected contraction changes; nothing happens for none. */
    method LoadContraction(contraction: Option<Contraction>, format: Instant -> string)
      requires contraction.Some? && contraction.value.endTime.Some? ==>
        format(contraction.value.endTime.value) != ""
      modifies this
      ensures contraction.None? ==> startTime == old(startTime) && endTime == old(endTime)
      ensures contraction.Some? ==>
        startTime == format(contraction.value.startTime)
        && endTime == EndFieldFor(contraction.value, format)
        && (endTime == "" <==> contraction.value.endTime.None?)
      ensures calls == old(calls)
    {
      if contraction.Some? {
        startTime := format(contraction.value.startTime);
        endTime := EndFieldFor(contraction.value, format);
      }
    }

    /**
     * Validates the form. Only an accepted save calls back: `onSave` with the
     * contraction's own id, then `onClose`. The fields are left as they are.
     */
    method HandleSave(contraction: Option<Contraction>, parse: string -> Instant)
      returns (d: EditDecision)
      modifies this
      ensures d == DecideEdit(contraction, old(startTime), old(endTime), parse)
      ensures startTime == old(startTime) && endTime == old(endTime)
      ensures d.Save? ==> calls == old(calls) + [OnSave(d.id, d.startTime, d.endTime), OnClose]
      ensures !d.Save? ==> calls == old(calls)
    {
      d := DecideEdit(contraction, startTime, endTime, parse);
      if d.Save? {
        calls := calls + [OnSave(d.id, d.startTime, d.endTime), OnClose];
      }
    }
  }
}
