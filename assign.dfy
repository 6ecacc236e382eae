/** The technician selection shared by the job dialog and the convert-lead
    popup: the assigned id read from a record becomes the text value of a
    `<select>`, and the selected text becomes the number sent to the server
    or stored back in the record. */
module Assignment {
  import opened Values
  import opened Fields
  import opened Calendar
  import opened ScheduleCodec
  import Buckets

  /** The candidate keys of the assigned technician's id. */
  const AssignedKeys: seq<string> := ["AssignedTechnicianId", "assignedTechnicianId"]

  /** `Number.isFinite(n) && n > 0 ? String(n) : ""` for `n = Number(v)`:
      the selection is the decimal text of a positive id, or "" for none. */
  function Selection(v: Value): (r: string)
    ensures r == "" <==> !(ToNumber(Some(v)).Some? && ToNumber(Some(v)).value > 0)
    ensures r != "" ==> StringToNumber(r) == ToNumber(Some(v))
  {
    var n := ToNumber(Some(v));
    if n.Some? && n.value > 0 then
      StringToNumberOfIntText(n.value);
      IntText(n.value)
    else ""
  }

  /** `selection ? Number(selection) : null`: the id sent with a request. */
  function RequestTechnician(selection: string): (r: Value)
    ensures r == Null <==> selection == ""
    ensures r != Null ==> r.Num? || r.NaN?
  {
    if selection == "" then Null else NumberValue(StringToNumber(selection))
  }

  /** `selection ? Number(selection) : 0`: the id stored back in a record. */
  function StoredTechnician(selection: string): (r: Value)
    ensures r.Num? || r.NaN?
    ensures selection == "" ==> r == Num(0)
  {
    if selection == "" then Num(0) else NumberValue(StringToNumber(selection))
  }

  /** A selection taken from a record sends the record's positive id, or
      null, and stores that id, or 0. */
  lemma SelectionSent(v: Value)
    ensures var n := ToNumber(Some(v));
            && RequestTechnician(Selection(v)) == (if n.Some? && n.value > 0 then Num(n.value) else Null)
            && StoredTechnician(Selection(v)) == (if n.Some? && n.value > 0 then Num(n.value) else Num(0))
  {
  }

  /** Storing a selection and reading it back gives the same selection. */
  lemma StoredSelectionRoundTrip(v: Value)
    ensures Selection(StoredTechnician(Selection(v))) == Selection(v)
  {
    SelectionSent(v);
  }

  // ---------------------------------------------------------------- the request

  /** The body posted to assign a job or to create one from a lead:
      `{ JobId | LeadId, TechnicianId, ScheduledOn }`. */
  datatype Submission = Submission(id: int, technician: Value, scheduledOn: string)

  /** What saving the dialog posts: nothing when the id is NaN or 0, or when
      `buildScheduleIso` gives null or throws; otherwise the id, the selected
      technician or null, and the ISO text of the chosen moment. */
  function SubmissionFor(id: Option<int>, selection: string, s: Schedule12): (r: Option<Submission>)
    ensures r.Some? <==> id.Some? && id.value != 0 && ScheduleFor(s).Scheduled?
    ensures r.Some? ==> r.value.id == id.value && r.value.technician == RequestTechnician(selection)
    ensures r.Some? ==> r.value.scheduledOn == IsoString(ScheduleFor(s).at)
  {
    if id.None? || id.value == 0 then None
    else
      match ScheduleFor(s)
      case Scheduled(at) => Some(Submission(id.value, RequestTechnician(selection), IsoString(at)))
      case _ => None
  }

  /** Empty picker fields never produce a request. */
  lemma BlankScheduleSendsNothing(id: Option<int>, selection: string)
    ensures SubmissionFor(id, selection, Blank12) == None
  {
    NoScheduleIff(Blank12);
  }

  /** A record that stores the ISO text of a moment with a four-digit year
      under `ScheduledOn` reads back, through `getField` and
      `parseScheduleTo12H`, as the picker fields of that moment. */
  lemma StoredScheduleReadsBack(rec: Record, dt: DateTime, parse: DateParser)
    requires ReadsIso(parse) && ValidDateTime(dt) && 1000 <= dt.date.year <= 9999
    requires "ScheduledOn" in rec && rec["ScheduledOn"] == Str(IsoString(dt))
    ensures ParseScheduleTo12H(GetField(rec, Buckets.ScheduleKeys, Str("")), parse) == FieldsOf(dt)
  {
    IsoNotBlank(dt);
    Buckets.StoredTextReadsBack(rec, IsoString(dt));
    DecodeIso(dt, parse);
  }
}
