/** The lead list's "convert to job" popup: it opens prefilled from a lead
    and posts a job for that lead with the chosen technician and schedule. */
module Leads {
  import opened Values
  import opened Fields
  import opened Calendar
  import opened ScheduleCodec
  import opened Assignment
  import Buckets

  /** The candidate keys of a lead's id. */
  const LeadIdKeys: seq<string> := ["LeadId", "leadId"]

  /** `Number(getField(lead, ["LeadId", "leadId"], 0))`; `None` stands for NaN. */
  function LeadId(lead: Record): (r: Option<int>)
    ensures (forall i :: 0 <= i < |LeadIdKeys| ==> !Present(lead, LeadIdKeys[i])) ==> r == Some(0)
    ensures Present(lead, LeadIdKeys[0]) ==> r == ToNumber(Some(lead[LeadIdKeys[0]]))
    ensures forall i :: 0 <= i < |LeadIdKeys| && Present(lead, LeadIdKeys[i]) && (forall j :: 0 <= j < i ==> !Present(lead, LeadIdKeys[j]))
              ==> r == ToNumber(Some(lead[LeadIdKeys[i]]))
  {
    GetFieldFirstOrNone(lead, LeadIdKeys, Num(0));
    forall i | 0 <= i < |LeadIdKeys| && Present(lead, LeadIdKeys[i]) && (forall j :: 0 <= j < i ==> !Present(lead, LeadIdKeys[j]))
      ensures GetField(lead, LeadIdKeys, Num(0)) == lead[LeadIdKeys[i]]
    {
      GetFieldAt(lead, LeadIdKeys, Num(0), i);
    }
    ToNumber(Some(GetField(lead, LeadIdKeys, Num(0))))
  }

  /** The technician selection a lead prefills: its positive assigned id as
      text, or "" for none. */
  function LeadSelection(lead: Record): (r: string)
    ensures r != "" ==> StringToNumber(r).Some? && StringToNumber(r).value > 0
    ensures (forall i :: 0 <= i < |AssignedKeys| ==> !Present(lead, AssignedKeys[i])) ==> r == ""
  {
    GetFieldFirstOrNone(lead, AssignedKeys, Str(""));
    Selection(GetField(lead, AssignedKeys, Str("")))
  }

  /** The picker fields a lead prefills from its stored schedule. */
  function LeadSchedule(lead: Record, parse: DateParser): Schedule12 {
    ParseScheduleTo12H(GetField(lead, Buckets.ScheduleKeys, Str("")), parse)
  }

  /** The popup's state. */
  class ConvertPopup {
    /** `showConvertPopup` */
    var visible: bool
    /** `convertLeadId`; `None` stands for NaN. */
    var leadId: Option<int>
    /** `convertTechId`: the selected technician's id as text, "" for none. */
    var techId: string
    /** `convertScheduleDate`, `convertScheduleHour`, `convertScheduleMinute`, `convertSchedulePeriod` */
    var schedule: Schedule12

    /** The popup in its reset state: hidden, lead 0, no technician, blank fields. */
    predicate Cleared()
      reads this
    {
      !visible && leadId == Some(0) && techId == "" && schedule == Blank12
    }

    constructor ()
      ensures Cleared()
    {
      visible := false;
      leadId := Some(0);
      techId := "";
      schedule := Blank12;
    }

    /** `openConvertPopup(lead)`: the popup shows, holding the lead's id, its
        positive assigned technician id or none, and its schedule in picker form. */
    method OpenConvertPopup(lead: Record, parse: DateParser)
      modifies this
      ensures visible && leadId == LeadId(lead)
      ensures techId == LeadSelection(lead) && schedule == LeadSchedule(lead, parse)
    {
      var id, selection, fields := LeadId(lead), LeadSelection(lead), LeadSchedule(lead, parse);
      Show(id, selection, fields);
    }

    /** Shows the popup holding a lead id, a selection and picker fields. */
    method Show(id: Option<int>, selection: string, fields: Schedule12)
      modifies this
      ensures visible && leadId == id && techId == selection && schedule == fields
    {
      leadId := id;
      techId := selection;
      schedule := fields;
      visible := true;
    }

    /** The reset after a job was created: hidden, lead 0, no technician,
        blank fields. */
    method Reset()
      modifies this
      ensures Cleared()
    {
      visible := false;
      leadId := Some(0);
      techId := "";
      schedule := Blank12;
    }

    /** `createJobFromLead()`: posts the new job unless the lead id is NaN or
        0 or the picker fields give no moment; when the server accepts it,
        the popup closes and is cleared. Otherwise nothing changes. */
    method CreateJobFromLead(accepted: bool) returns (request: Option<Submission>)
      modifies this
      ensures request == SubmissionFor(old(leadId), old(techId), old(schedule))
      ensures request.Some? && accepted ==> Cleared()
      ensures !(request.Some? && accepted) ==>
                visible == old(visible) && leadId == old(leadId) && techId == old(techId) && schedule == old(schedule)
    {
      var id, selection, s := leadId, techId, schedule;
      if id.None? || id.value == 0 {
        return None;
      }
      var built := BuildScheduleIso(s.date, s.hour, s.minute, s.period);
      if !built.Scheduled? {
        return None;
      }
      request := Some(Submission(id.value, RequestTechnician(selection), IsoString(built.at)));
      if accepted {
        Reset();
      }
    }
  }

  // ---------------------------------------------------------------- properties

  /** Once a job has been created the popup is cleared, and pressing create
      again posts nothing. */
  lemma ClearedSendsNothing()
    ensures SubmissionFor(Some(0), "", Blank12) == None
  {
  }

  /** Converting a lead without touching the popup posts the lead's own id,
      its technician and its stored schedule: a lead whose `ScheduledOn` is
      the ISO text of a moment with a four-digit year is converted at that
      same moment, provided the date parser reads ISO text back. */
  lemma PrefilledConversion(lead: Record, n: int, dt: DateTime, parse: DateParser)
    requires LeadId(lead) == Some(n) && n != 0
    requires ReadsIso(parse) && ValidDateTime(dt) && 1000 <= dt.date.year <= 9999
    requires "ScheduledOn" in lead && lead["ScheduledOn"] == Str(IsoString(dt))
    ensures SubmissionFor(LeadId(lead), LeadSelection(lead), LeadSchedule(lead, parse))
              == Some(Submission(n, RequestTechnician(LeadSelection(lead)), IsoString(dt)))
  {
    StoredScheduleReadsBack(lead, dt, parse);
    EncodeDecode(dt);
  }
}
