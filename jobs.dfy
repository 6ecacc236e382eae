/** The job list's own helpers: naming the technician of a job from the
    technician list, and the "more info" dialog that shows a job's
    assignment and saves a new one. */
module Jobs {
  import opened Values
  import opened Fields
  import opened Calendar
  import opened ScheduleCodec
  import opened Assignment
  import Buckets

  // ---------------------------------------------------------------- technicians

  /** `tech.technicianId ?? tech.TechnicianId ?? tech.id` */
  function TechnicianId(tech: Record): (r: Option<Value>)
    ensures !Nullish(Lookup(tech, "technicianId")) ==> r == Lookup(tech, "technicianId")
    ensures Nullish(Lookup(tech, "technicianId")) ==>
              (!Nullish(Lookup(tech, "TechnicianId")) ==> r == Lookup(tech, "TechnicianId"))
              && (Nullish(Lookup(tech, "TechnicianId")) ==> r == Lookup(tech, "id"))
  {
    var keys := ["technicianId", "TechnicianId"];
    assert keys[0] == "technicianId" && keys[1] == "TechnicianId";
    Coalesce(tech, keys, Lookup(tech, "id"))
  }

  /** Template-literal interpolation `${x}`, where `undefined` prints as such. */
  function Interpolate(x: Option<Value>): string {
    if x.None? then "undefined" else Text(x.value)
  }

  /** The keys `getTechnicianName` tries, in order. */
  const NameKeys: seq<string> := ["name", "Name", "fullName", "FullName"]

  /** `tech.name ?? tech.Name ?? tech.fullName ?? tech.FullName ?? `Tech ${id}``:
      never null, and the generated label when every name is null or missing. */
  function TechnicianName(tech: Record): (r: Value)
    ensures r != Null
    ensures (forall i :: 0 <= i < |NameKeys| ==> Nullish(Lookup(tech, NameKeys[i])))
              ==> r == Str("Tech " + Interpolate(TechnicianId(tech)))
    ensures !Nullish(Lookup(tech, "name")) ==> r == tech["name"]
  {
    Coalesce(tech, NameKeys, Some(Str("Tech " + Interpolate(TechnicianId(tech))))).value
  }

  /** `Number(getTechnicianId(tech)) === id` */
  predicate HasId(tech: Record, id: int) {
    ToNumber(TechnicianId(tech)) == Some(id)
  }

  /** The position `technicians.find` stops at: the first technician with
      the id, or the length of the list. */
  function FirstWithId(techs: seq<Record>, id: int): (i: int)
    ensures 0 <= i <= |techs|
    ensures forall j :: 0 <= j < i ==> !HasId(techs[j], id)
    ensures i < |techs| ==> HasId(techs[i], id)
  {
    if techs == [] || HasId(techs[0], id) then 0
    else
      var i := FirstWithId(techs[1..], id);
      assert forall j :: 1 <= j < i + 1 ==> techs[j] == techs[1..][j - 1];
      i + 1
  }

  /** `findTechnicianName(assignedId)`; `None` stands for NaN. A NaN or zero
      id is unassigned, and an id no technician has is named by the id. */
  function FindTechnicianName(techs: seq<Record>, assignedId: Option<int>): (r: Value)
    ensures r != Null
    ensures assignedId.None? || assignedId == Some(0) ==> r == Str("Unassigned")
    ensures (assignedId.Some? && assignedId.value != 0 && forall k :: 0 <= k < |techs| ==> !HasId(techs[k], assignedId.value))
              ==> r == Str("Technician #" + IntText(assignedId.value))
  {
    if assignedId.None? || assignedId.value == 0 then Str("Unassigned")
    else
      var i := FirstWithId(techs, assignedId.value);
      if i < |techs| then TechnicianName(techs[i]) else Str("Technician #" + IntText(assignedId.value))
  }

  /** A non-zero id is named after the first technician in the list that has it. */
  lemma FindsFirstTechnician(techs: seq<Record>, id: int, k: int)
    requires id != 0 && 0 <= k < |techs| && HasId(techs[k], id)
    requires forall j :: 0 <= j < k ==> !HasId(techs[j], id)
    ensures FindTechnicianName(techs, Some(id)) == TechnicianName(techs[k])
  {
    var i := FirstWithId(techs, id);
    assert i == k;
  }

  /** The technician line of a job card: the job's assigned id, read with
      `Number(getField(job, [...], 0))`, named from the list. */
  function CardTechnician(job: Record, techs: seq<Record>): (r: Value)
    ensures r != Null
    ensures var id := ToNumber(Some(GetField(job, AssignedKeys, Num(0))));
            id.None? || id == Some(0) ==> r == Str("Unassigned")
  {
    FindTechnicianName(techs, ToNumber(Some(GetField(job, AssignedKeys, Num(0)))))
  }

  /** A job without an assigned technician shows "Unassigned". */
  lemma UnassignedCard(job: Record, techs: seq<Record>)
    requires forall i :: 0 <= i < |AssignedKeys| ==> !Present(job, AssignedKeys[i])
    ensures CardTechnician(job, techs) == Str("Unassigned")
  {
    assert GetField(job, AssignedKeys, Num(0)) == Num(0);
  }

  // ---------------------------------------------------------------- the dialog

  /** The candidate keys of a job's id. */
  const JobIdKeys: seq<string> := ["JobId", "jobId"]

  /** `Number(getField(job, ["JobId", "jobId"], 0))`; `None` stands for NaN. */
  function JobId(job: Record): (r: Option<int>)
    ensures (forall i :: 0 <= i < |JobIdKeys| ==> !Present(job, JobIdKeys[i])) ==> r == Some(0)
    ensures Present(job, JobIdKeys[0]) ==> r == ToNumber(Some(job[JobIdKeys[0]]))
    ensures forall i :: 0 <= i < |JobIdKeys| && Present(job, JobIdKeys[i]) && (forall j :: 0 <= j < i ==> !Present(job, JobIdKeys[j]))
              ==> r == ToNumber(Some(job[JobIdKeys[i]]))
  {
    GetFieldFirstOrNone(job, JobIdKeys, Num(0));
    forall i | 0 <= i < |JobIdKeys| && Present(job, JobIdKeys[i]) && (forall j :: 0 <= j < i ==> !Present(job, JobIdKeys[j]))
      ensures GetField(job, JobIdKeys, Num(0)) == job[JobIdKeys[i]]
    {
      GetFieldAt(job, JobIdKeys, Num(0), i);
    }
    ToNumber(Some(GetField(job, JobIdKeys, Num(0))))
  }

  /** The technician the dialog preselects for a job. */
  function JobSelection(job: Record): string {
    Selection(GetField(job, AssignedKeys, Num(0)))
  }

  /** The picker fields the dialog fills in for a job. */
  function JobSchedule(job: Record, parse: DateParser): Schedule12 {
    ParseScheduleTo12H(GetField(job, Buckets.ScheduleKeys, Str("")), parse)
  }

  /** `{ ...job, AssignedTechnicianId: selection ? Number(selection) : 0, ScheduledOn }` */
  function Assigned(job: Record, selection: string, scheduledOn: string): (r: Record)
    ensures r.Keys == job.Keys + {"AssignedTechnicianId", "ScheduledOn"}
    ensures forall k :: k in job && k != "AssignedTechnicianId" && k != "ScheduledOn" ==> r[k] == job[k]
    ensures r["AssignedTechnicianId"] == StoredTechnician(selection) && r["ScheduledOn"] == Str(scheduledOn)
  {
    job["AssignedTechnicianId" := StoredTechnician(selection)]["ScheduledOn" := Str(scheduledOn)]
  }

  /** The "more info" dialog of the job list. */
  class JobPanel {
    /** `selectedJob`; `None` while the dialog is closed. */
    var selectedJob: Option<Record>
    /** `assignTechId`: the selected technician's id as text, "" for none. */
    var assignTechId: string
    /** `assignScheduleDate`, `assignScheduleHour`, `assignScheduleMinute`, `assignSchedulePeriod` */
    var schedule: Schedule12

    constructor ()
      ensures selectedJob == None && assignTechId == "" && schedule == Blank12
    {
      selectedJob := None;
      assignTechId := "";
      schedule := Blank12;
    }

    /** `openMoreInfo(job)`: the dialog shows the job, its positive assigned
        technician id or none, and its schedule in picker form. */
    method OpenMoreInfo(job: Record, parse: DateParser)
      modifies this
      ensures selectedJob == Some(job)
      ensures assignTechId == JobSelection(job) && schedule == JobSchedule(job, parse)
    {
      var selection, fields := JobSelection(job), JobSchedule(job, parse);
      Show(job, selection, fields);
    }

    /** Shows a job with a selection and picker fields. */
    method Show(job: Record, selection: string, fields: Schedule12)
      modifies this
      ensures selectedJob == Some(job) && assignTechId == selection && schedule == fields
    {
      selectedJob := Some(job);
      assignTechId := selection;
      schedule := fields;
    }

    /** Replaces the open job, leaving the picker state as it was. */
    method Store(job: Record)
      modifies this
      ensures selectedJob == Some(job)
      ensures assignTechId == old(assignTechId) && schedule == old(schedule)
    {
      selectedJob := Some(job);
    }

    /** `saveAssignment()`: posts the assignment unless no job is open, its
        id is NaN or 0, or the picker fields give no moment; when the server
        accepts it, the open job gets the new technician and schedule and
        keeps every other field. The picker state is left as it was. */
    method SaveAssignment(accepted: bool) returns (request: Option<Submission>)
      modifies this
      ensures old(selectedJob).None? ==> request.None?
      ensures old(selectedJob).Some? ==> request == SubmissionFor(JobId(old(selectedJob).value), old(assignTechId), old(schedule))
      ensures request.Some? && accepted ==>
                selectedJob == Some(Assigned(old(selectedJob).value, old(assignTechId), request.value.scheduledOn))
      ensures !(request.Some? && accepted) ==> selectedJob == old(selectedJob)
      ensures assignTechId == old(assignTechId) && schedule == old(schedule)
    {
      var open, selection, s := selectedJob, assignTechId, schedule;
      if open.None? {
        return None;
      }
      var job := open.value;
      var jobId := JobId(job);
      if jobId.None? || jobId.value == 0 {
        return None;
      }
      var built := BuildScheduleIso(s.date, s.hour, s.minute, s.period);
      if !built.Scheduled? {
        return None;
      }
      var scheduledOn := IsoString(built.at);
      request := Some(Submission(jobId.value, RequestTechnician(selection), scheduledOn));
      if accepted {
        var saved := Assigned(job, selection, scheduledOn);
        Store(saved);
      }
    }
  }

  // ---------------------------------------------------------------- properties

  /** A record that stores the technician of a selection reads back as that
      selection. */
  lemma StoredTechnicianReadsBack(rec: Record, previous: Value)
    requires "AssignedTechnicianId" in rec && rec["AssignedTechnicianId"] == StoredTechnician(Selection(previous))
    ensures Selection(GetField(rec, AssignedKeys, Num(0))) == Selection(previous)
  {
    NonStringPresent(rec, AssignedKeys[0]);
    GetFieldFirst(rec, AssignedKeys, Num(0));
    StoredSelectionRoundTrip(previous);
  }

  /** Reopening the dialog on a job saved from well-formed picker fields shows
      the same technician and the same picker fields, provided the date
      parser reads ISO text back. */
  lemma SaveThenReopen(job: Record, previous: Value, s: Schedule12, parse: DateParser)
    requires ReadsIso(parse)
    requires ParseDate(s.date).Some? && ParseDate(s.date).value.year >= 1000
    requires |s.hour| == 2 && AllDigits(s.hour) && 1 <= DigitsValue(s.hour) <= 12
    requires |s.minute| == 2 && AllDigits(s.minute) && DigitsValue(s.minute) < 60
    ensures ScheduleFor(s).Scheduled?
    ensures var saved := Assigned(job, Selection(previous), IsoString(ScheduleFor(s).at));
            JobSelection(saved) == Selection(previous) && JobSchedule(saved, parse) == s
  {
    DecodeEncode(s);
    var at := ScheduleFor(s).at;
    var saved := Assigned(job, Selection(previous), IsoString(at));
    StoredTechnicianReadsBack(saved, previous);
    StoredScheduleReadsBack(saved, at, parse);
  }
}
