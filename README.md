# Field-service console: list, scheduling and sign-in logic in Dafny

This project models the client-side logic of a field-service management
console (a React front end over a REST API). It proves properties of that model.

- **Lead list and job list.** Each list reads API records whose field names
  vary in case (`getField`). It classifies statuses into colour variants
  (`getStatusVariant`) and filters records by a search box (`matchesSearch`).
  It shows them ten at a time (`visibleCount`, `loadMore`, `hasMore`). It
  groups them into eight schedule buckets relative to today: Today, Tomorrow,
  This Week, This Month, Next Month, Later, Earlier and Unscheduled
  (`groupLeadsBySchedule` / `groupBySchedule`).
- **Schedule pickers.** A stored ISO timestamp becomes a date, a 12-hour hour,
  a minute and AM/PM (`parseScheduleTo12H`). The picker fields become the
  ISO timestamp posted to the server (`buildScheduleIso`).
- **Job dialog and lead conversion.** The job list's "more info" dialog
  shows a job's technician and schedule (`openMoreInfo`) and saves a new
  assignment (`saveAssignment`). The lead list's popup converts a lead into
  a job (`openConvertPopup`, `createJobFromLead`). The technician of a job
  card is named from the technician list (`findTechnicianName`).
- **Map links.** The latitude and longitude are extracted from a Google Maps
  link (`extractLatLng`).
- **Sign-in form.** It has a mobile number and a four-slot PIN
  (`handlePinChange`, `handleLogin`).

Module by module:

- **Values**:
  - the JavaScript values a record holds
  - `String.prototype.trim` (ECMAScript white space)
  - ASCII lower-casing
  - `includes`, `join`
  - `String(n)`
  - `Number(text)` for integer text
- **Fields**: `getField` and the `??` chains.
- **Calendar**:
  - proleptic Gregorian dates and `addDays`
  - `getDay`, by Sakamoto's method, with Sunday as 0
  - `new Date(y, m, 1)` with month overflow
  - `setHours` with carry
  - the `YYYY-MM-DD` date format
- **ScheduleCodec**: the picker codec and `toISOString`.
- **Status**: the two status rule lists.
- **Search**: the search box.
- **Buckets**: the schedule bucketer.
- **Paging**: fetch normalisation, filtering and the paging window. The
  state of one list screen is the class `PagedList`.
- **Assignment**: the technician selection and the request shared by both
  lists.
- **Jobs**: the technician names and the dialog (class `JobPanel`).
- **Leads**: the convert popup (class `ConvertPopup`).
- **MapLink**: the coordinate extractor.
- **Login**: the sign-in form (class `LoginForm`).

The lead list and the job list each define their own copies of `getField`,
`parseScheduleTo12H`, `buildScheduleIso`, the date helpers and the bucketer.
The copies are written alike, so each is modelled once and cited at the
lead list. The two `getStatusVariant` copies and the two `matchesSearch`
copies differ, so each has its own rule list or field list.

A date that does not parse: `buildScheduleIso` then calls `toISOString()`
on an Invalid Date, which throws (`ScheduleCodec.Throws`). The callers'
`async` handlers end there, so the model treats the throw as "nothing is
posted and nothing changes".

## Model

| member | source | states |
|---|---|---|
| Values.TrimEmptyIffBlank | src/features/leads/LeadsList.tsx:34 | `trim()` gives "" exactly when every character is ECMAScript white space |
| Values.TextBlankOnlyForStrings | src/features/leads/LeadsList.tsx:34 | the text of null, a boolean, a number or NaN is never blank, so only strings can fail the presence test beyond null |
| Values.ContainsIff | src/features/leads/LeadsList.tsx:158 | `includes` holds exactly when the needle occurs at some index (both directions) |
| Values.ContainsTrans | src/features/jobs/JobsList.tsx:56 | a text containing a word contains every infix of that word |
| Values.StringToNumberOfIntText | src/features/leads/LeadsList.tsx:356 | `Number(String(n))` is `n` for every integer |
| Values.LowerNoUpper | src/features/leads/LeadsList.tsx:158 | the lower-cased text holds no ASCII capital |
| Values.TrimUnspaced | src/features/leads/LeadsList.tsx:365 | text that neither starts nor ends with white space trims to itself |
| Fields.GetField | src/features/leads/LeadsList.tsx:32-39 | the value under the first candidate key that is present (not undefined, null or blank); the fallback only when no key is present; so the result is the fallback or a present value |
| Fields.NonStringPresent | src/features/leads/LeadsList.tsx:34 | a non-null value that is not a string always passes the presence test |
| Fields.GetFieldFirst | src/features/leads/LeadsList.tsx:33-35 | when the first candidate key is present its value is returned |
| Fields.GetFieldAt | src/features/leads/LeadsList.tsx:32-39 | when key i is the first present candidate, `getField` returns its value |
| Fields.GetFieldFirstOrNone | src/features/leads/LeadsList.tsx:32-39 | with no candidate key present the fallback is returned; with the first one present, its value |
| Fields.Coalesce | src/features/jobs/JobsList.tsx:194-196 | `a ?? b ?? …`: the first operand that is neither null nor undefined, else the last; a non-nullish last operand gives a non-nullish result |
| Calendar.NextDay | src/features/leads/LeadsList.tsx:128-132 | the next day is a valid date after the given one |
| Calendar.NextDayImmediate | src/features/leads/LeadsList.tsx:128-132 | no valid date lies strictly between a day and the next |
| Calendar.AddDays | src/features/leads/LeadsList.tsx:128-132 | `addDays(d, n)` is a valid date, later for n > 0 and earlier for n < 0 |
| Calendar.AddDaysAdd | src/features/leads/LeadsList.tsx:128-132 | adding m days and then n days is adding m + n days |
| Calendar.BetweenIsOffset | src/features/leads/LeadsList.tsx:128-132 | every valid date from d up to (not including) `addDays(d, k)` is `addDays(d, j)` for some j < k |
| Calendar.Weekday | src/features/leads/LeadsList.tsx:165 | `getDay()` lies in 0..6 |
| Calendar.WeekdayAnchor | src/features/leads/LeadsList.tsx:165 | 1 January 1970 is a Thursday (4); 9 June 2024 a Sunday (0) and 15 June 2024 a Saturday (6) |
| Calendar.WeekdayWithinWeek | src/features/leads/LeadsList.tsx:165-166 | a day within the k days from d, with weekday(d) + k <= 6, has a weekday below weekday(d) + k |
| Calendar.WeekdayNextDay | src/features/leads/LeadsList.tsx:165 | the weekday advances by one, modulo 7, from each day to the next |
| Calendar.WeekdayAddDays | src/features/leads/LeadsList.tsx:165-166 | n days on, the weekday has advanced by n modulo 7 |
| Calendar.MonthStart | src/features/leads/LeadsList.tsx:167-168 | `new Date(y, m, 1)` with an overflowing month index is a valid first of a month |
| Calendar.MonthStartNext | src/features/leads/LeadsList.tsx:167 | `new Date(y, month + 1, 1)` is the first of the next month, rolling December into January |
| Calendar.MonthStartAfterNext | src/features/leads/LeadsList.tsx:168 | `new Date(y, month + 2, 1)` is the first of the month after next, across the year end |
| Calendar.SetTime | src/features/leads/LeadsList.tsx:122 | `setHours(h, m, 0, 0)` on a midnight gives a valid moment, exactly (date, h, m) when h and m are in range |
| Calendar.ParseDate | src/features/leads/LeadsList.tsx:121 | a date text that parses denotes a valid date with a year of at most four digits |
| Calendar.ParseFormatDate | src/features/leads/LeadsList.tsx:95-98 | a date with a four-digit year, formatted as `${yyyy}-${mm}-${dd}`, parses back to itself |
| Calendar.FormatParsedDate | src/features/leads/LeadsList.tsx:121 | a parsed date with a four-digit year formats back to the same text |
| Calendar.ShortYearUnparsable | src/features/leads/LeadsList.tsx:95-98 | a year below 1000 is written without padding and the result does not parse |
| ScheduleCodec.To12 | src/features/leads/LeadsList.tsx:101 | the 12-hour clock hour lies in 1..12 |
| ScheduleCodec.To24 | src/features/leads/LeadsList.tsx:113-120 | `hour12 % 12`, plus 12 for PM, lies in 0..23 |
| ScheduleCodec.HourRoundTrip24 | src/features/leads/LeadsList.tsx:100-101 | 24-hour to (12-hour, period) and back is the identity on 0..23 |
| ScheduleCodec.HourRoundTrip12 | src/features/leads/LeadsList.tsx:113-120 | (12-hour, period) to 24-hour and back is the identity on 1..12 × {AM, PM} |
| ScheduleCodec.FieldsOfShape | src/features/leads/LeadsList.tsx:95-106 | the picker fields of a moment: its formatted date, a two-digit hour 01..12 that with the period gives the hour back, and the two-digit minute |
| ScheduleCodec.ParseScheduleTo12H | src/features/leads/LeadsList.tsx:87-107 | blank fields for a non-string, an empty string or an Invalid Date; otherwise the picker fields of the parsed moment |
| ScheduleCodec.ScheduleFor | src/features/leads/LeadsList.tsx:109-124 | a moment it produces is a valid date and time |
| ScheduleCodec.BuildScheduleIso | src/features/leads/LeadsList.tsx:109-124 | the method's result is the one the picker fields specify (null, a moment, or a throw) |
| ScheduleCodec.NoScheduleIff | src/features/leads/LeadsList.tsx:110-116 | null exactly when a field is empty or the hour is not a number in 1..12 |
| ScheduleCodec.ScheduledOnChosenDay | src/features/leads/LeadsList.tsx:121-122 | with a minute in 0..59 the moment is on the chosen date at the chosen hour and minute |
| ScheduleCodec.ScheduleForWellFormed | src/features/leads/LeadsList.tsx:109-124 | a parsable date, an hour reading 1..12 and a minute reading 0..59 give exactly that moment |
| ScheduleCodec.ScheduleForBadDate | src/features/leads/LeadsList.tsx:121-123 | filled fields with an accepted hour and a date that does not parse make `toISOString` throw |
| ScheduleCodec.EncodeDecode | src/features/leads/LeadsList.tsx:87-124 | picker fields of a moment with a four-digit year build that same moment |
| ScheduleCodec.DecodeEncode | src/features/leads/LeadsList.tsx:87-124 | well-formed picker fields build a moment on their date whose picker fields are the fields again |
| ScheduleCodec.ShortYearDoesNotRoundTrip | src/features/leads/LeadsList.tsx:95-123 | a moment in a year below 1000 decodes to fields that make the builder throw |
| ScheduleCodec.IsoString | src/features/leads/LeadsList.tsx:123 | `toISOString()` text: at least 24 characters ending in `:00.000Z` (zero seconds and milliseconds, UTC) |
| ScheduleCodec.IsoStartsWithDate | src/features/leads/LeadsList.tsx:123 | for a four-digit year the ISO text starts with the picker's date text |
| ScheduleCodec.IsoNotBlank | src/features/leads/LeadsList.tsx:123 | the ISO text is never blank, so a stored schedule is always present |
| ScheduleCodec.DecodeIso | src/features/leads/LeadsList.tsx:87-107 | the ISO text of a moment decodes to that moment's picker fields, for a parser that reads ISO text back |
| Status.StatusText | src/features/leads/LeadsList.tsx:61 | "" for a falsy status; otherwise the status text lower-cased character by character, of the same length; no ASCII capital either way |
| Status.Classify | src/features/leads/LeadsList.tsx:60-78 | the variant of the first rule that fires on the lower-cased status text; `Default` when none fires |
| Status.ClassifyIgnoresCase | src/features/leads/LeadsList.tsx:61 | a status and its lower-cased form classify alike |
| Status.FirstRule | src/features/leads/LeadsList.tsx:60-78 | the variant of the first rule whose word occurs, `Default` when none does |
| Status.FalsyIsDefault | src/features/leads/LeadsList.tsx:61 | a falsy status is `default` in both lists |
| Status.CancelWins | src/features/leads/LeadsList.tsx:62-64 | a status naming "cancel" is cancelled in both lists, whatever else it names |
| Status.LeadFiring | src/features/leads/LeadsList.tsx:62-76 | each lead rule fires exactly when one of its words occurs |
| Status.JobFiring | src/features/jobs/JobsList.tsx:54-58 | each job rule fires exactly when one of its words occurs |
| Status.RulesFireAlike | src/features/jobs/JobsList.tsx:52-60 | outside "converted", "closed" and "assign" the two lists fire alike rule by rule |
| Status.ListsAgreeOutsideDifferences | src/features/jobs/JobsList.tsx:52-60 | the two classifiers agree on every status naming none of "converted", "closed", "assign" |
| Status.LeadConvertedIsCompleted | src/features/leads/LeadsList.tsx:65-67 | a lead status naming "converted" and not "cancel" is completed |
| Status.JobClosedIsCompleted | src/features/jobs/JobsList.tsx:55 | a job status naming "closed" and not "cancel" is completed |
| Status.JobAssignIsProgress | src/features/jobs/JobsList.tsx:56 | a job status naming "assign", and none of the earlier rules' words, is in progress |
| Status.LeadDefaultWithoutRuleWord | src/features/leads/LeadsList.tsx:60-78 | a lead status naming no rule word is `default` |
| Status.JobDefaultWithoutRuleWord | src/features/jobs/JobsList.tsx:52-60 | a job status naming no rule word is `default` |
| Status.ConvertedDiffers | src/features/leads/LeadsList.tsx:65-67 | "converted" alone is completed for a lead and `default` for a job |
| Status.AssignDiffers | src/features/jobs/JobsList.tsx:56 | "assign" without "assigned" is `default` for a lead and in progress for a job |
| Search.NormalizeSearch | src/features/leads/LeadsList.tsx:372 | the normalised term is no longer than the typed one and has no ASCII capital |
| Search.Haystack | src/features/leads/LeadsList.tsx:147-158 | the joined, lower-cased field texts hold no ASCII capital |
| Search.MatchesSearch | src/features/leads/LeadsList.tsx:143-160 | a record matches exactly when the term is empty or occurs at some index of the lower-cased, space-joined haystack; a non-empty matching term is no longer than the haystack |
| Search.FieldHitMatches | src/features/leads/LeadsList.tsx:143-159 | a term occurring in the lower-cased text of any searched field makes the record match |
| Search.NormalizeIgnoresCase | src/features/leads/LeadsList.tsx:372 | terms equal up to letter case normalise alike |
| Search.NormalizeIdempotent | src/features/leads/LeadsList.tsx:372 | normalising twice is normalising once |
| Search.NormalizeEmptyIffBlank | src/features/leads/LeadsList.tsx:372 | the normalised term is empty exactly when the typed term is blank |
| Search.NormalizedUnspaced | src/features/leads/LeadsList.tsx:372 | a non-empty normalised term does not start with white space |
| Search.BlankHaystack | src/features/leads/LeadsList.tsx:147-157 | a record with none of the searched fields has a white-space haystack |
| Search.EmptyRecordFoundOnlyByBlankSearch | src/features/leads/LeadsList.tsx:143-159 | such a record matches exactly when the typed term is blank |
| Buckets.ScheduleDate | src/features/leads/LeadsList.tsx:134-141 | a valid date; none exactly when the raw schedule is falsy, not a string, or does not parse; otherwise the parsed moment's date |
| Buckets.MissingScheduleIsUnscheduled | src/features/leads/LeadsList.tsx:134-138 | a record with no schedule field is Unscheduled |
| Buckets.StoredScheduleDay | src/features/leads/LeadsList.tsx:134-141 | non-blank text under `ScheduledOn` gives the day it parses to, or Unscheduled when it does not parse |
| Buckets.StoredTextReadsBack | src/features/jobs/JobsList.tsx:264 | non-blank text stored under `ScheduledOn` is what `getField` reads |
| Buckets.BoundsOf | src/features/leads/LeadsList.tsx:163-168 | today, a later tomorrow, a week end no earlier than today, and increasing month starts after today |
| Buckets.Place | src/features/leads/LeadsList.tsx:181-186 | Unscheduled exactly when the raw schedule is falsy, not a string, or does not parse |
| Buckets.BucketOf | src/features/leads/LeadsList.tsx:181-214 | Unscheduled exactly when there is no day, Today exactly when the day is today, Tomorrow exactly when it is tomorrow |
| Buckets.Members | src/features/leads/LeadsList.tsx:181-214 | a group never holds more records than the input |
| Buckets.GroupBySchedule | src/features/leads/LeadsList.tsx:162-218 | every group holds the records placed in it, in input order |
| Buckets.MembersStep | src/features/leads/LeadsList.tsx:181-214 | pushing one more record appends it to its own group only |
| Buckets.ConcatStep | src/features/leads/LeadsList.tsx:181-214 | one more record adds it once to the listed groups when its group is listed, not at all otherwise |
| Buckets.ConcatPartition | src/features/leads/LeadsList.tsx:181-214 | groups that take every record hold exactly the input records, each once |
| Buckets.GroupsPartitionItems | src/features/leads/LeadsList.tsx:162-218 | the eight groups together are a permutation of the input; their sizes add up to its length |
| Buckets.MembersExactly | src/features/leads/LeadsList.tsx:181-214 | a record is in group b exactly when it is an input record placed in b |
| Buckets.Positions | src/features/leads/LeadsList.tsx:181-214 | the input positions placed in b, increasing |
| Buckets.PositionsComplete | src/features/leads/LeadsList.tsx:181-214 | every input position placed in b is listed |
| Buckets.MembersInInputOrder | src/features/leads/LeadsList.tsx:181-214 | the k-th member of a group is the input record at the k-th such position |
| Buckets.ComingSaturday | src/features/leads/LeadsList.tsx:165-166 | `addDays(today, 6 - getDay())` is the coming Saturday: a Saturday no earlier than today with no Saturday from today up to it; tomorrow on a Friday, today on a Saturday |
| Buckets.WeekBounds | src/features/leads/LeadsList.tsx:163-166 | tomorrow is the next day and the week ends on the coming Saturday: no Saturday lies from today up to it |
| Buckets.MonthBounds | src/features/leads/LeadsList.tsx:167-168 | the month bounds are the firsts of the next month and of the month after |
| Buckets.NoThisWeekOnFridayOrSaturday | src/features/leads/LeadsList.tsx:195-198 | on a Friday or a Saturday nothing is placed in This Week |
| Buckets.ThisWeekBeforeSaturday | src/features/leads/LeadsList.tsx:195-198 | This Week holds days after tomorrow up to the week end, which is the coming Saturday: a Saturday with none from today up to it |
| Buckets.ThisWeekIsRestOfWeek | src/features/leads/LeadsList.tsx:195-198 | a day is in This Week exactly when it is today plus j days for some j in 2..6 - getDay() |
| Buckets.ThisWeekOffset | src/features/leads/LeadsList.tsx:195-198 | a day in This Week is today plus some j in 2..6 - getDay() |
| Buckets.OffsetInThisWeek | src/features/leads/LeadsList.tsx:195-198 | today plus j days, for j in 2..6 - getDay(), is in This Week |
| Buckets.PastDayOfThisMonth | src/features/leads/LeadsList.tsx:199-205 | a past day of the current month is in This Month, not Earlier |
| Buckets.EarlierBeforeThisMonth | src/features/leads/LeadsList.tsx:210-213 | Earlier holds only days before the first of the current month |
| Buckets.NextMonthIsNextCalendarMonth | src/features/leads/LeadsList.tsx:206-209 | Next Month holds exactly the next calendar month's days that are not tomorrow or this week |
| Buckets.LaterFromMonthAfterNext | src/features/leads/LeadsList.tsx:214 | Later holds only days from the first of the month after next |
| Paging.FirstList | src/features/leads/LeadsList.tsx:226 | the first candidate array field present, or [] when none is |
| Paging.Normalize | src/features/leads/LeadsList.tsx:226 | an array body as is, no body as [], an object body holding the first candidate key as that key's list |
| Paging.Filter | src/features/leads/LeadsList.tsx:373-376 | exactly the records the search keeps, no more records than the input |
| Paging.FilterAppend | src/features/leads/LeadsList.tsx:373-376 | the filter of two lists joined is their filters joined, so input order is kept |
| Paging.FilterKeepingAll | src/features/leads/LeadsList.tsx:374 | a filter keeping every record keeps the list unchanged |
| Paging.Window | src/features/leads/LeadsList.tsx:377-382 | a prefix of the filtered records: all of them while searching, otherwise min(count, total) of them |
| Paging.More | src/features/leads/LeadsList.tsx:385-388 | `hasMore` holds exactly when there is no search and the window hides records |
| Paging.WindowGrows | src/features/leads/LeadsList.tsx:364-370 | ten more in the count shows ten more records or all of them, extending the old window |
| Paging.PagedList.constructor | src/features/leads/LeadsList.tsx:27-29 | no records, no search, one page, not loading |
| Paging.PagedList.Visible | src/features/leads/LeadsList.tsx:377-382 | a prefix of the filtered records: all of them while searching, otherwise min(count, total) |
| Paging.PagedList.HasMore | src/features/leads/LeadsList.tsx:385-388 | offered exactly when there is no search and the window hides filtered records |
| Paging.PagedList.ShownCount | src/features/leads/LeadsList.tsx:383-384 | the shown count never exceeds the total count |
| Paging.PagedList.SetSearchTerm | src/features/leads/LeadsList.tsx:27 | the search box holds the typed term; nothing else changes |
| Paging.PagedList.StartFetch | src/features/leads/LeadsList.tsx:221 | loading starts; nothing else changes |
| Paging.PagedList.FinishFetch | src/features/leads/LeadsList.tsx:220-232 | a response replaces the records by its normalised list and resets the window to one page; a failure keeps them; loading ends |
| Paging.PagedList.LoadMore | src/features/leads/LeadsList.tsx:364-370 | nothing while loading or searching; otherwise ten more in the count and ten more records shown, or all |
| Paging.VisibleWithoutSearch | src/features/leads/LeadsList.tsx:377-382 | without a search the shown records are a prefix of the fetched ones |
| Paging.HasMoreIffHidden | src/features/leads/LeadsList.tsx:383-388 | the button is offered exactly while shown < total |
| Assignment.Selection | src/features/leads/LeadsList.tsx:353-356 | "" exactly when `Number(v)` is not a positive number; otherwise text that reads back as that number |
| Assignment.RequestTechnician | src/features/jobs/JobsList.tsx:293 | null exactly when nothing is selected; otherwise `Number(selection)`, a number or NaN |
| Assignment.StoredTechnician | src/features/jobs/JobsList.tsx:300 | always a number or NaN, never null or text; 0 when nothing is selected |
| Assignment.SelectionSent | src/features/jobs/JobsList.tsx:293-300 | a selection from a record sends its positive id or null, and stores that id or 0 |
| Assignment.StoredSelectionRoundTrip | src/features/jobs/JobsList.tsx:262-300 | storing a selection and reading it back gives the same selection |
| Assignment.SubmissionFor | src/features/leads/LeadsList.tsx:254-274 | a request exactly when the id is neither NaN nor 0 and the fields build a moment; it carries the id, the technician or null, and the moment's ISO text |
| Assignment.BlankScheduleSendsNothing | src/features/leads/LeadsList.tsx:258-267 | empty picker fields never post |
| Assignment.StoredScheduleReadsBack | src/features/jobs/JobsList.tsx:264-301 | a stored ISO schedule reads back as the picker fields of its moment |
| Jobs.TechnicianId | src/features/jobs/JobsList.tsx:194 | `technicianId` when it is set, else `TechnicianId` when set, else `id` |
| Jobs.TechnicianName | src/features/jobs/JobsList.tsx:195-196 | never null; `Tech ${id}` when every name field is nullish; the `name` field when it is set |
| Jobs.FirstWithId | src/features/jobs/JobsList.tsx:202 | `find` stops at the first technician with the id, or runs off the end |
| Jobs.FindTechnicianName | src/features/jobs/JobsList.tsx:198-204 | "Unassigned" for a NaN or 0 id; `Technician #id` when no technician has the id |
| Jobs.FindsFirstTechnician | src/features/jobs/JobsList.tsx:202-203 | an id is named after the first technician in the list that has it |
| Jobs.CardTechnician | src/features/jobs/JobsList.tsx:352 | never null; "Unassigned" when the assigned id reads as NaN or 0 |
| Jobs.JobId | src/features/jobs/JobsList.tsx:275 | 0 when no id field is present; otherwise `Number` of the first one present, `JobId` or else `jobId` |
| Jobs.UnassignedCard | src/features/jobs/JobsList.tsx:352 | a job without an assigned technician shows "Unassigned" |
| Jobs.Assigned | src/features/jobs/JobsList.tsx:296-303 | the saved job has the new technician and schedule and keeps every other field |
| Jobs.JobPanel.constructor | src/features/jobs/JobsList.tsx:12-17 | no job open, no technician, blank picker fields |
| Jobs.JobPanel.OpenMoreInfo | src/features/jobs/JobsList.tsx:260-269 | the dialog holds the job, its positive assigned id as text or "", and its schedule in picker form |
| Jobs.JobPanel.Show | src/features/jobs/JobsList.tsx:261-268 | the dialog holds exactly the given job, selection and fields |
| Jobs.JobPanel.Store | src/features/jobs/JobsList.tsx:296-304 | the open job is replaced and the picker state kept |
| Jobs.JobPanel.SaveAssignment | src/features/jobs/JobsList.tsx:271-312 | no request without an open job, or with a NaN or 0 id or no moment; otherwise the request for the dialog's state; on success the open job is updated and nothing else changes |
| Jobs.StoredTechnicianReadsBack | src/features/jobs/JobsList.tsx:262-300 | a saved job's technician reads back as the same selection |
| Jobs.SaveThenReopen | src/features/jobs/JobsList.tsx:260-312 | reopening a job saved from well-formed fields shows the same technician and the same picker fields |
| Leads.ConvertPopup.constructor | src/features/leads/LeadsList.tsx:13-19 | hidden, lead 0, no technician, blank fields |
| Leads.ConvertPopup.OpenConvertPopup | src/features/leads/LeadsList.tsx:350-362 | shown, holding the lead's id, its positive technician id as text or "", and its schedule in picker form |
| Leads.ConvertPopup.Show | src/features/leads/LeadsList.tsx:355-361 | the popup is shown holding exactly the given values |
| Leads.ConvertPopup.Reset | src/features/leads/LeadsList.tsx:275-281 | hidden, lead 0, no technician, blank fields |
| Leads.ConvertPopup.CreateJobFromLead | src/features/leads/LeadsList.tsx:254-289 | the request the popup's state specifies; on success the popup is cleared, otherwise nothing changes |
| Leads.LeadId | src/features/leads/LeadsList.tsx:351 | 0 when no id field is present; otherwise `Number` of the first one present, `LeadId` or else `leadId` |
| Leads.LeadSelection | src/features/leads/LeadsList.tsx:352-356 | "" or text reading back as a positive number; "" when no technician field is present |
| Leads.ClearedSendsNothing | src/features/leads/LeadsList.tsx:255-257 | a cleared popup posts nothing |
| Leads.PrefilledConversion | src/features/leads/LeadsList.tsx:254-274 | converting an untouched popup posts the lead's id, technician and its stored moment |
| MapLink.DigitRunDigits | src/utils/mapUtils.ts:2 | `\d+` takes digits and stops before the next digit-free character |
| MapLink.NumberEndDecimal | src/utils/mapUtils.ts:2 | what `-?\d+\.\d+` takes is an optionally signed decimal with digits on both sides of the point |
| MapLink.MatchAt | src/utils/mapUtils.ts:2 | a match found at an index starts there |
| MapLink.MatchFrom | src/utils/mapUtils.ts:3 | the match found is a match at its index; no match from i means no index from i matches |
| MapLink.MatchFromFirst | src/utils/mapUtils.ts:3 | no index between the start and the match found matches |
| MapLink.MatchFromLeftmost | src/utils/mapUtils.ts:3 | the match found is the leftmost one |
| MapLink.MatchAtOccurs | src/utils/mapUtils.ts:2 | the text holds `@`, the latitude, a comma and the longitude at the match index |
| MapLink.MatchAtDecimals | src/utils/mapUtils.ts:2 | both captures are decimals |
| MapLink.ExtractLatLng | src/utils/mapUtils.ts:1-13 | decimal captures that occur in the text as `@lat,lng`, taken from the leftmost index that matches; null only when no index matches |
| MapLink.ExtractRoundTrip | src/utils/mapUtils.ts:1-13 | a link `p@lat,lng q` with no `@` in p and q not starting with a digit yields exactly (lat, lng) |
| MapLink.DecimalHasPoint | src/utils/mapUtils.ts:2 | a decimal contains a point |
| MapLink.CoordinatesHavePoint | src/utils/mapUtils.ts:2 | a text yielding coordinates contains a point |
| MapLink.NoPointNoCoordinates | src/utils/mapUtils.ts:2 | a text without a point yields null |
| MapLink.IntegerFormRejected | src/utils/mapUtils.ts:2 | `@12,77` yields null |
| MapLink.MapLinkExample | src/utils/mapUtils.ts:1-13 | `maps/@12.97,-77.59,15z` yields ("12.97", "-77.59") |
| Login.LoginForm.constructor | src/features/auth/Login.tsx:7-8 | an empty mobile number and four empty slots |
| Login.LoginForm.SetMobile | src/features/auth/Login.tsx:63 | the mobile number is the typed value; the PIN is unchanged |
| Login.LoginForm.HandlePinChange | src/features/auth/Login.tsx:11-21 | the slot takes a value that is empty or one digit, any other value is ignored; a valid PIN stays valid |
| Login.LoginForm.HandleLogin | src/features/auth/Login.tsx:23-43 | a request exactly when the joined PIN has four characters, with the mobile number, the joined PIN and "web-device" |
| Login.PinChange | src/features/auth/Login.tsx:11-16 | the copy differs only in the slot: it takes an empty or one-digit value and keeps the old slot otherwise; a valid PIN stays valid |
| Login.JoinFour | src/features/auth/Login.tsx:24 | four slots joined with "" are the slots one after another |
| Login.FullPinIff | src/features/auth/Login.tsx:24-29 | with valid slots, the joined PIN has four characters exactly when no slot is empty |
| Login.FullPinDigits | src/features/auth/Login.tsx:24-36 | a filled PIN is posted as four digits in slot order |
| Login.EmptyPinSendsNothing | src/features/auth/Login.tsx:8 | a fresh form cannot log in |
| Login.RejectedValueKeepsPin | src/features/auth/Login.tsx:12 | a value of two or more characters leaves the PIN as it was |
| Login.ClearedSlotBlocksLogin | src/features/auth/Login.tsx:11-29 | clearing any slot blocks the login |
| Login.TypedPin | src/features/auth/Login.tsx:11-36 | typing a digit into each slot of a fresh form posts those four digits |

## Left out

- HTTP requests, `localStorage`, navigation, `alert`/`confirm` dialogs and rendering: these are I/O. The server's answer to a post is a boolean parameter (`accepted`), and a fetch result is an optional payload.
- The refetch after a successful save or conversion (`fetchJobs`, `refreshCards`): this is a second request, modelled separately by `FinishFetch`.
- Responses arriving out of order: stale fetches are not modelled.
- The `loadingJobInfo`, `savingAssignment` and `creatingJob` flags: they only disable buttons.
- The lead list's `openJobInfo` and `handleAssignTechnician`: these are fetch-and-post wrappers around the same codec and selection logic, and they are not modelled separately.
- `formatDate` and `formatCurrency`: these are display formatting through the locale, which is host behaviour.
- Time zones and daylight saving: local time is taken as UTC.
- Seconds and milliseconds: they are dropped.
- `new Date(text)`: it is a parameter (`DateParser`). The properties about stored ISO text assume a parser that reads ISO text back (`ReadsIso`). Only `${date}T00:00:00` is parsed by the model itself, as the strict `YYYY-MM-DD` form.
- `Number(text)` on fractions, exponents, hex or `Infinity`: these read as NaN. Integer text, signs, surrounding white space and "" (which reads as 0) are modelled.
- Case folding beyond ASCII: there is no Unicode table.
- `parseFloat` in `extractLatLng`: the model returns the two matched decimal texts. Floating point is left out.
- Record values other than null, booleans, integers, NaN and strings: nested objects, arrays and fractional numbers in a record are not modelled.
- Non-array values in a response's list fields: a payload object maps field names to arrays only.
- PIN focus movement (`inputsRef`, the `index < 5` test): this is UI behaviour.
- Login.LoginForm.HandlePinChange: requires an index within the PIN. The source's only caller passes the slot's own index 0..3, so writing past the end of the array is not modelled.
- Buckets.GroupBySchedule: the groups are a map from bucket to records, not the display-keyed JavaScript object. The display order is `DisplayOrder`.
- ScheduleCodec.IsoString: years outside 0..9999 use the sign-and-six-digit form, but none of the proved properties depend on that form.
- Jobs.FindTechnicianName: its own contract covers the unassigned and not-found cases. The found case is stated by `Jobs.FindsFirstTechnician`.
