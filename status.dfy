/** The status classifier `getStatusVariant`: an ordered list of substring
    rules mapping a status text to a colour variant. The lead list and the job
    list each have their own rule list. */
module Status {
  import opened Values

  datatype Variant = Cancelled | Completed | Progress | Approved | Pending | Default

  /** A rule fires when any of its needles occurs in the status text. */
  datatype Rule = Rule(needles: seq<string>, variant: Variant)

  /** The lead list's rules, in the order they are tried. */
  const LeadRules: seq<Rule> := [
    Rule(["cancel"], Cancelled),
    Rule(["complete", "converted"], Completed),
    Rule(["progress", "ongoing", "assigned"], Progress),
    Rule(["approve"], Approved),
    Rule(["pending", "new", "open"], Pending)
  ]

  /** The job list's rules: "closed" instead of "converted", "assign" instead of "assigned". */
  const JobRules: seq<Rule> := [
    Rule(["cancel"], Cancelled),
    Rule(["complete", "closed"], Completed),
    Rule(["progress", "ongoing", "assign"], Progress),
    Rule(["approve"], Approved),
    Rule(["pending", "new", "open"], Pending)
  ]

  predicate Fires(rule: Rule, text: string) {
    exists needle :: needle in rule.needles && Contains(text, needle)
  }

  /** Rule `i` is the first rule that fires. */
  predicate FirstFiringAt(rules: seq<Rule>, text: string, i: int) {
    0 <= i < |rules| && Fires(rules[i], text)
    && forall j :: 0 <= j < i ==> !Fires(rules[j], text)
  }

  /** The variant of the first rule that fires, or `Default` when none does. */
  function FirstRule(rules: seq<Rule>, text: string): (r: Variant)
    ensures forall i :: FirstFiringAt(rules, text, i) ==> r == rules[i].variant
    ensures (forall i :: 0 <= i < |rules| ==> !Fires(rules[i], text)) ==> r == Default
    decreases |rules|
  {
    if rules == [] then Default
    else if Fires(rules[0], text) then rules[0].variant
    else
      var r := FirstRule(rules[1..], text);
      assert forall i :: FirstFiringAt(rules, text, i) ==> FirstFiringAt(rules[1..], text, i - 1);
      r
  }

  /** `String(status || "").toLowerCase()` */
  function StatusText(status: Value): (r: string)
    ensures Falsy(status) ==> r == ""
    ensures !Falsy(status) ==> |r| == |Text(status)|
    ensures !Falsy(status) ==> forall i :: 0 <= i < |r| ==> r[i] == LowerChar(Text(status)[i])
    ensures NoUpper(r)
  {
    var t := if Falsy(status) then "" else Text(status);
    LowerNoUpper(t);
    Lower(t)
  }

  /** `getStatusVariant(status)` under the given rule list: the variant of
      the first rule firing on the lower-cased status, `Default` when none does. */
  function Classify(rules: seq<Rule>, status: Value): (r: Variant)
    ensures forall i :: FirstFiringAt(rules, StatusText(status), i) ==> r == rules[i].variant
    ensures (forall i :: 0 <= i < |rules| ==> !Fires(rules[i], StatusText(status))) ==> r == Default
  {
    FirstRule(rules, StatusText(status))
  }

  /** The classifier ignores letter case: a status string and its
      lower-cased form get the same variant. */
  lemma ClassifyIgnoresCase(rules: seq<Rule>, s: string)
    ensures Classify(rules, Str(s)) == Classify(rules, Str(Lower(s)))
  {
    var low := Lower(s);
    assert s == "" <==> low == "";
    assert Lower(low) == low;
  }

  // ---------------------------------------------------------------- properties

  /** A null, empty, zero or false status is `Default` in both lists. */
  lemma FalsyIsDefault(status: Value)
    requires Falsy(status)
    ensures Classify(LeadRules, status) == Default
    ensures Classify(JobRules, status) == Default
  {
    assert StatusText(status) == "";
    LeadFiring("");
    JobFiring("");
  }

  /** "cancel" is tried first: it wins over every other word, in both lists. */
  lemma CancelWins(status: Value)
    requires Contains(StatusText(status), "cancel")
    ensures Classify(LeadRules, status) == Cancelled
    ensures Classify(JobRules, status) == Cancelled
  {
    assert FirstFiringAt(LeadRules, StatusText(status), 0);
    assert FirstFiringAt(JobRules, StatusText(status), 0);
  }

  lemma FiresOne(text: string, a: string, v: Variant)
    ensures Fires(Rule([a], v), text) <==> Contains(text, a)
  {
    if Contains(text, a) { assert a in [a]; }
  }

  lemma FiresTwo(text: string, a: string, b: string, v: Variant)
    ensures Fires(Rule([a, b], v), text) <==> Contains(text, a) || Contains(text, b)
  {
    if Contains(text, a) { assert a in [a, b]; }
    if Contains(text, b) { assert b in [a, b]; }
  }

  lemma FiresThree(text: string, a: string, b: string, c: string, v: Variant)
    ensures Fires(Rule([a, b, c], v), text) <==> Contains(text, a) || Contains(text, b) || Contains(text, c)
  {
    if Contains(text, a) { assert a in [a, b, c]; }
    if Contains(text, b) { assert b in [a, b, c]; }
    if Contains(text, c) { assert c in [a, b, c]; }
  }

  /** Each rule of the lead list fires exactly when one of its words occurs. */
  lemma LeadFiring(t: string)
    ensures Fires(LeadRules[0], t) <==> Contains(t, "cancel")
    ensures Fires(LeadRules[1], t) <==> Contains(t, "complete") || Contains(t, "converted")
    ensures Fires(LeadRules[2], t) <==> Contains(t, "progress") || Contains(t, "ongoing") || Contains(t, "assigned")
    ensures Fires(LeadRules[3], t) <==> Contains(t, "approve")
    ensures Fires(LeadRules[4], t) <==> Contains(t, "pending") || Contains(t, "new") || Contains(t, "open")
  {
    FiresOne(t, "cancel", Cancelled);
    FiresTwo(t, "complete", "converted", Completed);
    FiresThree(t, "progress", "ongoing", "assigned", Progress);
    FiresOne(t, "approve", Approved);
    FiresThree(t, "pending", "new", "open", Pending);
  }

  /** Each rule of the job list fires exactly when one of its words occurs. */
  lemma JobFiring(t: string)
    ensures Fires(JobRules[0], t) <==> Contains(t, "cancel")
    ensures Fires(JobRules[1], t) <==> Contains(t, "complete") || Contains(t, "closed")
    ensures Fires(JobRules[2], t) <==> Contains(t, "progress") || Contains(t, "ongoing") || Contains(t, "assign")
    ensures Fires(JobRules[3], t) <==> Contains(t, "approve")
    ensures Fires(JobRules[4], t) <==> Contains(t, "pending") || Contains(t, "new") || Contains(t, "open")
  {
    FiresOne(t, "cancel", Cancelled);
    FiresTwo(t, "complete", "closed", Completed);
    FiresThree(t, "progress", "ongoing", "assign", Progress);
    FiresOne(t, "approve", Approved);
    FiresThree(t, "pending", "new", "open", Pending);
  }

  /** Two rule lists that fire alike, rule by rule, classify alike. */
  lemma {:induction false} SameFiringSameVariant(r1: seq<Rule>, r2: seq<Rule>, text: string)
    requires |r1| == |r2|
    requires forall i :: 0 <= i < |r1| ==> (Fires(r1[i], text) <==> Fires(r2[i], text)) && r1[i].variant == r2[i].variant
    ensures FirstRule(r1, text) == FirstRule(r2, text)
    decreases |r1|
  {
    if r1 != [] && !Fires(r1[0], text) {
      SameFiringSameVariant(r1[1..], r2[1..], text);
    }
  }

  /** A text naming "assigned" names "assign". */
  lemma AssignedMentionsAssign(t: string)
    requires Contains(t, "assigned")
    ensures Contains(t, "assign")
  {
    ContainsTrans(t, "assigned", "assign");
  }

  /** Outside the words where they differ, the two lists fire alike, rule by rule. */
  lemma RulesFireAlike(t: string)
    requires !Contains(t, "converted") && !Contains(t, "closed") && !Contains(t, "assign")
    ensures forall i :: 0 <= i < 5 ==> (Fires(LeadRules[i], t) <==> Fires(JobRules[i], t))
  {
    if Contains(t, "assigned") {
      AssignedMentionsAssign(t);
    }
    LeadFiring(t);
    JobFiring(t);
  }

  /** The two lists agree on every text that mentions none of "converted",
      "closed" and "assign", the words where they differ. */
  lemma ListsAgreeOnText(t: string)
    requires !Contains(t, "converted") && !Contains(t, "closed") && !Contains(t, "assign")
    ensures FirstRule(LeadRules, t) == FirstRule(JobRules, t)
  {
    RulesFireAlike(t);
    SameFiringSameVariant(LeadRules, JobRules, t);
  }

  /** The classifiers agree on every status that mentions none of the words
      where their rules differ. */
  lemma ListsAgreeOutsideDifferences(status: Value)
    requires !Contains(StatusText(status), "converted")
    requires !Contains(StatusText(status), "closed")
    requires !Contains(StatusText(status), "assign")
    ensures Classify(LeadRules, status) == Classify(JobRules, status)
  {
    ListsAgreeOnText(StatusText(status));
  }

  /** A lead status naming "converted" is completed unless it names "cancel". */
  lemma LeadConvertedIsCompleted(status: Value)
    requires Contains(StatusText(status), "converted") && !Contains(StatusText(status), "cancel")
    ensures Classify(LeadRules, status) == Completed
  {
    var t := StatusText(status);
    LeadFiring(t);
    assert FirstFiringAt(LeadRules, t, 1);
  }

  /** A job status naming "closed" is completed unless it names "cancel". */
  lemma JobClosedIsCompleted(status: Value)
    requires Contains(StatusText(status), "closed") && !Contains(StatusText(status), "cancel")
    ensures Classify(JobRules, status) == Completed
  {
    var t := StatusText(status);
    JobFiring(t);
    assert FirstFiringAt(JobRules, t, 1);
  }

  /** Any "assign" in a job status means in progress, once the cancelled and
      completed rules have not fired. */
  lemma JobAssignIsProgress(status: Value)
    requires Contains(StatusText(status), "assign")
    requires !Contains(StatusText(status), "cancel")
    requires !Contains(StatusText(status), "complete") && !Contains(StatusText(status), "closed")
    ensures Classify(JobRules, status) == Progress
  {
    var t := StatusText(status);
    JobFiring(t);
    assert FirstFiringAt(JobRules, t, 2);
  }

  /** Every word the lead rules look for. */
  const LeadWords: seq<string> :=
    ["cancel", "complete", "converted", "progress", "ongoing", "assigned", "approve", "pending", "new", "open"]

  /** Every word the job rules look for. */
  const JobWords: seq<string> :=
    ["cancel", "complete", "closed", "progress", "ongoing", "assign", "approve", "pending", "new", "open"]

  /** A lead status that names none of the rule words is `Default`. */
  lemma LeadDefaultWithoutRuleWord(status: Value)
    requires forall w :: w in LeadWords ==> !Contains(StatusText(status), w)
    ensures Classify(LeadRules, status) == Default
  {
    LeadFiring(StatusText(status));
  }

  /** A job status that names none of the rule words is `Default`. */
  lemma JobDefaultWithoutRuleWord(status: Value)
    requires forall w :: w in JobWords ==> !Contains(StatusText(status), w)
    ensures Classify(JobRules, status) == Default
  {
    JobFiring(StatusText(status));
  }

  /** Where the lists differ on "converted": a status naming it and none of
      the job rule words is completed for a lead and `Default` for a job. */
  lemma ConvertedDiffers(status: Value)
    requires Contains(StatusText(status), "converted")
    requires forall w :: w in JobWords ==> !Contains(StatusText(status), w)
    ensures Classify(LeadRules, status) == Completed
    ensures Classify(JobRules, status) == Default
  {
    assert "cancel" in JobWords;
    LeadConvertedIsCompleted(status);
    JobDefaultWithoutRuleWord(status);
  }

  /** Where the lists differ on "assign": a status naming "assign" but not
      "assigned", and no other rule word, is `Default` for a lead and in
      progress for a job. */
  lemma AssignDiffers(status: Value)
    requires Contains(StatusText(status), "assign")
    requires forall w :: w in LeadWords ==> !Contains(StatusText(status), w)
    requires !Contains(StatusText(status), "closed")
    ensures Classify(LeadRules, status) == Default
    ensures Classify(JobRules, status) == Progress
  {
    assert "cancel" in LeadWords && "complete" in LeadWords;
    LeadDefaultWithoutRuleWord(status);
    JobAssignIsProgress(status);
  }
}
