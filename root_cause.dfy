/** `advanced_root_cause_analysis`: an ordered chain of six rules over one
    detected pair, the first rule that holds naming the pair's root cause and
    a seventh label when none does. */
module RootCause {
  import opened DuplicateDetection

  const ManualReentry := "Manual re-entry by same user (likely typo/correction)"
  const Collaborative := "Collaborative entry by multiple users"
  const SystemRetry := "System retry/retransmission"
  const DataMigration := "Data migration/import duplicate"
  const ProcessWorkflow := "Process workflow duplication"
  const TrainingTesting := "User training/testing scenario"
  const ComplexScenario := "Complex duplicate scenario requiring manual review"

  /** The label of rule `k`, the seventh being the fallback. */
  function Label(k: nat): string
    requires 1 <= k <= 7
  {
    match k
    case 1 => ManualReentry
    case 2 => Collaborative
    case 3 => SystemRetry
    case 4 => DataMigration
    case 5 => ProcessWorkflow
    case 6 => TrainingTesting
    case _ => ComplexScenario
  }

  /** The column `Same_User` holds 1.0 or 0.0; Python's truth test is `!= 0`. */
  predicate SameUser(c: Candidate)
  {
    c.sameUser != 0.0
  }

  predicate StartsWithR(s: string)
  {
    |s| > 0 && s[0] == 'R'
  }

  /** The condition of rule `k`, on the hours apart `t`, the key similarity
      and the activity similarity of the pair. */
  predicate Rule(c: Candidate, k: nat)
    requires 1 <= k <= 6
  {
    var t := c.timeDifferenceHours;
    var sim := c.stringSimilarity;
    var act := c.activitySimilarity;
    match k
    case 1 => SameUser(c) && t <= 1.0 && sim >= 85.0
    case 2 => !SameUser(c) && t <= 2.0 && sim >= 80.0
    case 3 => (StartsWithR(c.applicationA) || StartsWithR(c.applicationB)) && t >= 2.0
    case 4 => t >= 24.0 && act >= 90.0
    case 5 => t <= 0.5 && act >= 95.0
    case _ => sim >= 90.0 && t <= 0.1
  }

  /** The classifier as written: the if/elif chain. */
  function Classify(c: Candidate): string
  {
    var t := c.timeDifferenceHours;
    var sim := c.stringSimilarity;
    var act := c.activitySimilarity;
    if SameUser(c) && t <= 1.0 && sim >= 85.0 then ManualReentry
    else if !SameUser(c) && t <= 2.0 && sim >= 80.0 then Collaborative
    else if (StartsWithR(c.applicationA) || StartsWithR(c.applicationB)) && t >= 2.0 then SystemRetry
    else if t >= 24.0 && act >= 90.0 then DataMigration
    else if t <= 0.5 && act >= 95.0 then ProcessWorkflow
    else if sim >= 90.0 && t <= 0.1 then TrainingTesting
    else ComplexScenario
  }

  /** The number of the first rule from `k` on that holds, 7 when none does. */
  function FirstRule(c: Candidate, k: nat): (r: nat)
    requires 1 <= k <= 7
    ensures k <= r <= 7
    decreases 7 - k
  {
    if k == 7 then 7
    else if Rule(c, k) then k
    else FirstRule(c, k + 1)
  }

  lemma {:induction false} FirstRuleMeans(c: Candidate, k: nat)
    requires 1 <= k <= 7
    ensures FirstRule(c, k) < 7 ==> Rule(c, FirstRule(c, k))
    ensures forall j :: k <= j < FirstRule(c, k) ==> !Rule(c, j)
    decreases 7 - k
  {
    if k < 7 && !Rule(c, k) {
      FirstRuleMeans(c, k + 1);
    }
  }

  /** The chain is the first-match reading of the rule table. */
  lemma ClassifyIsFirstMatch(c: Candidate)
    ensures Classify(c) == Label(FirstRule(c, 1))
  {
  }

  lemma LabelsDistinct(j: nat, k: nat)
    requires 1 <= j <= 7 && 1 <= k <= 7 && j != k
    ensures Label(j) != Label(k)
  {
  }

  /** The result is one of the seven labels. */
  lemma ClassifyInLabels(c: Candidate)
    ensures Classify(c) in {ManualReentry, Collaborative, SystemRetry, DataMigration,
                            ProcessWorkflow, TrainingTesting, ComplexScenario}
    ensures exists k :: 1 <= k <= 7 && Classify(c) == Label(k)
  {
    ClassifyIsFirstMatch(c);
  }

  /** First match wins: the label of rule `k` is returned exactly when rule
      `k` holds (or `k` is the fallback) and no earlier rule does. */
  lemma FirstMatchWins(c: Candidate, k: nat)
    requires 1 <= k <= 7
    ensures Classify(c) == Label(k) <==> (k < 7 ==> Rule(c, k)) && forall j :: 1 <= j < k ==> !Rule(c, j)
  {
    ClassifyIsFirstMatch(c);
    FirstRuleMeans(c, 1);
    var f := FirstRule(c, 1);
    if Classify(c) == Label(k) {
      if f != k {
        LabelsDistinct(f, k);
      }
    }
  }

  /** Rule 1 decides, whatever the other fields are. */
  lemma ManualReentryRule(c: Candidate)
    requires SameUser(c) && c.timeDifferenceHours <= 1.0 && c.stringSimilarity >= 85.0
    ensures Classify(c) == ManualReentry
  {
  }

  /** Rule 2 decides, whatever the other fields are. */
  lemma CollaborativeRule(c: Candidate)
    requires !SameUser(c) && c.timeDifferenceHours <= 2.0 && c.stringSimilarity >= 80.0
    ensures Classify(c) == Collaborative
  {
  }

  /** Rule 6 never fires: its condition implies rule 1's or rule 2's. */
  lemma TrainingTestingUnreachable(c: Candidate)
    ensures Rule(c, 6) ==> Rule(c, 1) || Rule(c, 2)
    ensures Classify(c) != TrainingTesting
  {
    FirstMatchWins(c, 6);
  }

  /** A retry is reported only for a pair with a key starting with 'R' that is
      at least two hours apart. */
  lemma SystemRetryMeans(c: Candidate)
    requires Classify(c) == SystemRetry
    ensures StartsWithR(c.applicationA) || StartsWithR(c.applicationB)
    ensures c.timeDifferenceHours >= 2.0
    ensures !(SameUser(c) && c.timeDifferenceHours <= 1.0 && c.stringSimilarity >= 85.0)
  {
    FirstMatchWins(c, 3);
  }
}
