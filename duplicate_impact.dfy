/** `analyze_duplicate_impact`: every classified pair receives a risk level and
    a recommendation chosen from its root-cause label, and the larger of the
    two requested amounts as its potential financial impact. */
module DuplicateImpact {
  import opened EventLog
  import opened DuplicateDetection
  import opened RootCause

  const Low := "Low"
  const Medium := "Medium"
  const High := "High"
  const Critical := "Critical"

  const ValidationAdvice := "Implement input validation and auto-save features"
  const CoordinationAdvice := "Implement real-time duplicate checking and user coordination"
  const IntegrationAdvice := "Review system integration and data migration processes"
  const AuditAdvice := "Immediate manual review and process audit required"

  /** The label the Low tier lists first; the classifier's rule 1 returns a
      longer label. */
  const ManualReentryShort := "Manual re-entry by same user"

  /** A row of the pairs table once the `Root_Cause` column has been added. */
  datatype ClassifiedPair = ClassifiedPair(pair: Candidate, rootCause: string)

  /** One record of the impact table. */
  datatype ImpactRecord = ImpactRecord(
    applicationA: string,
    applicationB: string,
    rootCause: string,
    riskLevel: string,
    potentialFinancialImpact: int,
    recommendation: string,
    timeDifferenceHours: real)

  /** The risk level and the recommendation for a root-cause label: three
      lists of two labels each, everything else Critical. */
  function Assess(rootCause: string): (string, string)
  {
    if rootCause in [ManualReentryShort, TrainingTesting] then (Low, ValidationAdvice)
    else if rootCause in [Collaborative, ProcessWorkflow] then (Medium, CoordinationAdvice)
    else if rootCause in [SystemRetry, DataMigration] then (High, IntegrationAdvice)
    else (Critical, AuditAdvice)
  }

  /** The four tiers with their recommendations; a label outside the three
      lists is Critical with the audit recommendation. */
  lemma AssessTiers(rootCause: string)
    ensures Assess(rootCause) in {(Low, ValidationAdvice), (Medium, CoordinationAdvice),
                                  (High, IntegrationAdvice), (Critical, AuditAdvice)}
    ensures Assess(rootCause).0 == Low <==> rootCause == ManualReentryShort || rootCause == TrainingTesting
    ensures Assess(rootCause).0 == Medium <==> rootCause == Collaborative || rootCause == ProcessWorkflow
    ensures Assess(rootCause).0 == High <==> rootCause == SystemRetry || rootCause == DataMigration
    ensures rootCause !in {ManualReentryShort, TrainingTesting, Collaborative, ProcessWorkflow,
                           SystemRetry, DataMigration}
            ==> Assess(rootCause) == (Critical, AuditAdvice)
  {
  }

  /** The classifier's rule-1 label is not in the Low list, so the pairs the
      classifier attributes to a same-user re-entry are Critical. */
  lemma ManualReentryIsCritical()
    ensures ManualReentry != ManualReentryShort
    ensures Assess(ManualReentry) == (Critical, AuditAdvice)
  {
    assert ManualReentry[|ManualReentryShort|] == ' ';
  }

  /** Together with the unreachable rule 6: no label the classifier returns is
      assessed Low. */
  lemma ClassifiedNeverLow(c: Candidate)
    ensures Assess(Classify(c)).0 != Low
  {
    TrainingTestingUnreachable(c);
    ManualReentryIsCritical();
    ClassifyInLabels(c);
  }

  /** The assessment with the Low list naming the label the classifier
      actually returns for a same-user re-entry. */
  function AssessCorrected(rootCause: string): (string, string)
  {
    if rootCause in [ManualReentry, TrainingTesting] then (Low, ValidationAdvice)
    else if rootCause in [Collaborative, ProcessWorkflow] then (Medium, CoordinationAdvice)
    else if rootCause in [SystemRetry, DataMigration] then (High, IntegrationAdvice)
    else (Critical, AuditAdvice)
  }

  /** The corrected assessment puts the classifier's same-user re-entries in
      the Low tier, and agrees with the original on every other label. */
  lemma AssessCorrectedMeans(c: Candidate, rootCause: string)
    ensures Classify(c) == ManualReentry ==> AssessCorrected(Classify(c)) == (Low, ValidationAdvice)
    ensures AssessCorrected(Classify(c)).0 == Low <==> Classify(c) == ManualReentry
    ensures rootCause != ManualReentry && rootCause != ManualReentryShort ==>
              AssessCorrected(rootCause) == Assess(rootCause)
  {
    TrainingTestingUnreachable(c);
    ManualReentryIsCritical();
  }

  /** `df[df['application_number'] == key]['case:AMOUNT_REQ'].iloc[0]` when
      the table has the amount column, else 0. */
  function Amount(log: seq<Event>, hasAmount: bool, key: string): Result<int>
  {
    if !hasAmount then Success(0)
    else
      var rows := RowsOf(log, key);
      if |rows| == 0 then Failure(NoRowError) else Success(rows[0].amount)
  }

  /** When the column is present, the amount is that of the first row with the
      key, and there is none only when no row has the key. */
  lemma {:induction false} AmountMeans(log: seq<Event>, hasAmount: bool, key: string)
    ensures !hasAmount ==> Amount(log, hasAmount, key) == Success(0)
    ensures Amount(log, hasAmount, key).Failure? <==> hasAmount && forall e :: e in log ==> e.key != key
    ensures hasAmount && Amount(log, hasAmount, key).Success? ==>
              exists i :: 0 <= i < |log| && log[i].key == key && Amount(log, hasAmount, key).value == log[i].amount
                          && forall j :: 0 <= j < i ==> log[j].key != key
  {
    RowsOfSelects(log, key);
    if hasAmount && |RowsOf(log, key)| > 0 {
      FirstRowIsFirst(log, key);
    }
  }

  lemma {:induction false} FirstRowIsFirst(log: seq<Event>, key: string)
    requires |RowsOf(log, key)| > 0
    ensures exists i :: 0 <= i < |log| && log[i] == RowsOf(log, key)[0] && log[i].key == key
                        && forall j :: 0 <= j < i ==> log[j].key != key
    decreases |log|
  {
    var init := log[..|log| - 1];
    RowsOfSelects(init, key);
    assert forall j :: 0 <= j < |init| ==> init[j] == log[j];
    if |RowsOf(init, key)| > 0 {
      FirstRowIsFirst(init, key);
    } else {
      var i := |log| - 1;
      forall j | 0 <= j < i ensures log[j].key != key {
        assert init[j] in init;
      }
    }
  }

  /** `analyze_duplicate_impact(df, duplicate_pairs)`: one record per pair in
      order, stopping with the index error of the first pair one of whose keys
      has no row while the amount column is present. */
  method AnalyzeDuplicateImpact(log: seq<Event>, hasAmount: bool, pairs: seq<ClassifiedPair>)
    returns (r: Result<seq<ImpactRecord>>)
    ensures r.Failure? <==>
              exists i :: 0 <= i < |pairs| && (Amount(log, hasAmount, pairs[i].pair.applicationA).Failure?
                                               || Amount(log, hasAmount, pairs[i].pair.applicationB).Failure?)
    ensures r.Success? ==> |r.value| == |pairs|
    ensures r.Success? ==> forall i :: 0 <= i < |pairs| ==> Described(log, hasAmount, pairs[i], r.value[i])
  {
    var impact: seq<ImpactRecord> := [];
    for i := 0 to |pairs|
      invariant |impact| == i
      invariant forall k :: 0 <= k < i ==> Described(log, hasAmount, pairs[k], impact[k])
    {
      var a, b := pairs[i].pair.applicationA, pairs[i].pair.applicationB;
      var amountA := Amount(log, hasAmount, a);
      var amountB := Amount(log, hasAmount, b);
      if amountA.Failure? || amountB.Failure? {
        return Failure(NoRowError);
      }
      var (risk, advice) := Assess(pairs[i].rootCause);
      impact := impact + [ImpactRecord(a, b, pairs[i].rootCause, risk, Max(amountA.value, amountB.value),
                                       advice, pairs[i].pair.timeDifferenceHours)];
    }
    r := Success(impact);
  }

  /** What one record says about its pair: the keys, the label and the hours
      copied, the tier and the recommendation of the label, and as impact the
      larger of the two amounts. */
  predicate Described(log: seq<Event>, hasAmount: bool, p: ClassifiedPair, rec: ImpactRecord)
  {
    var amountA := Amount(log, hasAmount, p.pair.applicationA);
    var amountB := Amount(log, hasAmount, p.pair.applicationB);
    && amountA.Success? && amountB.Success?
    && rec.applicationA == p.pair.applicationA
    && rec.applicationB == p.pair.applicationB
    && rec.rootCause == p.rootCause
    && rec.timeDifferenceHours == p.pair.timeDifferenceHours
    && (rec.riskLevel, rec.recommendation) == Assess(p.rootCause)
    && rec.potentialFinancialImpact >= amountA.value
    && rec.potentialFinancialImpact >= amountB.value
    && (rec.potentialFinancialImpact == amountA.value || rec.potentialFinancialImpact == amountB.value)
  }
}
