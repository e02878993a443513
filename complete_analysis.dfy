/** `organize_duplicates_by_type`: the generated rows are split by class and by
    whether the detector reported their application number, with a four-row
    summary of counts and percentages. */
module CompleteAnalysis {
  import opened EventLog
  import opened DuplicateDetection
  import opened MixedDuplicates
  import opened Detectability

  /** One row of the summary table. */
  datatype SummaryRow = SummaryRow(typeName: string, status: string, count: nat, percentage: real)

  /** The dictionary the function returns. */
  datatype Organized = Organized(
    fuzzyDetected: seq<DuplicateRow>,
    fuzzyNotDetected: seq<DuplicateRow>,
    nonFuzzyDetected: seq<DuplicateRow>,
    nonFuzzyNotDetected: seq<DuplicateRow>,
    summary: seq<SummaryRow>,
    allDuplicates: seq<DuplicateRow>)

  /** The set of application numbers built by adding A and B of every pair. */
  method CollectDetectedApps(pairs: seq<Candidate>) returns (apps: set<string>)
    ensures apps == PairKeys(pairs)
    ensures forall x :: x in apps <==>
              exists i :: 0 <= i < |pairs| && (pairs[i].applicationA == x || pairs[i].applicationB == x)
  {
    apps := {};
    for i := 0 to |pairs|
      invariant apps == PairKeys(pairs[..i])
    {
      assert pairs[..i + 1][..i] == pairs[..i];
      apps := apps + {pairs[i].applicationA};
      apps := apps + {pairs[i].applicationB};
    }
    assert pairs[..|pairs|] == pairs;
    PairKeysMembers(pairs);
  }

  /** The rows of one `duplicate_type`, in order. */
  function OfType(rows: seq<DuplicateRow>, t: string): seq<DuplicateRow>
    decreases |rows|
  {
    if |rows| == 0 then []
    else OfType(rows[..|rows| - 1], t) + (if rows[|rows| - 1].duplicateType == t then [rows[|rows| - 1]] else [])
  }

  /** The rows whose application number is (`want`) or is not (`!want`) in
      `detected`, in order. */
  function WithStatus(rows: seq<DuplicateRow>, detected: set<string>, want: bool): seq<DuplicateRow>
    decreases |rows|
  {
    if |rows| == 0 then []
    else
      var last := rows[|rows| - 1];
      WithStatus(rows[..|rows| - 1], detected, want) + (if (last.event.key in detected) == want then [last] else [])
  }

  lemma {:induction false} OfTypeSelects(rows: seq<DuplicateRow>, t: string)
    ensures forall x :: x in OfType(rows, t) <==> x in rows && x.duplicateType == t
    decreases |rows|
  {
    if |rows| > 0 {
      OfTypeSelects(rows[..|rows| - 1], t);
      assert rows == rows[..|rows| - 1] + [rows[|rows| - 1]];
    }
  }

  lemma {:induction false} WithStatusSelects(rows: seq<DuplicateRow>, detected: set<string>, want: bool)
    ensures forall x :: x in WithStatus(rows, detected, want) <==> x in rows && (x.event.key in detected) == want
    decreases |rows|
  {
    if |rows| > 0 {
      WithStatusSelects(rows[..|rows| - 1], detected, want);
      assert rows == rows[..|rows| - 1] + [rows[|rows| - 1]];
    }
  }

  lemma WithStatusLast(rows: seq<DuplicateRow>, detected: set<string>)
    requires |rows| > 0
    ensures var init, last := rows[..|rows| - 1], rows[|rows| - 1];
            && WithStatus(rows, detected, true)
               == WithStatus(init, detected, true) + (if last.event.key in detected then [last] else [])
            && WithStatus(rows, detected, false)
               == WithStatus(init, detected, false) + (if last.event.key in detected then [] else [last])
  {
  }

  /** Adding a row to one side of a split adds it to the whole. */
  lemma SplitStep<T>(yes: seq<T>, no: seq<T>, rows: seq<T>, last: T, toYes: bool)
    requires multiset(yes) + multiset(no) == multiset(rows)
    ensures toYes ==> multiset(yes + [last]) + multiset(no) == multiset(rows + [last])
    ensures !toYes ==> multiset(yes) + multiset(no + [last]) == multiset(rows + [last])
  {
    assert multiset(rows + [last]) == multiset(rows) + multiset{last};
    assert multiset(yes + [last]) == multiset(yes) + multiset{last};
    assert multiset(no + [last]) == multiset(no) + multiset{last};
  }

  /** The detected and the not-detected rows of a class are, together, every
      row of the class, each as often as it occurs there. */
  lemma {:induction false} WithStatusPartition(rows: seq<DuplicateRow>, detected: set<string>)
    ensures multiset(WithStatus(rows, detected, true)) + multiset(WithStatus(rows, detected, false)) == multiset(rows)
    decreases |rows|
  {
    if |rows| > 0 {
      var init, last := rows[..|rows| - 1], rows[|rows| - 1];
      WithStatusPartition(init, detected);
      assert rows == init + [last];
      var yes, no := WithStatus(init, detected, true), WithStatus(init, detected, false);
      var toYes := last.event.key in detected;
      WithStatusLast(rows, detected);
      SplitStep(yes, no, init, last, toYes);
    }
  }

  lemma {:induction false} WithStatusSizes(rows: seq<DuplicateRow>, detected: set<string>)
    ensures |WithStatus(rows, detected, true)| + |WithStatus(rows, detected, false)| == |rows|
    decreases |rows|
  {
    if |rows| > 0 {
      WithStatusSizes(rows[..|rows| - 1], detected);
    }
  }

  /** `part / whole * 100`, and 0 for an empty class. */
  function Percentage(part: nat, whole: nat): real
  {
    if whole > 0 then part as real / whole as real * 100.0 else 0.0
  }

  const FuzzyName := "Fuzzy-Detectable"
  const NonFuzzyName := "Non-Fuzzy-Detectable"
  const DetectedName := "Detected"
  const NotDetectedName := "Not Detected"

  function Organize(detected: set<string>, mixed: seq<DuplicateRow>): Organized
  {
    var fuzzy := OfType(mixed, FuzzyDetectable);
    var nonFuzzy := OfType(mixed, NonFuzzyDetectable);
    var fd := WithStatus(fuzzy, detected, true);
    var fn := WithStatus(fuzzy, detected, false);
    var nd := WithStatus(nonFuzzy, detected, true);
    var nn := WithStatus(nonFuzzy, detected, false);
    Organized(fd, fn, nd, nn, Summary(|fd|, |fn|, |fuzzy|, |nd|, |nn|, |nonFuzzy|), mixed)
  }

  /** The summary table from the four group sizes and the two class sizes. */
  function Summary(fd: nat, fn: nat, fuzzy: nat, nd: nat, nn: nat, nonFuzzy: nat): seq<SummaryRow>
  {
    [SummaryRow(FuzzyName, DetectedName, fd, Percentage(fd, fuzzy)),
     SummaryRow(FuzzyName, NotDetectedName, fn, Percentage(fn, fuzzy)),
     SummaryRow(NonFuzzyName, DetectedName, nd, Percentage(nd, nonFuzzy)),
     SummaryRow(NonFuzzyName, NotDetectedName, nn, Percentage(nn, nonFuzzy))]
  }

  /** `organize_duplicates_by_type(duplicate_pairs, mixed_duplicates)`. */
  method OrganizeDuplicatesByType(pairs: seq<Candidate>, mixed: seq<DuplicateRow>) returns (o: Organized)
    ensures o == Organize(PairKeys(pairs), mixed)
  {
    var detected := CollectDetectedApps(pairs);
    o := Organize(detected, mixed);
  }

  /** A row is in a group exactly when it has the group's class and its
      application number is, or is not, among the detected ones; in
      particular a row of any other class is in no group. */
  lemma GroupMembers(detected: set<string>, mixed: seq<DuplicateRow>, x: DuplicateRow)
    ensures var o := Organize(detected, mixed);
      && (x in o.fuzzyDetected <==> x in mixed && x.duplicateType == FuzzyDetectable && x.event.key in detected)
      && (x in o.fuzzyNotDetected <==> x in mixed && x.duplicateType == FuzzyDetectable && x.event.key !in detected)
      && (x in o.nonFuzzyDetected <==> x in mixed && x.duplicateType == NonFuzzyDetectable && x.event.key in detected)
      && (x in o.nonFuzzyNotDetected <==> x in mixed && x.duplicateType == NonFuzzyDetectable && x.event.key !in detected)
  {
    var fuzzy := OfType(mixed, FuzzyDetectable);
    var nonFuzzy := OfType(mixed, NonFuzzyDetectable);
    OfTypeSelects(mixed, FuzzyDetectable);
    OfTypeSelects(mixed, NonFuzzyDetectable);
    WithStatusSelects(fuzzy, detected, true);
    WithStatusSelects(fuzzy, detected, false);
    WithStatusSelects(nonFuzzy, detected, true);
    WithStatusSelects(nonFuzzy, detected, false);
  }

  /** The detected and the not-detected group of each class are disjoint and
      together are the rows of that class. */
  lemma GroupsPartitionClasses(detected: set<string>, mixed: seq<DuplicateRow>)
    ensures var o := Organize(detected, mixed);
      && multiset(o.fuzzyDetected) + multiset(o.fuzzyNotDetected) == multiset(OfType(mixed, FuzzyDetectable))
      && multiset(o.nonFuzzyDetected) + multiset(o.nonFuzzyNotDetected) == multiset(OfType(mixed, NonFuzzyDetectable))
      && (forall x :: !(x in o.fuzzyDetected && x in o.fuzzyNotDetected))
      && (forall x :: !(x in o.nonFuzzyDetected && x in o.nonFuzzyNotDetected))
  {
    var fuzzy := OfType(mixed, FuzzyDetectable);
    var nonFuzzy := OfType(mixed, NonFuzzyDetectable);
    WithStatusPartition(fuzzy, detected);
    WithStatusPartition(nonFuzzy, detected);
    WithStatusSelects(fuzzy, detected, true);
    WithStatusSelects(fuzzy, detected, false);
    WithStatusSelects(nonFuzzy, detected, true);
    WithStatusSelects(nonFuzzy, detected, false);
  }

  /** With the detector's pairs: a row is in a detected group exactly when its
      application number is A or B of some pair. */
  lemma DetectedMeansInPairs(pairs: seq<Candidate>, mixed: seq<DuplicateRow>, x: DuplicateRow)
    requires x in mixed && x.duplicateType == FuzzyDetectable
    ensures x in Organize(PairKeys(pairs), mixed).fuzzyDetected <==>
              exists i :: 0 <= i < |pairs| && (pairs[i].applicationA == x.event.key || pairs[i].applicationB == x.event.key)
  {
    var detected := PairKeys(pairs);
    var fuzzy := OfType(mixed, FuzzyDetectable);
    assert Organize(detected, mixed).fuzzyDetected == WithStatus(fuzzy, detected, true);
    OfTypeSelects(mixed, FuzzyDetectable);
    assert x in fuzzy;
    WithStatusSelects(fuzzy, detected, true);
    PairKeysMembers(pairs);
  }

  lemma FractionsOfWhole(x: real, y: real)
    requires x >= 0.0 && y >= 0.0 && x + y > 0.0
    ensures x / (x + y) + y / (x + y) == 1.0
    ensures 0.0 <= x / (x + y) <= 1.0
  {
    var w := x + y;
    assert x / w + y / w == (x + y) / w;
    assert (x + y) / w == w / w == 1.0;
    assert x / w <= 1.0 by {
      assert x <= w;
      assert x / w <= w / w;
    }
  }

  lemma PercentagePair(part: nat, rest: nat)
    ensures Percentage(part, part + rest) + Percentage(rest, part + rest) == (if part + rest > 0 then 100.0 else 0.0)
    ensures 0.0 <= Percentage(part, part + rest) <= 100.0
  {
    if part + rest > 0 {
      var x, y := part as real, rest as real;
      assert (part + rest) as real == x + y;
      FractionsOfWhole(x, y);
      assert x / (x + y) * 100.0 + y / (x + y) * 100.0 == (x / (x + y) + y / (x + y)) * 100.0;
    }
  }

  /** The two percentages of one class of `whole` rows split into `part`
      and `rest`. */
  lemma ClassPercentages(part: nat, rest: nat, whole: nat)
    requires part + rest == whole
    ensures whole == 0 ==> Percentage(part, whole) == 0.0 && Percentage(rest, whole) == 0.0
    ensures whole > 0 ==> Percentage(part, whole) + Percentage(rest, whole) == 100.0
    ensures 0.0 <= Percentage(part, whole) <= 100.0 && 0.0 <= Percentage(rest, whole) <= 100.0
  {
    PercentagePair(part, rest);
    PercentagePair(rest, part);
  }

  /** The summary of two classes, each split into its two groups. */
  lemma SummaryTableFacts(fd: nat, fn: nat, fuzzy: nat, nd: nat, nn: nat, nonFuzzy: nat)
    requires fd + fn == fuzzy && nd + nn == nonFuzzy
    ensures var t := Summary(fd, fn, fuzzy, nd, nn, nonFuzzy);
      && |t| == 4
      && t[0].count + t[1].count + t[2].count + t[3].count == fuzzy + nonFuzzy
      && t[0].count == fd && t[1].count == fn && t[2].count == nd && t[3].count == nn
      && (fuzzy == 0 ==> t[0].percentage == 0.0 && t[1].percentage == 0.0)
      && (nonFuzzy == 0 ==> t[2].percentage == 0.0 && t[3].percentage == 0.0)
      && (fuzzy > 0 ==> t[0].percentage + t[1].percentage == 100.0)
      && (nonFuzzy > 0 ==> t[2].percentage + t[3].percentage == 100.0)
      && (forall k :: 0 <= k < 4 ==> 0.0 <= t[k].percentage <= 100.0)
  {
    ClassPercentages(fd, fn, fuzzy);
    ClassPercentages(nd, nn, nonFuzzy);
  }

  /** The four counts add up to the rows of the two classes, a class without
      rows has percentages 0, and otherwise its two percentages add up to 100. */
  lemma SummaryFacts(detected: set<string>, mixed: seq<DuplicateRow>)
    ensures var o := Organize(detected, mixed);
      var fuzzy := |OfType(mixed, FuzzyDetectable)|;
      var nonFuzzy := |OfType(mixed, NonFuzzyDetectable)|;
      && o.summary == Summary(|o.fuzzyDetected|, |o.fuzzyNotDetected|, fuzzy,
                              |o.nonFuzzyDetected|, |o.nonFuzzyNotDetected|, nonFuzzy)
      && |o.fuzzyDetected| + |o.fuzzyNotDetected| == fuzzy
      && |o.nonFuzzyDetected| + |o.nonFuzzyNotDetected| == nonFuzzy
  {
    WithStatusSizes(OfType(mixed, FuzzyDetectable), detected);
    WithStatusSizes(OfType(mixed, NonFuzzyDetectable), detected);
  }
}
