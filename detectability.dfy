/** `analyze_duplicate_detectability`: the generated rows are marked in place
    with whether the detector reported their application number, and the
    detection rate of each class of duplicate is computed. */
module Detectability {
  import opened EventLog
  import opened DuplicateDetection
  import opened MixedDuplicates

  /** A generated row with the two columns the analysis writes. */
  datatype MarkedRow = MarkedRow(row: DuplicateRow, wasDetected: bool, detectionMethod: string)

  const FuzzyMatching := "fuzzy_matching"
  const NoMethod := "none"

  /** The application numbers that occur in the detector's pairs, as A or B. */
  function PairKeys(pairs: seq<Candidate>): set<string>
    decreases |pairs|
  {
    if |pairs| == 0 then {}
    else PairKeys(pairs[..|pairs| - 1]) + {pairs[|pairs| - 1].applicationA, pairs[|pairs| - 1].applicationB}
  }

  lemma {:induction false} PairKeysMembers(pairs: seq<Candidate>)
    ensures forall x :: x in PairKeys(pairs) <==>
              exists i :: 0 <= i < |pairs| && (pairs[i].applicationA == x || pairs[i].applicationB == x)
    decreases |pairs|
  {
    if |pairs| > 0 {
      var init := pairs[..|pairs| - 1];
      PairKeysMembers(init);
      assert forall i :: 0 <= i < |init| ==> init[i] == pairs[i];
    }
  }

  /** The state of a row once every pair has been processed. */
  function Marked(r: MarkedRow, detected: set<string>): MarkedRow
  {
    if r.row.event.key in detected then MarkedRow(r.row, true, FuzzyMatching)
    else MarkedRow(r.row, false, NoMethod)
  }

  /** The figures the analysis returns. */
  datatype DetectionStats = DetectionStats(
    fuzzyDetectionRate: real,
    nonFuzzyDetectionRate: real,
    totalFuzzy: nat,
    totalNonFuzzy: nat,
    detectedFuzzy: nat,
    detectedNonFuzzy: nat)

  /** The number of rows of a `duplicate_type`. */
  function CountOfType(rows: seq<MarkedRow>, t: string): nat
    decreases |rows|
  {
    if |rows| == 0 then 0
    else CountOfType(rows[..|rows| - 1], t) + (if rows[|rows| - 1].row.duplicateType == t then 1 else 0)
  }

  /** The number of rows of a `duplicate_type` marked as detected. */
  function DetectedOfType(rows: seq<MarkedRow>, t: string): nat
    decreases |rows|
  {
    if |rows| == 0 then 0
    else DetectedOfType(rows[..|rows| - 1], t)
         + (if rows[|rows| - 1].row.duplicateType == t && rows[|rows| - 1].wasDetected then 1 else 0)
  }

  lemma {:induction false} DetectedAtMostCount(rows: seq<MarkedRow>, t: string)
    ensures DetectedOfType(rows, t) <= CountOfType(rows, t)
    ensures CountOfType(rows, FuzzyDetectable) + CountOfType(rows, NonFuzzyDetectable) <= |rows|
    decreases |rows|
  {
    if |rows| > 0 {
      DetectedAtMostCount(rows[..|rows| - 1], t);
    }
  }

  /** The mean of the boolean column over a class, 0 for an empty class. */
  function Rate(detected: nat, total: nat): real
  {
    if total > 0 then detected as real / total as real else 0.0
  }

  function Stats(rows: seq<MarkedRow>): DetectionStats
  {
    var fuzzyTotal := CountOfType(rows, FuzzyDetectable);
    var otherTotal := CountOfType(rows, NonFuzzyDetectable);
    var fuzzyFound := DetectedOfType(rows, FuzzyDetectable);
    var otherFound := DetectedOfType(rows, NonFuzzyDetectable);
    DetectionStats(Rate(fuzzyFound, fuzzyTotal), Rate(otherFound, otherTotal),
                   fuzzyTotal, otherTotal, fuzzyFound, otherFound)
  }

  /** The counts cover at most the table, a class never has more detected
      rows than rows, and the rates are fractions: 0 for an empty class, 1
      exactly when every row of a non-empty class was detected. */
  lemma StatsFacts(rows: seq<MarkedRow>)
    ensures var s := Stats(rows);
      && s.totalFuzzy + s.totalNonFuzzy <= |rows|
      && s.detectedFuzzy <= s.totalFuzzy && s.detectedNonFuzzy <= s.totalNonFuzzy
      && 0.0 <= s.fuzzyDetectionRate <= 1.0 && 0.0 <= s.nonFuzzyDetectionRate <= 1.0
      && (s.totalFuzzy == 0 ==> s.fuzzyDetectionRate == 0.0)
      && (s.totalNonFuzzy == 0 ==> s.nonFuzzyDetectionRate == 0.0)
      && (s.fuzzyDetectionRate == 1.0 <==> s.totalFuzzy > 0 && s.detectedFuzzy == s.totalFuzzy)
      && (s.nonFuzzyDetectionRate == 1.0 <==> s.totalNonFuzzy > 0 && s.detectedNonFuzzy == s.totalNonFuzzy)
  {
    DetectedAtMostCount(rows, FuzzyDetectable);
    DetectedAtMostCount(rows, NonFuzzyDetectable);
    RateFacts(DetectedOfType(rows, FuzzyDetectable), CountOfType(rows, FuzzyDetectable));
    RateFacts(DetectedOfType(rows, NonFuzzyDetectable), CountOfType(rows, NonFuzzyDetectable));
  }

  lemma RateFacts(detected: nat, total: nat)
    requires detected <= total
    ensures 0.0 <= Rate(detected, total) <= 1.0
    ensures Rate(detected, total) == 1.0 <==> total > 0 && detected == total
  {
    if total > 0 {
      var r := detected as real / total as real;
      assert r * total as real == detected as real;
      if r == 1.0 {
        assert detected as real == total as real;
      }
    }
  }

  /** `analyze_duplicate_detectability(duplicates_df, detection_results)`:
      every row is reset to not detected, then for each pair the rows whose
      application number is A or B are marked as found by fuzzy matching; the
      statistics are taken from the marked table. */
  method AnalyzeDuplicateDetectability(table: array<MarkedRow>, pairs: seq<Candidate>)
    returns (stats: DetectionStats)
    modifies table
    ensures forall k :: 0 <= k < table.Length ==> table[k] == Marked(old(table[k]), PairKeys(pairs))
    ensures stats == Stats(table[..])
  {
    for k := 0 to table.Length
      invariant forall j :: 0 <= j < k ==> table[j] == Marked(old(table[j]), {})
      invariant forall j :: k <= j < table.Length ==> table[j] == old(table[j])
    {
      table[k] := MarkedRow(table[k].row, false, NoMethod);
    }
    for p := 0 to |pairs|
      invariant forall j :: 0 <= j < table.Length ==> table[j] == Marked(old(table[j]), PairKeys(pairs[..p]))
    {
      var a, b := pairs[p].applicationA, pairs[p].applicationB;
      assert pairs[..p + 1][..p] == pairs[..p];
      assert PairKeys(pairs[..p + 1]) == PairKeys(pairs[..p]) + {a, b};
      for k := 0 to table.Length
        invariant forall j :: 0 <= j < k ==> table[j] == Marked(old(table[j]), PairKeys(pairs[..p + 1]))
        invariant forall j :: k <= j < table.Length ==> table[j] == Marked(old(table[j]), PairKeys(pairs[..p]))
      {
        if table[k].row.event.key == a || table[k].row.event.key == b {
          table[k] := MarkedRow(table[k].row, true, FuzzyMatching);
        }
      }
    }
    assert pairs[..|pairs|] == pairs;
    stats := Stats(table[..]);
  }

  /** After the analysis a row is detected, by fuzzy matching, exactly when its
      application number is A or B of some pair; every other row reads not
      detected with method `none`. */
  lemma MarkedMeans(r: MarkedRow, pairs: seq<Candidate>)
    ensures var m := Marked(r, PairKeys(pairs));
      && m.row == r.row
      && (m.wasDetected <==>
            exists i :: 0 <= i < |pairs| && (pairs[i].applicationA == r.row.event.key || pairs[i].applicationB == r.row.event.key))
      && (m.wasDetected ==> m.detectionMethod == FuzzyMatching)
      && (!m.wasDetected ==> m.detectionMethod == NoMethod)
  {
    PairKeysMembers(pairs);
  }
}
