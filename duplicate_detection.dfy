/** The optimised duplicate detector: blocking of the application numbers by
    exact length, a sorted sliding window of 49 successors inside each block,
    a global comparison budget checked between windows, the similarity
    threshold, and the features computed for every pair that passes. */
module DuplicateDetection {
  import opened EventLog
  import opened StringOrder

  /** The fixed inputs of one run: the event table, the similarity threshold
      and the string similarity (rapidfuzz `fuzz.ratio`, not modelled). */
  datatype Matcher = Matcher(log: seq<Event>, threshold: real, ratio: (string, string) -> real)

  /** One row of the detector's output table. */
  datatype Candidate = Candidate(
    applicationA: string,
    applicationB: string,
    stringSimilarity: real,
    timeDifferenceHours: real,
    sameUser: real,
    activitySimilarity: real,
    traceA: seq<Event>,
    traceB: seq<Event>)

  /** The two variables the search loop updates: the comparison counter and the
      list of results. */
  datatype Scan = Scan(count: int, results: seq<Candidate>)

  /* ---------------------------------------------------------------------- */
  /* The application list and the length blocks                             */
  /* ---------------------------------------------------------------------- */

  function RowProjection(e: Event): (string, string, string, int)
  {
    (e.key, e.user, e.activity, e.timestamp)
  }

  /** The application numbers of projected rows, in order. */
  function FirstFields(rows: seq<(string, string, string, int)>): (keys: seq<string>)
    ensures |keys| == |rows|
    ensures forall k :: 0 <= k < |rows| ==> keys[k] == rows[k].0
  {
    seq(|rows|, k requires 0 <= k < |rows| => rows[k].0)
  }

  /** `df[['application_number', 'user', 'activity', 'timestamp']]
      .drop_duplicates()['application_number']`: one key per distinct row, so
      a key appears once for every distinct event of its trace. */
  function AppList(log: seq<Event>): (keys: seq<string>)
    ensures forall k :: k in keys <==> exists e :: e in log && e.key == k
  {
    var projected := seq(|log|, k requires 0 <= k < |log| => RowProjection(log[k]));
    var rows := FirstOccurrences(projected);
    var keys := FirstFields(rows);
    assert forall x :: x in keys <==> exists e :: e in log && e.key == x by {
      forall x | x in keys ensures exists e :: e in log && e.key == x {
        var k :| 0 <= k < |keys| && keys[k] == x;
        assert rows[k] in projected;
        var p :| 0 <= p < |projected| && projected[p] == rows[k];
        assert log[p] in log && log[p].key == x;
      }
      forall x | exists e :: e in log && e.key == x ensures x in keys {
        var e :| e in log && e.key == x;
        var p :| 0 <= p < |log| && log[p] == e;
        assert projected[p] in rows;
        var k :| 0 <= k < |rows| && rows[k] == projected[p];
        assert keys[k] == x;
      }
    }
    keys
  }

  /** The distinct projected rows of the events of `key`. */
  ghost function ProjectionsOf(log: seq<Event>, key: string): set<(string, string, string, int)>
  {
    set e | e in log && e.key == key :: RowProjection(e)
  }

  /** The rows carrying `key`, as a set. */
  ghost function RowsWithKey(rows: seq<(string, string, string, int)>, key: string): set<(string, string, string, int)>
  {
    set x | x in rows && x.0 == key
  }

  lemma RowsWithKeyStep(init: seq<(string, string, string, int)>, last: (string, string, string, int), key: string)
    ensures RowsWithKey(init + [last], key)
            == RowsWithKey(init, key) + (if last.0 == key then {last} else {})
  {
  }

  predicate DistinctRows(rows: seq<(string, string, string, int)>)
  {
    forall p, q :: 0 <= p < q < |rows| ==> rows[p] != rows[q]
  }

  lemma DistinctInit(rows: seq<(string, string, string, int)>)
    requires |rows| > 0 && DistinctRows(rows)
    ensures DistinctRows(rows[..|rows| - 1])
    ensures rows[|rows| - 1] !in rows[..|rows| - 1]
  {
    var n := |rows| - 1;
    assert forall j :: 0 <= j < n ==> rows[..n][j] == rows[j];
  }

  /** Over distinct rows, a key occurs once per row that carries it. */
  lemma {:induction false} FirstFieldsCount(rows: seq<(string, string, string, int)>, key: string)
    requires DistinctRows(rows)
    ensures multiset(FirstFields(rows))[key] == |RowsWithKey(rows, key)|
    decreases |rows|
  {
    if |rows| > 0 {
      var n := |rows| - 1;
      var init, last := rows[..n], rows[n];
      DistinctInit(rows);
      FirstFieldsCount(init, key);
      assert FirstFields(rows) == FirstFields(init) + [last.0];
      assert rows == init + [last];
      RowsWithKeyStep(init, last, key);
      assert last !in RowsWithKey(init, key);
    }
  }

  /** The application list holds each key once for every distinct
      (key, user, activity, timestamp) event of that key: repeated keys are
      not merged. */
  lemma AppListCounts(log: seq<Event>, key: string)
    ensures multiset(AppList(log))[key] == |ProjectionsOf(log, key)|
  {
    var projected := seq(|log|, k requires 0 <= k < |log| => RowProjection(log[k]));
    var rows := FirstOccurrences(projected);
    FirstFieldsCount(rows, key);
    var s := RowsWithKey(rows, key);
    forall x ensures x in s <==> x in ProjectionsOf(log, key) {
      if x in s {
        var p :| 0 <= p < |projected| && projected[p] == x;
        assert log[p] in log;
      }
      if x in ProjectionsOf(log, key) {
        var e :| e in log && e.key == key && RowProjection(e) == x;
        var p :| 0 <= p < |log| && log[p] == e;
        assert projected[p] == x;
      }
    }
    assert s == ProjectionsOf(log, key);
  }

  /** Two different events of one application put its key twice in the list. */
  lemma AppListRepeats(log: seq<Event>, i: nat, j: nat)
    requires i < |log| && j < |log| && log[i].key == log[j].key
    requires RowProjection(log[i]) != RowProjection(log[j])
    ensures multiset(AppList(log))[log[i].key] >= 2
  {
    var key := log[i].key;
    AppListCounts(log, key);
    var two := {RowProjection(log[i]), RowProjection(log[j])};
    assert log[i] in log && log[j] in log;
    var all := ProjectionsOf(log, key);
    assert two <= all;
    var rest := all - two;
    assert all == two + rest && two !! rest;
    assert |all| == |two| + |rest|;
  }

  /** The distinct lengths of the keys in order of first appearance: the
      iteration order of the dictionary `app_lengths`. */
  function LengthOrder(keys: seq<string>): seq<nat>
    decreases |keys|
  {
    if |keys| == 0 then []
    else
      var prev := LengthOrder(keys[..|keys| - 1]);
      var last := keys[|keys| - 1];
      if |last| in prev then prev else prev + [|last|]
  }

  /** The dictionary has one entry per length that occurs, and each once. */
  lemma {:induction false} LengthOrderLists(keys: seq<string>)
    ensures forall n :: n in LengthOrder(keys) <==> exists k :: k in keys && |k| == n
    ensures forall p, q :: 0 <= p < q < |LengthOrder(keys)| ==> LengthOrder(keys)[p] != LengthOrder(keys)[q]
    decreases |keys|
  {
    if |keys| > 0 {
      var prefix := keys[..|keys| - 1];
      assert keys == prefix + [keys[|keys| - 1]];
      LengthOrderLists(prefix);
    }
  }

  /** The keys of length `n`, in list order: the list `app_lengths[n]`. Every
      occurrence of a key of that length is kept. */
  function Bucket(keys: seq<string>, n: nat): seq<string>
    decreases |keys|
  {
    if |keys| == 0 then []
    else
      var last := keys[|keys| - 1];
      Bucket(keys[..|keys| - 1], n) + (if |last| == n then [last] else [])
  }

  /** A block holds exactly the keys of its length. */
  lemma {:induction false} BucketMembers(keys: seq<string>, n: nat)
    ensures forall k :: k in Bucket(keys, n) <==> k in keys && |k| == n
    decreases |keys|
  {
    if |keys| > 0 {
      var prefix := keys[..|keys| - 1];
      assert keys == prefix + [keys[|keys| - 1]];
      BucketMembers(prefix, n);
    }
  }

  /** A block keeps every occurrence of each of its keys. */
  lemma {:induction false} BucketKeepsOccurrences(keys: seq<string>, n: nat)
    ensures forall k :: |k| == n ==> multiset(Bucket(keys, n))[k] == multiset(keys)[k]
    decreases |keys|
  {
    if |keys| > 0 {
      var last := keys[|keys| - 1];
      assert keys == keys[..|keys| - 1] + [last];
      assert multiset(keys) == multiset(keys[..|keys| - 1]) + multiset{last};
      BucketKeepsOccurrences(keys[..|keys| - 1], n);
    }
  }

  /** The block of a list without repetitions has no repetitions. */
  lemma {:induction false} BucketKeepsDistinct(keys: seq<string>, n: nat)
    requires forall p, q :: 0 <= p < q < |keys| ==> keys[p] != keys[q]
    ensures forall p, q :: 0 <= p < q < |Bucket(keys, n)| ==> Bucket(keys, n)[p] != Bucket(keys, n)[q]
    decreases |keys|
  {
    if |keys| > 0 {
      var last := keys[|keys| - 1];
      var prefix := keys[..|keys| - 1];
      assert keys == prefix + [last];
      BucketKeepsDistinct(prefix, n);
      BucketMembers(prefix, n);
      assert last !in prefix;
    }
  }

  /** After the first `i` keys: the lengths seen so far in order, and the list
      of each of them. */
  ghost predicate GroupedUpTo(keys: seq<string>, i: nat, lengths: seq<nat>, groups: map<nat, seq<string>>)
    requires i <= |keys|
  {
    && lengths == LengthOrder(keys[..i])
    && (forall n :: n in groups <==> n in lengths)
    && (forall n :: n in groups ==> groups[n] == Bucket(keys[..i], n))
  }

  function AddKey(groups: map<nat, seq<string>>, key: string): map<nat, seq<string>>
  {
    var withKey := if |key| in groups then groups else groups[|key| := []];
    withKey[|key| := withKey[|key|] + [key]]
  }

  lemma GroupStep(keys: seq<string>, i: nat, lengths: seq<nat>, groups: map<nat, seq<string>>)
    requires i < |keys|
    requires GroupedUpTo(keys, i, lengths, groups)
    ensures GroupedUpTo(keys, i + 1, if |keys[i]| in groups then lengths else lengths + [|keys[i]|],
                        AddKey(groups, keys[i]))
  {
    var n := |keys[i]|;
    var after := AddKey(groups, keys[i]);
    var newLengths := if n in groups then lengths else lengths + [n];
    LengthStep(keys, i);
    GroupDomainStep(keys, i, lengths, groups);
    GroupEntriesStep(keys, i, lengths, groups);
  }

  lemma GroupDomainStep(keys: seq<string>, i: nat, lengths: seq<nat>, groups: map<nat, seq<string>>)
    requires i < |keys|
    requires GroupedUpTo(keys, i, lengths, groups)
    ensures forall l :: l in AddKey(groups, keys[i]) <==> l in (if |keys[i]| in groups then lengths else lengths + [|keys[i]|])
  {
  }

  lemma GroupEntriesStep(keys: seq<string>, i: nat, lengths: seq<nat>, groups: map<nat, seq<string>>)
    requires i < |keys|
    requires GroupedUpTo(keys, i, lengths, groups)
    ensures forall l :: l in AddKey(groups, keys[i]) ==> AddKey(groups, keys[i])[l] == Bucket(keys[..i + 1], l)
  {
    forall l | l in AddKey(groups, keys[i]) ensures AddKey(groups, keys[i])[l] == Bucket(keys[..i + 1], l) {
      GroupEntryStep(keys, i, lengths, groups, l);
    }
  }

  lemma GroupEntryStep(keys: seq<string>, i: nat, lengths: seq<nat>, groups: map<nat, seq<string>>, l: nat)
    requires i < |keys|
    requires GroupedUpTo(keys, i, lengths, groups)
    requires l in AddKey(groups, keys[i])
    ensures AddKey(groups, keys[i])[l] == Bucket(keys[..i + 1], l)
  {
    BucketStep(keys, i, l);
    if l == |keys[i]| && l !in groups {
      EmptyBucket(keys[..i], l);
    }
  }

  lemma LengthStep(keys: seq<string>, i: nat)
    requires i < |keys|
    ensures LengthOrder(keys[..i + 1]) ==
              if |keys[i]| in LengthOrder(keys[..i]) then LengthOrder(keys[..i])
              else LengthOrder(keys[..i]) + [|keys[i]|]
  {
    assert keys[..i + 1][..i] == keys[..i];
  }

  lemma BucketStep(keys: seq<string>, i: nat, n: nat)
    requires i < |keys|
    ensures Bucket(keys[..i + 1], n) == Bucket(keys[..i], n) + (if |keys[i]| == n then [keys[i]] else [])
  {
    assert keys[..i + 1][..i] == keys[..i];
  }

  lemma EmptyBucket(keys: seq<string>, n: nat)
    requires n !in LengthOrder(keys)
    ensures Bucket(keys, n) == []
  {
    LengthOrderLists(keys);
    BucketMembers(keys, n);
  }

  /** The loop that fills `app_lengths`. */
  method GroupByLength(keys: seq<string>) returns (lengths: seq<nat>, groups: map<nat, seq<string>>)
    ensures lengths == LengthOrder(keys)
    ensures forall n :: n in groups <==> n in lengths
    ensures forall n :: n in groups ==> groups[n] == Bucket(keys, n)
  {
    lengths := [];
    groups := map[];
    for i := 0 to |keys|
      invariant GroupedUpTo(keys, i, lengths, groups)
    {
      var n := |keys[i]|;
      GroupStep(keys, i, lengths, groups);
      ghost var expected := AddKey(groups, keys[i]);
      if n !in groups {
        lengths := lengths + [n];
        groups := groups[n := []];
      }
      groups := groups[n := groups[n] + [keys[i]]];
      assert groups == expected;
    }
    assert keys[..|keys|] == keys;
  }

  /** The blocks in dictionary order, each as `sort()` leaves it. */
  function SortedBuckets(keys: seq<string>): seq<seq<string>>
  {
    var lengths := LengthOrder(keys);
    seq(|lengths|, b requires 0 <= b < |lengths| => SortedSeq(Bucket(keys, lengths[b])))
  }

  /** Every key of a block has the block's length. */
  lemma BucketsHaveOneLength(keys: seq<string>, b: nat, k: nat)
    requires b < |SortedBuckets(keys)| && k < |SortedBuckets(keys)[b]|
    ensures |SortedBuckets(keys)[b][k]| == LengthOrder(keys)[b]
    ensures SortedBuckets(keys)[b][k] in keys
  {
    var n := LengthOrder(keys)[b];
    var raw := Bucket(keys, n);
    var bucket := SortedSeq(raw);
    assert SortedBuckets(keys)[b] == bucket;
    assert bucket[k] in multiset(bucket);
    assert bucket[k] in multiset(raw);
    BucketMembers(keys, n);
  }

  /** The length pre-filter `abs(len(a) - len(b)) > 2` never rejects a pair:
      the two keys of a pair always come from one block. */
  lemma PreFilterNeverTaken(keys: seq<string>, b: nat, i: nat, j: nat)
    requires b < |SortedBuckets(keys)|
    requires i < |SortedBuckets(keys)[b]| && j < |SortedBuckets(keys)[b]|
    ensures Abs(|SortedBuckets(keys)[b][i]| - |SortedBuckets(keys)[b][j]|) == 0
  {
    BucketsHaveOneLength(keys, b, i);
    BucketsHaveOneLength(keys, b, j);
  }

  /* ---------------------------------------------------------------------- */
  /* One comparison and its features                                        */
  /* ---------------------------------------------------------------------- */

  /** What the output row of a pair says about the two traces: the first
      timestamps and users of the timestamp-ordered traces, and the activity
      similarity that is skipped for traces longer than ten events. */
  ghost predicate FeaturesOf(m: Matcher, c: Candidate)
  {
    && c.traceA == Trace(m.log, c.applicationA)
    && c.traceB == Trace(m.log, c.applicationB)
    && |c.traceA| > 0 && |c.traceB| > 0
    && c.timeDifferenceHours == (Abs(c.traceA[0].timestamp - c.traceB[0].timestamp) as real) / 3600.0
    && c.sameUser == (if c.traceA[0].user == c.traceB[0].user then 1.0 else 0.0)
    && c.activitySimilarity ==
         (if |c.traceA| <= 10 && |c.traceB| <= 10
          then m.ratio(JoinWithSpace(Activities(c.traceA)), JoinWithSpace(Activities(c.traceB)))
          else 0.0)
  }

  function Features(m: Matcher, a: string, b: string, similarity: real, traceA: seq<Event>, traceB: seq<Event>): Candidate
    requires |traceA| > 0 && |traceB| > 0
  {
    var timeDiff := Abs(traceA[0].timestamp - traceB[0].timestamp);
    var userSimilarity := if traceA[0].user == traceB[0].user then 1.0 else 0.0;
    var activitySimilarity :=
      if |traceA| <= 10 && |traceB| <= 10
      then m.ratio(JoinWithSpace(Activities(traceA)), JoinWithSpace(Activities(traceB)))
      else 0.0;
    Candidate(a, b, similarity, (timeDiff as real) / 3600.0, userSimilarity,
              activitySimilarity, traceA, traceB)
  }

  function ExtractFeatures(m: Matcher, a: string, b: string, similarity: real): (r: Option<Candidate>)
    ensures r.Some? <==> |Trace(m.log, a)| > 0 && |Trace(m.log, b)| > 0
    ensures r.Some? ==> && r.value.applicationA == a && r.value.applicationB == b
                        && r.value.stringSimilarity == similarity && FeaturesOf(m, r.value)
  {
    var traceA := Trace(m.log, a);
    var traceB := Trace(m.log, b);
    if |traceA| > 0 && |traceB| > 0 then Some(Features(m, a, b, similarity, traceA, traceB))
    else None
  }

  /** The features of every reported pair: a non-negative time difference
      between the earliest events of the two keys, a same-user flag that is 1.0
      exactly when the first users agree and 0.0 otherwise, and no activity
      similarity for a trace of more than ten events. */
  lemma FeatureFacts(m: Matcher, c: Candidate)
    requires FeaturesOf(m, c)
    ensures c.timeDifferenceHours >= 0.0
    ensures forall e :: e in m.log && e.key == c.applicationA ==> c.traceA[0].timestamp <= e.timestamp
    ensures forall e :: e in m.log && e.key == c.applicationB ==> c.traceB[0].timestamp <= e.timestamp
    ensures c.sameUser == 1.0 || c.sameUser == 0.0
    ensures c.sameUser == 1.0 <==> c.traceA[0].user == c.traceB[0].user
    ensures |c.traceA| > 10 || |c.traceB| > 10 ==> c.activitySimilarity == 0.0
  {
    forall e | e in m.log && e.key == c.applicationA ensures c.traceA[0].timestamp <= e.timestamp {
      TraceStartsEarliest(m.log, c.applicationA, e);
    }
    forall e | e in m.log && e.key == c.applicationB ensures c.traceB[0].timestamp <= e.timestamp {
      TraceStartsEarliest(m.log, c.applicationB, e);
    }
  }

  /** A reported pair: its similarity is the string similarity of its two keys
      and reaches the threshold, and its features are those of its traces. */
  ghost predicate Reported(m: Matcher, c: Candidate)
  {
    && c.stringSimilarity == m.ratio(c.applicationA, c.applicationB)
    && c.stringSimilarity >= m.threshold
    && FeaturesOf(m, c)
  }

  /** One iteration of the inner loop after the counter is incremented: the
      length pre-filter, the threshold and the trace guard. */
  function CompareKeys(m: Matcher, a: string, b: string): seq<Candidate>
  {
    if Abs(|a| - |b|) > 2 then []
    else
      var similarity := m.ratio(a, b);
      if similarity >= m.threshold then
        match ExtractFeatures(m, a, b, similarity)
        case Some(c) => [c]
        case None => []
      else []
  }

  /** A comparison reports at most one row, for the pair in the order given,
      and reports one exactly when the lengths differ by at most two, the
      similarity reaches the threshold and both keys have rows. */
  lemma CompareKeysReports(m: Matcher, a: string, b: string)
    ensures |CompareKeys(m, a, b)| <= 1
    ensures |CompareKeys(m, a, b)| == 1 ==>
              var c := CompareKeys(m, a, b)[0];
              c.applicationA == a && c.applicationB == b && Reported(m, c)
    ensures |CompareKeys(m, a, b)| == 0 <==>
              (Abs(|a| - |b|) > 2 || m.ratio(a, b) < m.threshold
               || |Trace(m.log, a)| == 0 || |Trace(m.log, b)| == 0)
  {
  }

  lemma CompareKeysCases(m: Matcher, a: string, b: string)
    ensures CompareKeys(m, a, b) ==
              if Abs(|a| - |b|) > 2 || m.ratio(a, b) < m.threshold
                 || |Trace(m.log, a)| == 0 || |Trace(m.log, b)| == 0 then []
              else [Features(m, a, b, m.ratio(a, b), Trace(m.log, a), Trace(m.log, b))]
  {
  }

  /* ---------------------------------------------------------------------- */
  /* The sliding window and the budgeted search                             */
  /* ---------------------------------------------------------------------- */

  /** The comparison of two keys, as a value, so that the search can be stated
      for any comparison and instantiated with `CompareKeys`. */
  type Comparison = (string, string) -> seq<Candidate>

  function Comparer(m: Matcher): Comparison
  {
    (a, b) => CompareKeys(m, a, b)
  }

  /** The end of the window of index `i`: `min(i + 50, len)`. */
  function WindowEnd(i: nat, n: nat): nat
  {
    if i + 50 <= n then i + 50 else n
  }

  /** The comparisons made by the window of index `i`. */
  function WindowSize(i: nat, n: nat): (w: nat)
    requires i < n
    ensures w <= 49
  {
    WindowEnd(i, n) - (i + 1)
  }

  /** The results of comparing the key at index `i` with the keys at the
      positions from `i + 1` up to, and not including, `j`. */
  function WindowUpTo(cmp: Comparison, bucket: seq<string>, i: nat, j: nat): seq<Candidate>
    requires i < j <= |bucket|
    decreases j
  {
    if j == i + 1 then [] else WindowUpTo(cmp, bucket, i, j - 1) + cmp(bucket[i], bucket[j - 1])
  }

  /** The results of the window of index `i`. */
  function Window(cmp: Comparison, bucket: seq<string>, i: nat): seq<Candidate>
    requires i < |bucket|
  {
    WindowUpTo(cmp, bucket, i, WindowEnd(i, |bucket|))
  }

  /** The outer loop over one sorted block from index `i` on: stop before an
      index once the budget is reached, and after a window once it is reached. */
  function ScanBucket(cmp: Comparison, bucket: seq<string>, i: nat, st: Scan, budget: int): Scan
    decreases |bucket| - i
  {
    if i >= |bucket| then st
    else if st.count >= budget then st
    else
      var next := Scan(st.count + WindowSize(i, |bucket|), st.results + Window(cmp, bucket, i));
      if next.count >= budget then next else ScanBucket(cmp, bucket, i + 1, next, budget)
  }

  lemma ScanBucketStep(cmp: Comparison, bucket: seq<string>, i: nat, st: Scan, budget: int)
    requires i < |bucket| && st.count < budget
    ensures var next := Scan(st.count + WindowSize(i, |bucket|), st.results + Window(cmp, bucket, i));
            ScanBucket(cmp, bucket, i, st, budget) == if next.count >= budget then next else ScanBucket(cmp, bucket, i + 1, next, budget)
  {
  }

  /** The loop over the blocks from block `b` on: blocks of fewer than two keys
      are skipped without a budget check, and the search ends after a block once
      the budget is reached. */
  function ScanBuckets(cmp: Comparison, buckets: seq<seq<string>>, b: nat, st: Scan, budget: int): Scan
    decreases |buckets| - b
  {
    if b >= |buckets| then st
    else if |buckets[b]| < 2 then ScanBuckets(cmp, buckets, b + 1, st, budget)
    else
      var next := ScanBucket(cmp, buckets[b], 0, st, budget);
      if next.count >= budget then next else ScanBuckets(cmp, buckets, b + 1, next, budget)
  }

  lemma ScanBucketsStep(cmp: Comparison, buckets: seq<seq<string>>, b: nat, st: Scan, budget: int)
    requires b < |buckets|
    ensures ScanBuckets(cmp, buckets, b, st, budget) ==
              if |buckets[b]| < 2 then ScanBuckets(cmp, buckets, b + 1, st, budget)
              else
                var next := ScanBucket(cmp, buckets[b], 0, st, budget);
                if next.count >= budget then next else ScanBuckets(cmp, buckets, b + 1, next, budget)
  {
  }

  /** `min(max_comparisons, len(app_list) * 10)`. */
  function Budget(maxComparisons: int, keys: seq<string>): int
  {
    Min(maxComparisons, |keys| * 10)
  }

  /** The whole search over a list of keys. */
  function Search(m: Matcher, keys: seq<string>, maxComparisons: int): Scan
  {
    ScanBuckets(Comparer(m), SortedBuckets(keys), 0, Scan(0, []), Budget(maxComparisons, keys))
  }

  /* ---------------------------------------------------------------------- */
  /* The same windows without a budget                                      */
  /* ---------------------------------------------------------------------- */

  /** All results of the windows of a block from index `i` on. */
  function BucketPairs(cmp: Comparison, bucket: seq<string>, i: nat): seq<Candidate>
    decreases |bucket| - i
  {
    if i >= |bucket| then [] else Window(cmp, bucket, i) + BucketPairs(cmp, bucket, i + 1)
  }

  /** The comparisons of the windows of a block of `n` keys from index `i` on. */
  function BucketComparisons(n: nat, i: nat): nat
    decreases n - i
  {
    if i >= n then 0 else WindowSize(i, n) + BucketComparisons(n, i + 1)
  }

  /** All results of all windows of the blocks from block `b` on. */
  function AllPairs(cmp: Comparison, buckets: seq<seq<string>>, b: nat): seq<Candidate>
    decreases |buckets| - b
  {
    if b >= |buckets| then [] else BucketPairs(cmp, buckets[b], 0) + AllPairs(cmp, buckets, b + 1)
  }

  /** All comparisons of all windows of the blocks from block `b` on. */
  function AllComparisons(buckets: seq<seq<string>>, b: nat): nat
    decreases |buckets| - b
  {
    if b >= |buckets| then 0 else BucketComparisons(|buckets[b]|, 0) + AllComparisons(buckets, b + 1)
  }

  /** A block of fewer than two keys has no window with a comparison in it. */
  lemma SmallBucketIsEmpty(cmp: Comparison, bucket: seq<string>)
    requires |bucket| < 2
    ensures BucketPairs(cmp, bucket, 0) == []
    ensures BucketComparisons(|bucket|, 0) == 0
  {
    if |bucket| == 1 {
      assert Window(cmp, bucket, 0) == [];
      assert BucketPairs(cmp, bucket, 1) == [];
    }
  }

  predicate IsPrefix<T(==)>(xs: seq<T>, ys: seq<T>)
  {
    |xs| <= |ys| && ys[..|xs|] == xs
  }

  /** `r` is what a loop started in state `st` can end in: it made at most
      `total` more comparisons, appended a prefix of `full` to the results, and,
      unless it stopped on the budget, made all `total` comparisons and
      appended all of `full`. */
  ghost predicate Extends(st: Scan, r: Scan, full: seq<Candidate>, total: nat, budget: int)
  {
    && st.count <= r.count <= st.count + total
    && |st.results| <= |r.results|
    && r.results[..|st.results|] == st.results
    && IsPrefix(r.results[|st.results|..], full)
    && (r.count < budget ==> r.count == st.count + total && r.results == st.results + full)
  }

  lemma ExtendsAfterStep(st: Scan, mid: Scan, r: Scan, w: seq<Candidate>, wn: nat,
                         rest: seq<Candidate>, restn: nat, budget: int)
    requires mid == Scan(st.count + wn, st.results + w)
    requires Extends(mid, r, rest, restn, budget)
    ensures Extends(st, r, w + rest, wn + restn, budget)
  {
    var tail := r.results[|mid.results|..];
    assert r.results == mid.results + tail;
    assert r.results == st.results + (w + tail);
    assert r.results[|st.results|..] == w + tail;
    assert (w + rest)[..|w + tail|] == w + tail by {
      assert rest[..|tail|] == tail;
    }
  }

  lemma ExtendsUnchanged(st: Scan, full: seq<Candidate>, total: nat, budget: int)
    requires st.count >= budget || (total == 0 && full == [])
    ensures Extends(st, st, full, total, budget)
  {
    assert st.results[|st.results|..] == [];
    assert st.results + [] == st.results;
  }

  lemma ExtendsByStep(st: Scan, w: seq<Candidate>, wn: nat, budget: int)
    ensures Extends(st, Scan(st.count + wn, st.results + w), w, wn, budget)
  {
    var r := Scan(st.count + wn, st.results + w);
    assert r.results[..|st.results|] == st.results;
    assert r.results[|st.results|..] == w;
  }

  lemma ExtendsStopped(st: Scan, r: Scan, w: seq<Candidate>, wn: nat,
                       rest: seq<Candidate>, restn: nat, budget: int)
    requires Extends(st, r, w, wn, budget)
    requires r.count >= budget
    ensures Extends(st, r, w + rest, wn + restn, budget)
  {
    var tail := r.results[|st.results|..];
    assert (w + rest)[..|tail|] == w[..|tail|];
  }

  lemma {:induction false} ScanBucketExtends(cmp: Comparison, bucket: seq<string>, i: nat, st: Scan, budget: int)
    ensures Extends(st, ScanBucket(cmp, bucket, i, st, budget), BucketPairs(cmp, bucket, i),
                    BucketComparisons(|bucket|, i), budget)
    decreases |bucket| - i
  {
    if i >= |bucket| || st.count >= budget {
      ExtendsUnchanged(st, BucketPairs(cmp, bucket, i), BucketComparisons(|bucket|, i), budget);
    } else {
      var w := Window(cmp, bucket, i);
      var wn := WindowSize(i, |bucket|);
      var next := Scan(st.count + wn, st.results + w);
      assert BucketPairs(cmp, bucket, i) == w + BucketPairs(cmp, bucket, i + 1);
      assert BucketComparisons(|bucket|, i) == wn + BucketComparisons(|bucket|, i + 1);
      ExtendsByStep(st, w, wn, budget);
      if next.count >= budget {
        assert ScanBucket(cmp, bucket, i, st, budget) == next;
        ExtendsStopped(st, next, w, wn, BucketPairs(cmp, bucket, i + 1),
                       BucketComparisons(|bucket|, i + 1), budget);
      } else {
        assert ScanBucket(cmp, bucket, i, st, budget) == ScanBucket(cmp, bucket, i + 1, next, budget);
        ScanBucketExtends(cmp, bucket, i + 1, next, budget);
        ExtendsAfterStep(st, next, ScanBucket(cmp, bucket, i + 1, next, budget), w, wn,
                         BucketPairs(cmp, bucket, i + 1), BucketComparisons(|bucket|, i + 1), budget);
      }
    }
  }

  lemma {:induction false} ScanBucketsExtends(cmp: Comparison, buckets: seq<seq<string>>, b: nat, st: Scan, budget: int)
    ensures Extends(st, ScanBuckets(cmp, buckets, b, st, budget), AllPairs(cmp, buckets, b),
                    AllComparisons(buckets, b), budget)
    decreases |buckets| - b
  {
    if b >= |buckets| {
    } else if |buckets[b]| < 2 {
      SmallBucketIsEmpty(cmp, buckets[b]);
      ScanBucketsExtends(cmp, buckets, b + 1, st, budget);
      assert AllPairs(cmp, buckets, b) == AllPairs(cmp, buckets, b + 1);
    } else {
      var bp := BucketPairs(cmp, buckets[b], 0);
      var bn := BucketComparisons(|buckets[b]|, 0);
      var next := ScanBucket(cmp, buckets[b], 0, st, budget);
      ScanBucketExtends(cmp, buckets[b], 0, st, budget);
      if next.count >= budget {
        ExtendsStopped(st, next, bp, bn, AllPairs(cmp, buckets, b + 1), AllComparisons(buckets, b + 1), budget);
      } else {
        ScanBucketsExtends(cmp, buckets, b + 1, next, budget);
        ExtendsAfterStep(st, next, ScanBuckets(cmp, buckets, b + 1, next, budget), bp, bn,
                         AllPairs(cmp, buckets, b + 1), AllComparisons(buckets, b + 1), budget);
      }
    }
  }

  /** The budget only truncates: the results are a prefix of the results of the
      same windows searched without a budget, the counter never exceeds the
      comparisons of all windows, and when the counter ends below the budget
      every window of every block was searched. */
  lemma SearchIsTruncation(m: Matcher, keys: seq<string>, maxComparisons: int)
    ensures var r := Search(m, keys, maxComparisons);
            && IsPrefix(r.results, AllPairs(Comparer(m), SortedBuckets(keys), 0))
            && 0 <= r.count <= AllComparisons(SortedBuckets(keys), 0)
            && (r.count < Budget(maxComparisons, keys) ==>
                  r.results == AllPairs(Comparer(m), SortedBuckets(keys), 0)
                  && r.count == AllComparisons(SortedBuckets(keys), 0))
  {
    ScanBucketsExtends(Comparer(m), SortedBuckets(keys), 0, Scan(0, []), Budget(maxComparisons, keys));
    var r := Search(m, keys, maxComparisons);
    var none: seq<Candidate> := [];
    assert r.results[|none|..] == r.results;
  }

  /** When the budget exceeds the comparisons of all windows, the search reports
      every pair of every window whose similarity reaches the threshold. */
  lemma SearchCompleteUnderBudget(m: Matcher, keys: seq<string>, maxComparisons: int)
    requires AllComparisons(SortedBuckets(keys), 0) < Budget(maxComparisons, keys)
    ensures Search(m, keys, maxComparisons).results == AllPairs(Comparer(m), SortedBuckets(keys), 0)
    ensures Search(m, keys, maxComparisons).count == AllComparisons(SortedBuckets(keys), 0)
  {
    SearchIsTruncation(m, keys, maxComparisons);
  }

  /* ---------------------------------------------------------------------- */
  /* The budget bound                                                        */
  /* ---------------------------------------------------------------------- */

  lemma {:induction false} ScanBucketBound(cmp: Comparison, bucket: seq<string>, i: nat, st: Scan, budget: int)
    requires st.count <= Max(0, budget + 48)
    ensures ScanBucket(cmp, bucket, i, st, budget).count <= Max(0, budget + 48)
    decreases |bucket| - i
  {
    if i < |bucket| && st.count < budget {
      var next := Scan(st.count + WindowSize(i, |bucket|), st.results + Window(cmp, bucket, i));
      if next.count < budget {
        ScanBucketBound(cmp, bucket, i + 1, next, budget);
      }
    }
  }

  lemma {:induction false} ScanBucketsBound(cmp: Comparison, buckets: seq<seq<string>>, b: nat, st: Scan, budget: int)
    requires st.count <= Max(0, budget + 48)
    ensures ScanBuckets(cmp, buckets, b, st, budget).count <= Max(0, budget + 48)
    decreases |buckets| - b
  {
    if b < |buckets| {
      if |buckets[b]| < 2 {
        ScanBucketsBound(cmp, buckets, b + 1, st, budget);
      } else {
        ScanBucketBound(cmp, buckets[b], 0, st, budget);
        var next := ScanBucket(cmp, buckets[b], 0, st, budget);
        if next.count < budget {
          ScanBucketsBound(cmp, buckets, b + 1, next, budget);
        }
      }
    }
  }

  /** The counter can pass the budget, because the budget is checked only
      between windows, but by at most 48: it never exceeds
      `max(0, budget + 48)`, and a budget of zero or less stops the search
      before its first comparison. */
  lemma SearchBudgetBound(m: Matcher, keys: seq<string>, maxComparisons: int)
    ensures Search(m, keys, maxComparisons).count <= Max(0, Budget(maxComparisons, keys) + 48)
    ensures Budget(maxComparisons, keys) <= 0 ==> Search(m, keys, maxComparisons).count == 0
  {
    ScanBucketsBound(Comparer(m), SortedBuckets(keys), 0, Scan(0, []), Budget(maxComparisons, keys));
    if Budget(maxComparisons, keys) <= 0 {
      ScanBucketsStopped(Comparer(m), SortedBuckets(keys), 0, Scan(0, []), Budget(maxComparisons, keys));
    }
  }

  lemma {:induction false} ScanBucketsStopped(cmp: Comparison, buckets: seq<seq<string>>, b: nat, st: Scan, budget: int)
    requires st.count >= budget
    ensures ScanBuckets(cmp, buckets, b, st, budget) == st
    decreases |buckets| - b
  {
    if b < |buckets| {
      ScanBucketsStopped(cmp, buckets, b + 1, st, budget);
    }
  }

  /* ---------------------------------------------------------------------- */
  /* What every reported pair satisfies                                      */
  /* ---------------------------------------------------------------------- */

  /** `c` compares index `i` of the block with a later index `j` at most 49
      positions on. */
  ghost predicate FromWindow(bucket: seq<string>, c: Candidate)
  {
    exists i, j :: 0 <= i < j < |bucket| && j < i + 50 && bucket[i] == c.applicationA && bucket[j] == c.applicationB
  }

  lemma {:induction false} WindowUpToSound(m: Matcher, bucket: seq<string>, i: nat, j: nat)
    requires i < j <= |bucket| && j <= i + 50
    ensures forall c :: c in WindowUpTo(Comparer(m), bucket, i, j) ==> FromWindow(bucket, c) && Reported(m, c)
    decreases j
  {
    if j > i + 1 {
      WindowUpToSound(m, bucket, i, j - 1);
      var here := CompareKeys(m, bucket[i], bucket[j - 1]);
      CompareKeysReports(m, bucket[i], bucket[j - 1]);
      forall c | c in here ensures FromWindow(bucket, c) && Reported(m, c) {
        assert c == here[0];
      }
    }
  }

  lemma {:induction false} BucketPairsSound(m: Matcher, bucket: seq<string>, i: nat)
    ensures forall c :: c in BucketPairs(Comparer(m), bucket, i) ==> FromWindow(bucket, c) && Reported(m, c)
    decreases |bucket| - i
  {
    if i < |bucket| {
      WindowUpToSound(m, bucket, i, WindowEnd(i, |bucket|));
      BucketPairsSound(m, bucket, i + 1);
    }
  }

  lemma {:induction false} AllPairsSound(m: Matcher, buckets: seq<seq<string>>, b: nat)
    ensures forall c :: c in AllPairs(Comparer(m), buckets, b) ==>
              Reported(m, c) && exists bi :: b <= bi < |buckets| && FromWindow(buckets[bi], c)
    decreases |buckets| - b
  {
    if b < |buckets| {
      BucketPairsSound(m, buckets[b], 0);
      AllPairsSound(m, buckets, b + 1);
    }
  }

  /** Every reported pair: its two keys have equal length and come from one
      block, A is at an index `i` and B at an index `j` with `i < j <= i + 49`
      of that sorted block, so A <= B; its similarity is that of its keys and
      reaches the threshold; and its features are those of its two traces. */
  lemma SearchSound(m: Matcher, keys: seq<string>, maxComparisons: int)
    ensures forall c :: c in Search(m, keys, maxComparisons).results ==>
              && |c.applicationA| == |c.applicationB|
              && LexLe(c.applicationA, c.applicationB)
              && c.applicationA in keys && c.applicationB in keys
              && Reported(m, c)
              && exists bi :: 0 <= bi < |SortedBuckets(keys)| && FromWindow(SortedBuckets(keys)[bi], c)
  {
    var buckets := SortedBuckets(keys);
    var results := Search(m, keys, maxComparisons).results;
    var all := AllPairs(Comparer(m), buckets, 0);
    SearchIsTruncation(m, keys, maxComparisons);
    AllPairsSound(m, buckets, 0);
    forall c | c in results
      ensures && |c.applicationA| == |c.applicationB|
              && LexLe(c.applicationA, c.applicationB)
              && c.applicationA in keys && c.applicationB in keys
              && Reported(m, c)
              && exists bi :: 0 <= bi < |buckets| && FromWindow(buckets[bi], c)
    {
      var k :| 0 <= k < |results| && results[k] == c;
      assert all[k] == c;
      assert c in all;
      var bi :| 0 <= bi < |buckets| && FromWindow(buckets[bi], c);
      WindowPairOrdered(keys, bi, c);
    }
  }

  /** The two keys of a window pair have one length, and A <= B. */
  lemma WindowPairOrdered(keys: seq<string>, bi: nat, c: Candidate)
    requires bi < |SortedBuckets(keys)| && FromWindow(SortedBuckets(keys)[bi], c)
    ensures |c.applicationA| == |c.applicationB|
    ensures LexLe(c.applicationA, c.applicationB)
    ensures c.applicationA in keys && c.applicationB in keys
  {
    var buckets := SortedBuckets(keys);
    var i, j :| 0 <= i < j < |buckets[bi]| && j < i + 50
                && buckets[bi][i] == c.applicationA && buckets[bi][j] == c.applicationB;
    BucketsHaveOneLength(keys, bi, i);
    BucketsHaveOneLength(keys, bi, j);
    assert buckets[bi] == SortedSeq(Bucket(keys, LengthOrder(keys)[bi]));
    assert Sorted(buckets[bi]);
  }

  /* ---------------------------------------------------------------------- */
  /* The imperative search                                                   */
  /* ---------------------------------------------------------------------- */

  /** The body of the inner loop after the counter is incremented: the length
      filter, the similarity threshold and the feature extraction. */
  method ComparePair(m: Matcher, appA: string, appB: string) returns (found: seq<Candidate>)
    ensures found == CompareKeys(m, appA, appB)
  {
    CompareKeysCases(m, appA, appB);
    found := [];
    if Abs(|appA| - |appB|) > 2 {
      return;
    }
    var similarity := m.ratio(appA, appB);
    if similarity >= m.threshold {
      var traceA := Trace(m.log, appA);
      var traceB := Trace(m.log, appB);
      if |traceA| > 0 && |traceB| > 0 {
        var timeDiff := Abs(traceA[0].timestamp - traceB[0].timestamp);
        var userSimilarity := if traceA[0].user == traceB[0].user then 1.0 else 0.0;
        var activitySimilarity :=
          if |traceA| <= 10 && |traceB| <= 10
          then m.ratio(JoinWithSpace(Activities(traceA)), JoinWithSpace(Activities(traceB)))
          else 0.0;
        var row := Candidate(appA, appB, similarity, (timeDiff as real) / 3600.0,
                             userSimilarity, activitySimilarity, traceA, traceB);
        assert row == Features(m, appA, appB, similarity, traceA, traceB);
        found := [row];
      }
    }
  }

  lemma WindowGrows(m: Matcher, keys: seq<string>, i: nat, j: nat, prefix: seq<Candidate>)
    requires i < j < |keys|
    ensures prefix + WindowUpTo(Comparer(m), keys, i, j) + CompareKeys(m, keys[i], keys[j])
         == prefix + WindowUpTo(Comparer(m), keys, i, j + 1)
  {
  }

  /** The inner loop of `detect_duplicates_optimized`: the key at index `i`
      against the keys of its window, counting every comparison. */
  method SearchWindow(m: Matcher, bucket: array<string>, i: nat, st: Scan) returns (r: Scan)
    requires i < bucket.Length
    ensures r.count == st.count + WindowSize(i, bucket.Length)
    ensures r.results == st.results + Window(Comparer(m), bucket[..], i)
  {
    ghost var keys := bucket[..];
    var count, results := st.count, st.results;
    var appA := bucket[i];
    var end := Min(i + 50, bucket.Length);
    for j := i + 1 to end
      invariant count == st.count + (j - (i + 1))
      invariant results == st.results + WindowUpTo(Comparer(m), keys, i, j)
    {
      var appB := bucket[j];
      WindowGrows(m, keys, i, j, st.results);
      count := count + 1;
      var found := ComparePair(m, appA, appB);
      results := results + found;
    }
    r := Scan(count, results);
  }

  /** The loop over the indices of one sorted block, with the budget checks
      before and after each window. */
  method SearchBucket(m: Matcher, bucket: array<string>, st: Scan, budget: int) returns (r: Scan)
    ensures r == ScanBucket(Comparer(m), bucket[..], 0, st, budget)
  {
    r := st;
    var i := 0;
    while i < bucket.Length
      invariant 0 <= i <= bucket.Length
      invariant ScanBucket(Comparer(m), bucket[..], i, r, budget) == ScanBucket(Comparer(m), bucket[..], 0, st, budget)
    {
      if r.count >= budget {
        break;
      }
      ghost var before := r;
      r := SearchWindow(m, bucket, i, r);
      ScanBucketStep(Comparer(m), bucket[..], i, before, budget);
      if r.count >= budget {
        break;
      }
      i := i + 1;
    }
  }

  /** `app_lengths[length].sort()`: the block copied into an array and sorted
      there. */
  method SortedCopy(group: seq<string>) returns (bucket: array<string>)
    ensures fresh(bucket)
    ensures bucket[..] == SortedSeq(group)
  {
    bucket := new string[|group|](k requires 0 <= k < |group| => group[k]);
    assert bucket[..] == group;
    SortInPlace(bucket);
  }

  /** The search of `detect_duplicates_optimized` over a given list of keys:
      blocking, in-place sort of every block of two or more keys, the windows
      with their counter, and the budget. */
  method SearchCandidates(m: Matcher, keys: seq<string>, maxComparisons: int)
    returns (results: seq<Candidate>, comparisons: int)
    ensures Scan(comparisons, results) == Search(m, keys, maxComparisons)
    ensures forall c :: c in results ==>
              && |c.applicationA| == |c.applicationB|
              && LexLe(c.applicationA, c.applicationB)
              && c.stringSimilarity >= m.threshold
    ensures 0 <= comparisons <= Max(0, Budget(maxComparisons, keys) + 48)
  {
    var lengths, groups := GroupByLength(keys);
    var budget := Min(maxComparisons, |keys| * 10);
    var st := Scan(0, []);
    ghost var buckets := SortedBuckets(keys);
    ghost var target := Search(m, keys, maxComparisons);
    var b := 0;
    while b < |lengths|
      invariant 0 <= b <= |lengths| == |buckets|
      invariant ScanBuckets(Comparer(m), buckets, b, st, budget) == target
    {
      var group := groups[lengths[b]];
      ScanBucketsStep(Comparer(m), buckets, b, st, budget);
      if |group| < 2 {
        b := b + 1;
        continue;
      }
      var bucket := SortedCopy(group);
      assert group == Bucket(keys, lengths[b]);
      st := SearchBucket(m, bucket, st, budget);
      if st.count >= budget {
        break;
      }
      b := b + 1;
    }
    results, comparisons := st.results, st.count;
    SearchBudgetBound(m, keys, maxComparisons);
    SearchIsTruncation(m, keys, maxComparisons);
    SearchSound(m, keys, maxComparisons);
  }

  /** `detect_duplicates_optimized(df, threshold, max_comparisons)` as written:
      the keys are taken one per distinct event row. `comparisons` is the count
      that the original prints at the end. */
  method DetectDuplicates(log: seq<Event>, threshold: real, maxComparisons: int, ratio: (string, string) -> real)
    returns (results: seq<Candidate>, comparisons: int)
    ensures Scan(comparisons, results) == Search(Matcher(log, threshold, ratio), AppList(log), maxComparisons)
    ensures forall c :: c in results ==>
              && |c.applicationA| == |c.applicationB|
              && LexLe(c.applicationA, c.applicationB)
              && c.stringSimilarity >= threshold
    ensures 0 <= comparisons <= Max(0, Budget(maxComparisons, AppList(log)) + 48)
  {
    results, comparisons := SearchCandidates(Matcher(log, threshold, ratio), AppList(log), maxComparisons);
  }

  /** Two distinct events of application 12345. */
  function TwoEventLog(): seq<Event>
  {
    [Event("12345", "u1", "A_SUBMITTED", 0, 0), Event("12345", "u1", "A_PARTLYSUBMITTED", 60, 0)]
  }

  lemma TwoEventKeys()
    ensures AppList(TwoEventLog()) == ["12345", "12345"]
  {
    var log := TwoEventLog();
    var projected := seq(|log|, k requires 0 <= k < |log| => RowProjection(log[k]));
    assert projected[..1] == [projected[0]];
    assert FirstOccurrences(projected[..1]) == [projected[0]];
    assert projected[1] !in [projected[0]];
    assert FirstOccurrences(projected) == [projected[0], projected[1]];
  }

  lemma RepeatedKeyLengths()
    ensures LengthOrder(["12345", "12345"]) == [5]
    ensures Bucket(["12345", "12345"], 5) == ["12345", "12345"]
  {
    var k := "12345";
    var one, two := [k], [k, k];
    assert two[..1] == one && one[..0] == [];
    assert LengthOrder(one) == [5];
    assert Bucket(one, 5) == one;
  }

  lemma RepeatedKeySorted()
    ensures SortedSeq(["12345", "12345"]) == ["12345", "12345"]
  {
    var k := "12345";
    var one, two := [k], [k, k];
    assert two[1..] == one && one[1..] == [];
    assert SortedSeq(one) == Insert(k, []) == one;
    LexLeReflexive(k);
    assert Insert(k, one) == [k] + one == two;
  }

  lemma RepeatedKeyBlock()
    ensures SortedBuckets(["12345", "12345"]) == [["12345", "12345"]]
  {
    RepeatedKeyLengths();
    RepeatedKeySorted();
  }

  /** A key whose trace has two distinct events is listed twice, the two copies
      are neighbours in the sorted block, and the pair of the key with itself is
      reported whenever the similarity of a key with itself reaches the
      threshold (rapidfuzz gives 100). */
  lemma SelfPairReported(ratio: (string, string) -> real)
    requires ratio("12345", "12345") == 100.0
    ensures var r := Search(Matcher(TwoEventLog(), 80.0, ratio), AppList(TwoEventLog()), 1000).results;
            |r| == 1 && r[0].applicationA == "12345" && r[0].applicationB == "12345"
  {
    var log := TwoEventLog();
    var m := Matcher(log, 80.0, ratio);
    var cmp := Comparer(m);
    var k := "12345";
    TwoEventKeys();
    RepeatedKeyBlock();
    var bucket := [k, k];
    TraceFacts(log, k);
    assert log[0] in log;
    CompareKeysReports(m, k, k);
    var window := Window(cmp, bucket, 0);
    assert window == WindowUpTo(cmp, bucket, 0, 1) + cmp(k, k);
    assert |window| == 1 && window[0].applicationA == k && window[0].applicationB == k;
    assert Window(cmp, bucket, 1) == [];
    ScanBucketStep(cmp, bucket, 0, Scan(0, []), 20);
    ScanBucketStep(cmp, bucket, 1, Scan(1, window), 20);
    assert ScanBucket(cmp, bucket, 0, Scan(0, []), 20) == Scan(1, window);
    ScanBucketsStep(cmp, [bucket], 0, Scan(0, []), 20);
  }

  /** The detector run on the distinct application numbers, which is what the
      blocking evidently intends: every key is listed once. */
  method DetectDuplicatesUniqueKeys(log: seq<Event>, threshold: real, maxComparisons: int, ratio: (string, string) -> real)
    returns (results: seq<Candidate>, comparisons: int)
    ensures Scan(comparisons, results) == Search(Matcher(log, threshold, ratio), UniqueKeys(log), maxComparisons)
    ensures forall c :: c in results ==>
              && c.applicationA != c.applicationB
              && |c.applicationA| == |c.applicationB|
              && LexLe(c.applicationA, c.applicationB)
              && c.stringSimilarity >= threshold
    ensures 0 <= comparisons <= Max(0, Budget(maxComparisons, UniqueKeys(log)) + 48)
  {
    results, comparisons := SearchCandidates(Matcher(log, threshold, ratio), UniqueKeys(log), maxComparisons);
    UniqueKeysNoSelfPairs(Matcher(log, threshold, ratio), log, maxComparisons);
  }

  /** Over distinct keys no key is ever paired with itself. */
  lemma UniqueKeysNoSelfPairs(m: Matcher, log: seq<Event>, maxComparisons: int)
    ensures forall c :: c in Search(m, UniqueKeys(log), maxComparisons).results ==>
              c.applicationA != c.applicationB
  {
    var keys := UniqueKeys(log);
    var buckets := SortedBuckets(keys);
    SearchSound(m, keys, maxComparisons);
    forall c | c in Search(m, keys, maxComparisons).results ensures c.applicationA != c.applicationB {
      var bi :| 0 <= bi < |buckets| && FromWindow(buckets[bi], c);
      var i, j :| 0 <= i < j < |buckets[bi]| && j < i + 50
                  && buckets[bi][i] == c.applicationA && buckets[bi][j] == c.applicationB;
      BucketKeepsDistinct(keys, LengthOrder(keys)[bi]);
      SortedSeqKeepsDistinct(Bucket(keys, LengthOrder(keys)[bi]));
    }
  }
}
