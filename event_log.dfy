/** The event table shared by every stage of the pipeline: one row per event of
    a loan application, with the helpers that the stages use to select rows
    (filtering by key, first-appearance de-duplication, the timestamp-ordered
    trace of a key). */
module EventLog {

  datatype Option<T> = None | Some(value: T)

  /** A computation that either yields a value or stops with the error that the
      original raises. */
  datatype Result<T> = Success(value: T) | Failure(error: string)

  /** The error of `.iloc[0]` on a selection with no row. */
  const NoRowError := "IndexError: single positional indexer is out-of-bounds"

  /** One row of the table. `key` is the application number (the pipeline sets
      `application_number` to `str(application_id)` and the generator rewrites
      both columns together, so one field stands for both), `user` the resource,
      `activity` the activity label, `timestamp` the time in whole seconds and
      `amount` the requested amount (`case:AMOUNT_REQ`). */
  datatype Event = Event(key: string, user: string, activity: string, timestamp: int, amount: int)

  function Abs(x: int): (r: nat)
    ensures r == x || r == -x
  {
    if x < 0 then -x else x
  }

  function Min(x: int, y: int): (r: int)
    ensures r <= x && r <= y && (r == x || r == y)
  {
    if x <= y then x else y
  }

  function Max(x: int, y: int): (r: int)
    ensures r >= x && r >= y && (r == x || r == y)
  {
    if x >= y then x else y
  }

  /** The elements of `xs` in order of first appearance, each once (pandas
      `unique()` and `drop_duplicates()`). */
  function FirstOccurrences<T(==,!new)>(xs: seq<T>): (r: seq<T>)
    ensures forall x :: x in r <==> x in xs
    ensures forall p, q :: 0 <= p < q < |r| ==> r[p] != r[q]
    ensures |r| <= |xs|
    decreases |xs|
  {
    if |xs| == 0 then []
    else
      var prev := FirstOccurrences(xs[..|xs| - 1]);
      assert xs == xs[..|xs| - 1] + [xs[|xs| - 1]];
      if xs[|xs| - 1] in prev then prev else prev + [xs[|xs| - 1]]
  }

  /** The position of the first occurrence of `x` in `xs`. */
  function FirstIndex<T(==)>(xs: seq<T>, x: T): (i: nat)
    requires x in xs
    ensures i < |xs| && xs[i] == x
    ensures forall j :: 0 <= j < i ==> xs[j] != x
    decreases |xs|
  {
    if xs[0] == x then 0
    else
      var i := 1 + FirstIndex(xs[1..], x);
      assert forall j :: 1 <= j < i ==> xs[j] == xs[1..][j - 1];
      i
  }

  /** An element of a prefix first occurs in the whole sequence where it
      first occurs in the prefix. */
  lemma FirstIndexPrefix<T>(xs: seq<T>, m: nat, x: T)
    requires m <= |xs| && x in xs[..m]
    ensures FirstIndex(xs, x) == FirstIndex(xs[..m], x)
  {
    var k := FirstIndex(xs[..m], x);
    assert xs[k] == x;
    assert forall j :: 0 <= j < m ==> xs[..m][j] == xs[j];
  }

  /** `FirstOccurrences` lists the elements in the order of their first
      appearance in `xs`. */
  lemma {:induction false} FirstOccurrencesOrder<T(!new)>(xs: seq<T>)
    ensures forall p, q :: 0 <= p < q < |FirstOccurrences(xs)| ==>
              FirstIndex(xs, FirstOccurrences(xs)[p]) < FirstIndex(xs, FirstOccurrences(xs)[q])
    decreases |xs|
  {
    if |xs| > 0 {
      var n := |xs| - 1;
      var init, last := xs[..n], xs[n];
      var prev := FirstOccurrences(init);
      var r := FirstOccurrences(xs);
      FirstOccurrencesOrder(init);
      forall y | y in prev ensures FirstIndex(xs, y) == FirstIndex(init, y) < n {
        FirstIndexPrefix(xs, n, y);
      }
      if last !in prev {
        assert r == prev + [last];
        assert forall j :: 0 <= j < n ==> init[j] == xs[j];
      } else {
        assert r == prev;
      }
    }
  }

  /** The keys of the rows, in row order. */
  function Keys(log: seq<Event>): (r: seq<string>)
    ensures |r| == |log|
    ensures forall k :: 0 <= k < |log| ==> r[k] == log[k].key
  {
    seq(|log|, k requires 0 <= k < |log| => log[k].key)
  }

  /** The distinct keys of the log in order of first appearance
      (`df['application_id'].unique()`). */
  function UniqueKeys(log: seq<Event>): (r: seq<string>)
    ensures forall x :: x in r <==> exists e :: e in log && e.key == x
    ensures forall p, q :: 0 <= p < q < |r| ==> r[p] != r[q]
  {
    var ks := Keys(log);
    assert forall x :: x in ks <==> exists e :: e in log && e.key == x by {
      forall x | x in ks ensures exists e :: e in log && e.key == x {
        var k :| 0 <= k < |ks| && ks[k] == x;
        assert log[k] in log;
      }
      forall x | exists e :: e in log && e.key == x ensures x in ks {
        var e :| e in log && e.key == x;
        var k :| 0 <= k < |log| && log[k] == e;
        assert ks[k] == x;
      }
    }
    FirstOccurrences(ks)
  }

  /** The distinct users of the log in order of first appearance
      (`df['user'].dropna().unique()`). */
  function DistinctUsers(log: seq<Event>): (r: seq<string>)
    ensures forall u :: u in r <==> exists e :: e in log && e.user == u
    ensures forall p, q :: 0 <= p < q < |r| ==> r[p] != r[q]
  {
    var us := seq(|log|, k requires 0 <= k < |log| => log[k].user);
    assert forall u :: u in us <==> exists e :: e in log && e.user == u by {
      forall u | u in us ensures exists e :: e in log && e.user == u {
        var k :| 0 <= k < |us| && us[k] == u;
        assert log[k] in log;
      }
      forall u | exists e :: e in log && e.user == u ensures u in us {
        var e :| e in log && e.user == u;
        var k :| 0 <= k < |log| && log[k] == e;
        assert us[k] == u;
      }
    }
    FirstOccurrences(us)
  }

  /** The rows whose key is `key`, in table order (`df[df[col] == key]`). */
  function RowsOf(log: seq<Event>, key: string): seq<Event>
    decreases |log|
  {
    if |log| == 0 then []
    else RowsOf(log[..|log| - 1], key) + (if log[|log| - 1].key == key then [log[|log| - 1]] else [])
  }

  /** Exactly the rows with that key are selected. */
  lemma {:induction false} RowsOfSelects(log: seq<Event>, key: string)
    ensures forall e :: e in RowsOf(log, key) <==> e in log && e.key == key
    decreases |log|
  {
    if |log| > 0 {
      assert log == log[..|log| - 1] + [log[|log| - 1]];
      RowsOfSelects(log[..|log| - 1], key);
    }
  }

  /** Every row with that key is selected as often as the table holds it, and
      no other row is. */
  lemma {:induction false} RowsOfOccurrences(log: seq<Event>, key: string)
    ensures forall e :: multiset(RowsOf(log, key))[e] == if e.key == key then multiset(log)[e] else 0
    decreases |log|
  {
    if |log| > 0 {
      var init, last := log[..|log| - 1], log[|log| - 1];
      assert log == init + [last];
      RowsOfOccurrences(init, key);
    }
  }

  predicate SortedByTime(s: seq<Event>)
  {
    forall p, q :: 0 <= p < q < |s| ==> s[p].timestamp <= s[q].timestamp
  }

  /** One step of a stable insertion sort: `e` goes before the first row that is
      not earlier than it, so ahead of the rows with its own timestamp. */
  function InsertByTime(e: Event, s: seq<Event>): seq<Event>
    decreases |s|
  {
    if |s| == 0 then [e]
    else if e.timestamp <= s[0].timestamp then [e] + s
    else [s[0]] + InsertByTime(e, s[1..])
  }

  lemma {:induction false} InsertByTimeSorts(e: Event, s: seq<Event>)
    requires SortedByTime(s)
    ensures SortedByTime(InsertByTime(e, s))
    ensures multiset(InsertByTime(e, s)) == multiset(s) + multiset{e}
    decreases |s|
  {
    if |s| == 0 {
    } else if e.timestamp <= s[0].timestamp {
      assert forall k :: 0 <= k < |s| ==> e.timestamp <= s[k].timestamp;
    } else {
      assert s == [s[0]] + s[1..];
      var rest := InsertByTime(e, s[1..]);
      InsertByTimeSorts(e, s[1..]);
      LaterRowsNotEarlier(s[0], e, s[1..], rest);
    }
  }

  lemma LaterRowsNotEarlier(first: Event, e: Event, tail: seq<Event>, rest: seq<Event>)
    requires first.timestamp < e.timestamp
    requires forall k :: 0 <= k < |tail| ==> first.timestamp <= tail[k].timestamp
    requires SortedByTime(rest)
    requires multiset(rest) == multiset(tail) + multiset{e}
    ensures SortedByTime([first] + rest)
  {
    var r := [first] + rest;
    forall k | 0 <= k < |rest| ensures first.timestamp <= rest[k].timestamp {
      assert rest[k] in multiset(rest);
      if rest[k] != e {
        assert rest[k] in multiset(tail);
        var m :| 0 <= m < |tail| && tail[m] == rest[k];
      }
    }
    forall p, q | 0 <= p < q < |r| ensures r[p].timestamp <= r[q].timestamp {
      assert r[q] == rest[q - 1];
      if p > 0 {
        assert r[p] == rest[p - 1];
      }
    }
  }

  /** The `sort_values('timestamp')` of a set of rows: a stable sort by
      timestamp. */
  function SortByTime(s: seq<Event>): seq<Event>
    decreases |s|
  {
    if |s| == 0 then [] else InsertByTime(s[0], SortByTime(s[1..]))
  }

  /** The sort orders the rows by timestamp and keeps every row. */
  lemma {:induction false} SortByTimeSorts(s: seq<Event>)
    ensures SortedByTime(SortByTime(s))
    ensures multiset(SortByTime(s)) == multiset(s)
    decreases |s|
  {
    if |s| > 0 {
      assert s == [s[0]] + s[1..];
      SortByTimeSorts(s[1..]);
      InsertByTimeSorts(s[0], SortByTime(s[1..]));
    }
  }

  /** The trace of a key: its rows ordered by timestamp. */
  function Trace(log: seq<Event>, key: string): seq<Event>
  {
    SortByTime(RowsOf(log, key))
  }

  /** A trace holds exactly the rows of its key, in timestamp order. */
  lemma TraceFacts(log: seq<Event>, key: string)
    ensures forall e :: e in Trace(log, key) <==> e in log && e.key == key
    ensures SortedByTime(Trace(log, key))
  {
    var rows := RowsOf(log, key);
    var t := SortByTime(rows);
    RowsOfSelects(log, key);
    SortByTimeSorts(rows);
    forall e ensures e in t <==> e in rows {
      assert e in t <==> e in multiset(t);
      assert e in rows <==> e in multiset(rows);
    }
  }

  /** A trace keeps every row of its key as often as the table holds it, so it
      is exactly as long as the selection. */
  lemma TraceOccurrences(log: seq<Event>, key: string)
    ensures forall e :: multiset(Trace(log, key))[e] == if e.key == key then multiset(log)[e] else 0
    ensures |Trace(log, key)| == |RowsOf(log, key)|
  {
    RowsOfOccurrences(log, key);
    SortByTimeSorts(RowsOf(log, key));
    assert |multiset(Trace(log, key))| == |multiset(RowsOf(log, key))|;
  }

  /** The first row of a non-empty trace carries the earliest timestamp of all
      rows with that key. */
  lemma TraceStartsEarliest(log: seq<Event>, key: string, e: Event)
    requires e in log && e.key == key
    ensures |Trace(log, key)| > 0
    ensures Trace(log, key)[0].timestamp <= e.timestamp
  {
    var t := Trace(log, key);
    TraceFacts(log, key);
    assert e in t;
    var k :| 0 <= k < |t| && t[k] == e;
    if k > 0 {
      assert t[0].timestamp <= t[k].timestamp;
    }
  }

  /** The activities of a trace, in trace order. */
  function Activities(t: seq<Event>): (r: seq<string>)
    ensures |r| == |t|
    ensures forall k :: 0 <= k < |t| ==> r[k] == t[k].activity
  {
    seq(|t|, k requires 0 <= k < |t| => t[k].activity)
  }

  /** `' '.join(words)`. */
  function JoinWithSpace(words: seq<string>): string
    decreases |words|
  {
    if |words| == 0 then ""
    else if |words| == 1 then words[0]
    else words[0] + " " + JoinWithSpace(words[1..])
  }
}
