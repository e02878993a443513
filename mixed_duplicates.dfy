/** The synthetic duplicate generator: a sample of applications is split into a
    fuzzy-detectable group and a non-fuzzy-detectable group, each sampled trace
    is cloned three times under a transformed key with a uniform time offset
    and, for some copies, another user; afterwards the generated rows are
    marked with whether the detector reported their key. Every random choice
    (`random.sample`, `random.randint`, `random.choice`) is an input. */
module MixedDuplicates {
  import opened EventLog
  import opened KeyVariations
  import opened DuplicateDetection

  /** One generated row: the cloned event and the three metadata columns
      `duplicate_type`, `variation_type` and `original_application_id`. */
  datatype DuplicateRow = DuplicateRow(event: Event, duplicateType: string, variationType: string,
                                       originalApplicationId: string)

  /** The random choices behind one copy: the edit position, the digit
      increment, the insert-or-delete operation, the inserted character, the
      index of the chosen user and the `randint` of the time offset (in the
      copy's own unit). A transformer ignores the fields it does not draw. */
  datatype Draw = Draw(pos: nat, shift: nat, insert: bool, ch: char, userPick: nat, offset: int)

  const FuzzyDetectable := "fuzzy_detectable"
  const NonFuzzyDetectable := "non_fuzzy_detectable"

  // The six kinds of copy: `fuzzy` and `v` in 1..3 (`variation_type`)

  function TypeLabel(fuzzy: bool): string
  {
    if fuzzy then FuzzyDetectable else NonFuzzyDetectable
  }

  /** `f'fuzzy_{v}'` or `f'non_fuzzy_{v}'`. */
  function VariationLabel(fuzzy: bool, v: nat): string
    requires 1 <= v <= 3
  {
    (if fuzzy then "fuzzy_" else "non_fuzzy_") + [DigitChar(v)]
  }

  /** The `randint` bounds of each copy's offset and their unit in seconds:
      minutes 5..30, minutes 10..60, hours 1..3 for the fuzzy copies; hours 2..8,
      days 1..3, hours 1..6 for the others. */
  function OffsetLow(fuzzy: bool, v: nat): int
  {
    if fuzzy then (if v == 1 then 5 else if v == 2 then 10 else 1)
    else (if v == 1 then 2 else 1)
  }

  function OffsetHigh(fuzzy: bool, v: nat): int
  {
    if fuzzy then (if v == 1 then 30 else if v == 2 then 60 else 3)
    else (if v == 1 then 8 else if v == 2 then 3 else 6)
  }

  function OffsetUnit(fuzzy: bool, v: nat): nat
  {
    if fuzzy then (if v == 3 then 3600 else 60)
    else (if v == 2 then 86400 else 3600)
  }

  /** fuzzy_2, non_fuzzy_1 and non_fuzzy_3 hand the copy to another user. */
  predicate ChangesUser(fuzzy: bool, v: nat)
  {
    if fuzzy then v == 2 else v != 2
  }

  /** The draws the source can make for a copy of `key`. */
  predicate DrawFits(key: string, fuzzy: bool, v: nat, d: Draw)
  {
    && OffsetLow(fuzzy, v) <= d.offset <= OffsetHigh(fuzzy, v)
    && (fuzzy && v == 1 ==> (|key| >= 3 ==> d.pos < |key|) && 1 <= d.shift <= 9)
    && (fuzzy && v == 2 ==>
          && (|key| >= 2 && d.insert && |key| < 10 ==> d.pos <= |key| && IsAlphanumeric(d.ch))
          && (|key| >= 2 && !(d.insert && |key| < 10) ==> d.pos < |key|))
    && (fuzzy && v == 3 ==> (|key| >= 2 ==> d.pos <= |key| - 2))
  }

  /** The key of a copy: one of the six transformers of the original key. */
  function NewKey(key: string, fuzzy: bool, v: nat, d: Draw, hash: string -> int): string
    requires 1 <= v <= 3 && DrawFits(key, fuzzy, v, d)
  {
    if fuzzy then
      if v == 1 then TypoVariation(key, d.pos, d.shift)
      else if v == 2 then InsertDeleteVariation(key, d.insert, d.pos, d.ch)
      else TranspositionVariation(key, d.pos)
    else
      if v == 1 then SemanticVariation(key, hash)
      else if v == 2 then FormatVariation(key, hash)
      else SystemVariation(key, hash)
  }

  // Users

  /** `[u for u in users if u != user]`. */
  function Without(users: seq<string>, user: string): (r: seq<string>)
    ensures forall u :: u in r <==> u in users && u != user
    decreases |users|
  {
    if |users| == 0 then []
    else
      assert users == users[..|users| - 1] + [users[|users| - 1]];
      Without(users[..|users| - 1], user) + (if users[|users| - 1] != user then [users[|users| - 1]] else [])
  }

  /** The users of the table other than `user`, in order of first appearance. */
  function OtherUsers(log: seq<Event>, user: string): seq<string>
  {
    Without(DistinctUsers(log), user)
  }

  const NoUserError := "IndexError: Cannot choose from an empty sequence"

  /** `random.choice` among the users that differ from the first row's user,
      `pick` selecting one of them. */
  function ChosenUser(log: seq<Event>, rows: seq<Event>, pick: nat): Result<string>
  {
    if |rows| == 0 then Failure(NoRowError)
    else
      var others := OtherUsers(log, rows[0].user);
      if |others| == 0 then Failure(NoUserError) else Success(others[pick % |others|])
  }

  /** A chosen user is a user of the table, and not the first row's user. */
  lemma ChosenUserFacts(log: seq<Event>, rows: seq<Event>, pick: nat)
    ensures ChosenUser(log, rows, pick).Success? <==>
              |rows| > 0 && exists e :: e in log && e.user != rows[0].user
    ensures ChosenUser(log, rows, pick).Success? ==>
              ChosenUser(log, rows, pick).value != rows[0].user
              && exists e :: e in log && e.user == ChosenUser(log, rows, pick).value
  {
    if |rows| > 0 {
      var others := OtherUsers(log, rows[0].user);
      if |others| > 0 {
        assert others[pick % |others|] in others;
      } else {
        forall e | e in log ensures e.user == rows[0].user {
          assert e.user in DistinctUsers(log);
          assert e.user !in others;
        }
      }
    }
  }

  // One copy of a trace

  /** The rows of the copy: every row of the original with the new key, the
      given user (or its own), the timestamp moved by `offset` seconds and the
      three metadata columns. */
  function CopyRows(rows: seq<Event>, newKey: string, user: Option<string>, offset: int,
                    fuzzy: bool, v: nat, original: string): seq<DuplicateRow>
    requires 1 <= v <= 3
  {
    seq(|rows|, k requires 0 <= k < |rows| =>
      DuplicateRow(
        Event(newKey, if user.Some? then user.value else rows[k].user, rows[k].activity,
              rows[k].timestamp + offset, rows[k].amount),
        TypeLabel(fuzzy), VariationLabel(fuzzy, v), original))
  }

  /** One pass of the inner `for variation_type in range(1, 4)` loop. */
  function Copy(log: seq<Event>, key: string, fuzzy: bool, v: nat, d: Draw, hash: string -> int)
    : Result<seq<DuplicateRow>>
    requires 1 <= v <= 3 && DrawFits(key, fuzzy, v, d)
  {
    var rows := RowsOf(log, key);
    var newKey := NewKey(key, fuzzy, v, d, hash);
    var offset := d.offset * OffsetUnit(fuzzy, v);
    if ChangesUser(fuzzy, v) then
      match ChosenUser(log, rows, d.userPick)
      case Failure(e) => Failure(e)
      case Success(u) => Success(CopyRows(rows, newKey, Some(u), offset, fuzzy, v, key))
    else Success(CopyRows(rows, newKey, None, offset, fuzzy, v, key))
  }

  /** The table has a user other than the first user of `key`'s rows. */
  predicate HasOtherUser(log: seq<Event>, key: string)
  {
    |RowsOf(log, key)| > 0 && exists e :: e in log && e.user != RowsOf(log, key)[0].user
  }

  /** A copy fails only when it must change the user and nobody else is in
      the table; otherwise it holds one row per row of the original. */
  lemma CopyOutcome(log: seq<Event>, key: string, fuzzy: bool, v: nat, d: Draw, hash: string -> int)
    requires 1 <= v <= 3 && DrawFits(key, fuzzy, v, d)
    ensures Copy(log, key, fuzzy, v, d, hash).Failure? <==> ChangesUser(fuzzy, v) && !HasOtherUser(log, key)
    ensures Copy(log, key, fuzzy, v, d, hash).Success? ==>
              |Copy(log, key, fuzzy, v, d, hash).value| == |RowsOf(log, key)|
  {
    ChosenUserFacts(log, RowsOf(log, key), d.userPick);
  }

  /** The rows of a copy, in table order: the new key, the same activity and
      amount, every timestamp moved by the same offset within the copy's range
      (so the gaps between rows are kept), the labels of its kind, and either
      each row's own user or one other user for the whole copy. */
  lemma CopyFacts(log: seq<Event>, key: string, fuzzy: bool, v: nat, d: Draw, hash: string -> int)
    requires 1 <= v <= 3 && DrawFits(key, fuzzy, v, d)
    requires Copy(log, key, fuzzy, v, d, hash).Success?
    ensures var rows := RowsOf(log, key);
            var c := Copy(log, key, fuzzy, v, d, hash).value;
        && |c| == |rows|
        && OffsetLow(fuzzy, v) * OffsetUnit(fuzzy, v) <= d.offset * OffsetUnit(fuzzy, v)
           <= OffsetHigh(fuzzy, v) * OffsetUnit(fuzzy, v)
        && (forall k :: 0 <= k < |rows| ==>
              && c[k].event.key == NewKey(key, fuzzy, v, d, hash)
              && c[k].event.activity == rows[k].activity
              && c[k].event.amount == rows[k].amount
              && c[k].event.timestamp == rows[k].timestamp + d.offset * OffsetUnit(fuzzy, v)
              && c[k].duplicateType == TypeLabel(fuzzy)
              && c[k].variationType == VariationLabel(fuzzy, v)
              && c[k].originalApplicationId == key
              && (!ChangesUser(fuzzy, v) ==> c[k].event.user == rows[k].user)
              && (ChangesUser(fuzzy, v) ==> c[k].event.user == ChosenUser(log, rows, d.userPick).value))
        && (forall p, q :: 0 <= p < |rows| && 0 <= q < |rows| ==>
              c[p].event.timestamp - c[q].event.timestamp == rows[p].timestamp - rows[q].timestamp)
  {
    var lo, hi, unit := OffsetLow(fuzzy, v), OffsetHigh(fuzzy, v), OffsetUnit(fuzzy, v);
    assert lo * unit <= d.offset * unit <= hi * unit by {
      assert (d.offset - lo) * unit >= 0 && (hi - d.offset) * unit >= 0;
    }
  }

  // The accumulation of copies

  /** `duplicates.append` after a step that may raise: the first error wins. */
  function Then(a: Result<seq<DuplicateRow>>, b: Result<seq<DuplicateRow>>): Result<seq<DuplicateRow>>
  {
    if a.Failure? then a else if b.Failure? then b else Success(a.value + b.value)
  }

  /** The steps `rs` run one after the other, their rows appended in order. */
  function ThenAll(rs: seq<Result<seq<DuplicateRow>>>): Result<seq<DuplicateRow>>
    decreases |rs|
  {
    if |rs| == 0 then Success([]) else Then(ThenAll(rs[..|rs| - 1]), rs[|rs| - 1])
  }

  /** One more step. */
  lemma ThenAllStep(rs: seq<Result<seq<DuplicateRow>>>, k: nat)
    requires k < |rs|
    ensures ThenAll(rs[..k + 1]) == Then(ThenAll(rs[..k]), rs[k])
  {
    assert rs[..k + 1][..k] == rs[..k];
  }

  /** Once a step has failed, the later steps change nothing. */
  lemma {:induction false} ThenAllFailurePersists(rs: seq<Result<seq<DuplicateRow>>>, k: nat)
    requires k <= |rs| && ThenAll(rs[..k]).Failure?
    ensures ThenAll(rs) == ThenAll(rs[..k])
    decreases |rs|
  {
    if k < |rs| {
      assert rs[..|rs| - 1][..k] == rs[..k];
      ThenAllFailurePersists(rs[..|rs| - 1], k);
    } else {
      assert rs[..k] == rs;
    }
  }

  /** The steps succeed together or not at all. */
  lemma {:induction false} ThenAllSucceeds(rs: seq<Result<seq<DuplicateRow>>>)
    ensures ThenAll(rs).Success? <==> forall k :: 0 <= k < |rs| ==> rs[k].Success?
    decreases |rs|
  {
    if |rs| > 0 {
      var init := rs[..|rs| - 1];
      ThenAllSucceeds(init);
      assert forall k :: 0 <= k < |init| ==> init[k] == rs[k];
    }
  }

  /** The total number of rows of successful steps. */
  function RowCount(rs: seq<Result<seq<DuplicateRow>>>): nat
    decreases |rs|
  {
    if |rs| == 0 then 0
    else RowCount(rs[..|rs| - 1]) + (if rs[|rs| - 1].Success? then |rs[|rs| - 1].value| else 0)
  }

  /** A successful run holds exactly the rows of its steps. */
  lemma {:induction false} ThenAllRows(rs: seq<Result<seq<DuplicateRow>>>)
    requires ThenAll(rs).Success?
    ensures |ThenAll(rs).value| == RowCount(rs)
    ensures forall x :: x in ThenAll(rs).value ==> exists k :: 0 <= k < |rs| && rs[k].Success? && x in rs[k].value
    decreases |rs|
  {
    if |rs| > 0 {
      var init := rs[..|rs| - 1];
      ThenAllRows(init);
      forall x | x in ThenAll(rs).value
        ensures exists k :: 0 <= k < |rs| && rs[k].Success? && x in rs[k].value
      {
        if x in ThenAll(init).value {
          var k :| 0 <= k < |init| && init[k].Success? && x in init[k].value;
          assert init[k] == rs[k];
        } else {
          assert x in rs[|rs| - 1].value;
        }
      }
    }
  }

  predicate KeyDrawsFit(key: string, fuzzy: bool, ds: seq<Draw>)
  {
    |ds| == 3 && DrawFits(key, fuzzy, 1, ds[0]) && DrawFits(key, fuzzy, 2, ds[1]) && DrawFits(key, fuzzy, 3, ds[2])
  }

  /** The three copies of one key, as steps. */
  function KeySteps(log: seq<Event>, key: string, fuzzy: bool, ds: seq<Draw>, hash: string -> int)
    : seq<Result<seq<DuplicateRow>>>
    requires KeyDrawsFit(key, fuzzy, ds)
  {
    [Copy(log, key, fuzzy, 1, ds[0], hash), Copy(log, key, fuzzy, 2, ds[1], hash), Copy(log, key, fuzzy, 3, ds[2], hash)]
  }

  predicate RangeFits(keys: seq<string>, draws: seq<seq<Draw>>, fuzzy: bool, lo: nat, hi: nat)
  {
    lo <= hi <= |keys| == |draws| && forall k :: lo <= k < hi ==> KeyDrawsFit(keys[k], fuzzy, draws[k])
  }

  /** The per-key results of a group: the copies of each of `keys[lo..hi]`, key by key. */
  function GroupResults(log: seq<Event>, keys: seq<string>, draws: seq<seq<Draw>>, fuzzy: bool,
                        lo: nat, hi: nat, hash: string -> int): (rs: seq<Result<seq<DuplicateRow>>>)
    requires RangeFits(keys, draws, fuzzy, lo, hi)
    ensures |rs| == hi - lo
  {
    seq(hi - lo, k requires 0 <= k < hi - lo => ThenAll(KeySteps(log, keys[lo + k], fuzzy, draws[lo + k], hash)))
  }

  /** The result of the group for `keys[lo + j]` is that key's copies. */
  lemma GroupResultAt(log: seq<Event>, keys: seq<string>, draws: seq<seq<Draw>>, fuzzy: bool,
                      lo: nat, hi: nat, hash: string -> int, j: nat)
    requires RangeFits(keys, draws, fuzzy, lo, hi) && j < hi - lo
    ensures KeyDrawsFit(keys[lo + j], fuzzy, draws[lo + j])
    ensures GroupResults(log, keys, draws, fuzzy, lo, hi, hash)[j]
            == ThenAll(KeySteps(log, keys[lo + j], fuzzy, draws[lo + j], hash))
  {
  }

  /** The same entry, named by the key's own index `i` in `keys`. */
  lemma GroupResultIn(log: seq<Event>, keys: seq<string>, draws: seq<seq<Draw>>, fuzzy: bool,
                      lo: nat, hi: nat, hash: string -> int, i: nat)
    requires RangeFits(keys, draws, fuzzy, lo, hi) && lo <= i < hi
    ensures KeyDrawsFit(keys[i], fuzzy, draws[i])
    ensures GroupResults(log, keys, draws, fuzzy, lo, hi, hash)[i - lo]
            == ThenAll(KeySteps(log, keys[i], fuzzy, draws[i], hash))
  {
  }

  /** The outcome of a group: its keys' copies in order. */
  function GroupCopies(log: seq<Event>, keys: seq<string>, draws: seq<seq<Draw>>, fuzzy: bool,
                       lo: nat, hi: nat, hash: string -> int): Result<seq<DuplicateRow>>
    requires RangeFits(keys, draws, fuzzy, lo, hi)
  {
    ThenAll(GroupResults(log, keys, draws, fuzzy, lo, hi, hash))
  }

  lemma ThenAssociative(a: Result<seq<DuplicateRow>>, b: Result<seq<DuplicateRow>>, c: Result<seq<DuplicateRow>>)
    ensures Then(Then(a, b), c) == Then(a, Then(b, c))
  {
    if a.Success? && b.Success? && c.Success? {
      assert (a.value + b.value) + c.value == a.value + (b.value + c.value);
    }
  }

  // The sample and the split

  /** The index `i` means as a bound of the slice `s[:i]` of a list of length
      `len` (negative indices count from the end). */
  function SliceIndex(i: int, len: nat): (r: nat)
    ensures r <= len
    ensures 0 <= i <= len ==> r == i
    ensures i > len ==> r == len
  {
    if i < 0 then (if len + i < 0 then 0 else len + i)
    else if i <= len then i
    else len
  }

  /** `random.sample(list(unique_apps), min(n, len(unique_apps)))` as the
      positions drawn: distinct positions of the distinct keys, as many as the
      sample size. */
  predicate SampleFits(log: seq<Event>, numDuplicates: int, picks: seq<nat>)
  {
    && numDuplicates >= 0
    && |picks| == Min(numDuplicates, |UniqueKeys(log)|)
    && (forall k :: 0 <= k < |picks| ==> picks[k] < |UniqueKeys(log)|)
    && (forall p, q :: 0 <= p < q < |picks| ==> picks[p] != picks[q])
  }

  function Sample(log: seq<Event>, picks: seq<nat>): (r: seq<string>)
    requires forall k :: 0 <= k < |picks| ==> picks[k] < |UniqueKeys(log)|
    ensures |r| == |picks|
  {
    var keys := UniqueKeys(log);
    seq(|picks|, k requires 0 <= k < |picks| => keys[picks[k]])
  }

  /** The sample holds distinct keys of the table. */
  lemma SampleFacts(log: seq<Event>, numDuplicates: int, picks: seq<nat>)
    requires SampleFits(log, numDuplicates, picks)
    ensures |Sample(log, picks)| == Min(numDuplicates, |UniqueKeys(log)|)
    ensures forall k :: 0 <= k < |picks| ==> exists e :: e in log && e.key == Sample(log, picks)[k]
    ensures forall p, q :: 0 <= p < q < |picks| ==> Sample(log, picks)[p] != Sample(log, picks)[q]
  {
    var keys := UniqueKeys(log);
    var s := Sample(log, picks);
    forall k | 0 <= k < |picks| ensures exists e :: e in log && e.key == s[k] {
      assert s[k] in keys;
    }
  }

  /** The number of sampled keys that get fuzzy copies:
      `apps_to_duplicate[:num_fuzzy_detectable]`. */
  function FuzzyEnd(numFuzzy: int, sample: seq<string>): nat
  {
    SliceIndex(numFuzzy, |sample|)
  }

  /** The draws for each sampled key, three per key, within the ranges of its
      group. */
  predicate DrawsFit(log: seq<Event>, numDuplicates: int, numFuzzy: int, picks: seq<nat>, draws: seq<seq<Draw>>)
  {
    && SampleFits(log, numDuplicates, picks)
    && |draws| == |picks|
    && RangeFits(Sample(log, picks), draws, true, 0, FuzzyEnd(numFuzzy, Sample(log, picks)))
    && RangeFits(Sample(log, picks), draws, false, FuzzyEnd(numFuzzy, Sample(log, picks)), |picks|)
  }

  const SampleError := "ValueError: Sample larger than population or is negative"
  const ConcatError := "ValueError: No objects to concatenate"

  /** `create_mixed_duplicates(df, num_duplicates, ratio)` with
      `numFuzzy = int(num_duplicates * ratio)`: the fuzzy copies of the first
      keys of the sample, then the non-fuzzy copies of the rest
      (`apps_to_duplicate[num_fuzzy:num_fuzzy + num_non_fuzzy]`, whose end is
      `num_duplicates`, at least the sample size). */
  function MixedDuplicates(log: seq<Event>, numDuplicates: int, numFuzzy: int, picks: seq<nat>,
                           draws: seq<seq<Draw>>, hash: string -> int): Result<seq<DuplicateRow>>
    requires numDuplicates >= 0 ==> DrawsFit(log, numDuplicates, numFuzzy, picks, draws)
  {
    if numDuplicates < 0 then Failure(SampleError)
    else
      var sample := Sample(log, picks);
      var s := FuzzyEnd(numFuzzy, sample);
      match Then(GroupCopies(log, sample, draws, true, 0, s, hash),
                 GroupCopies(log, sample, draws, false, s, |sample|, hash))
      case Failure(e) => Failure(e)
      case Success(rows) => if |sample| == 0 then Failure(ConcatError) else Success(rows)
  }

  /** The inner `for variation_type in range(1, 4)` loop for one key, appending
      its three copies to `duplicates` or stopping at the first error. */
  method AppendCopies(log: seq<Event>, key: string, fuzzy: bool, ds: seq<Draw>, hash: string -> int,
                      duplicates: seq<DuplicateRow>)
    returns (r: Result<seq<DuplicateRow>>)
    requires KeyDrawsFit(key, fuzzy, ds)
    ensures r == Then(Success(duplicates), ThenAll(KeySteps(log, key, fuzzy, ds, hash)))
  {
    ghost var steps := KeySteps(log, key, fuzzy, ds, hash);
    var acc := duplicates;
    assert duplicates + [] == duplicates;
    for v := 1 to 4
      invariant Then(Success(duplicates), ThenAll(steps[..v - 1])) == Success(acc)
    {
      var copy := Copy(log, key, fuzzy, v, ds[v - 1], hash);
      assert copy == steps[v - 1];
      ThenAllStep(steps, v - 1);
      ThenAssociative(Success(duplicates), ThenAll(steps[..v - 1]), copy);
      if copy.Failure? {
        ThenAllFailurePersists(steps, v);
        return Failure(copy.error);
      }
      acc := acc + copy.value;
    }
    assert steps[..3] == steps;
    return Success(acc);
  }

  /** Appending one more step to what the earlier steps gave: a failure is
      the outcome of the whole run, a success the outcome one step further. */
  lemma ThenAllAppend(rs: seq<Result<seq<DuplicateRow>>>, k: nat, duplicates: seq<DuplicateRow>,
                      acc: seq<DuplicateRow>, step: Result<seq<DuplicateRow>>)
    requires k < |rs| && Then(Success(duplicates), ThenAll(rs[..k])) == Success(acc)
    requires step == Then(Success(acc), rs[k])
    ensures step.Failure? ==> step == Then(Success(duplicates), ThenAll(rs))
    ensures step.Success? ==> Then(Success(duplicates), ThenAll(rs[..k + 1])) == step
  {
    ThenAllStep(rs, k);
    ThenAssociative(Success(duplicates), ThenAll(rs[..k]), rs[k]);
    if step.Failure? {
      ThenAllFailurePersists(rs, k + 1);
    }
  }

  /** One pass of the outer loop: the copies of `keys[k]` appended to what
      the earlier keys of the group gave. */
  method AppendKey(log: seq<Event>, keys: seq<string>, draws: seq<seq<Draw>>, fuzzy: bool,
                   lo: nat, hi: nat, hash: string -> int, duplicates: seq<DuplicateRow>,
                   acc: seq<DuplicateRow>, k: nat)
    returns (step: Result<seq<DuplicateRow>>)
    requires RangeFits(keys, draws, fuzzy, lo, hi) && lo <= k < hi
    requires Then(Success(duplicates), ThenAll(GroupResults(log, keys, draws, fuzzy, lo, hi, hash)[..k - lo]))
             == Success(acc)
    ensures step.Failure? ==> step == Then(Success(duplicates), GroupCopies(log, keys, draws, fuzzy, lo, hi, hash))
    ensures step.Success? ==>
              Then(Success(duplicates), ThenAll(GroupResults(log, keys, draws, fuzzy, lo, hi, hash)[..k - lo + 1]))
              == step
  {
    step := AppendCopies(log, keys[k], fuzzy, draws[k], hash, acc);
    AppendKeyStep(log, keys, draws, fuzzy, lo, hi, hash, duplicates, acc, k, step);
  }

  lemma AppendKeyStep(log: seq<Event>, keys: seq<string>, draws: seq<seq<Draw>>, fuzzy: bool,
                      lo: nat, hi: nat, hash: string -> int, duplicates: seq<DuplicateRow>,
                      acc: seq<DuplicateRow>, k: nat, step: Result<seq<DuplicateRow>>)
    requires RangeFits(keys, draws, fuzzy, lo, hi) && lo <= k < hi
    requires Then(Success(duplicates), ThenAll(GroupResults(log, keys, draws, fuzzy, lo, hi, hash)[..k - lo]))
             == Success(acc)
    requires KeyDrawsFit(keys[k], fuzzy, draws[k])
    requires step == Then(Success(acc), ThenAll(KeySteps(log, keys[k], fuzzy, draws[k], hash)))
    ensures step.Failure? ==> step == Then(Success(duplicates), GroupCopies(log, keys, draws, fuzzy, lo, hi, hash))
    ensures step.Success? ==>
              Then(Success(duplicates), ThenAll(GroupResults(log, keys, draws, fuzzy, lo, hi, hash)[..k - lo + 1]))
              == step
  {
    GroupResultIn(log, keys, draws, fuzzy, lo, hi, hash, k);
    ThenAllAppend(GroupResults(log, keys, draws, fuzzy, lo, hi, hash), k - lo, duplicates, acc, step);
  }

  /** The outer loop over one group of keys, `keys[lo..hi]`. */
  method AppendGroup(log: seq<Event>, keys: seq<string>, draws: seq<seq<Draw>>, fuzzy: bool,
                     lo: nat, hi: nat, hash: string -> int, duplicates: seq<DuplicateRow>)
    returns (r: Result<seq<DuplicateRow>>)
    requires RangeFits(keys, draws, fuzzy, lo, hi)
    ensures r == Then(Success(duplicates), GroupCopies(log, keys, draws, fuzzy, lo, hi, hash))
  {
    ghost var results := GroupResults(log, keys, draws, fuzzy, lo, hi, hash);
    var acc := duplicates;
    assert duplicates + [] == duplicates;
    for k := lo to hi
      invariant Then(Success(duplicates), ThenAll(results[..k - lo])) == Success(acc)
    {
      var step := AppendKey(log, keys, draws, fuzzy, lo, hi, hash, duplicates, acc, k);
      if step.Failure? {
        return step;
      }
      acc := step.value;
    }
    assert results[..hi - lo] == results;
    return Success(acc);
  }

  /** The generator as the source runs it: the fuzzy group, then the non-fuzzy
      group, appending to `duplicates` and stopping at the first error; an
      empty `duplicates` list cannot be concatenated. */
  method CreateMixedDuplicates(log: seq<Event>, numDuplicates: int, numFuzzy: int, picks: seq<nat>,
                               draws: seq<seq<Draw>>, hash: string -> int)
    returns (r: Result<seq<DuplicateRow>>)
    requires numDuplicates >= 0 ==> DrawsFit(log, numDuplicates, numFuzzy, picks, draws)
    ensures r == MixedDuplicates(log, numDuplicates, numFuzzy, picks, draws, hash)
  {
    if numDuplicates < 0 {
      return Failure(SampleError);
    }
    var sample := Sample(log, picks);
    var s := FuzzyEnd(numFuzzy, sample);
    var fuzzy := AppendGroup(log, sample, draws, true, 0, s, hash, []);
    ghost var fuzzyRows := GroupCopies(log, sample, draws, true, 0, s, hash);
    if fuzzy.Failure? {
      return fuzzy;
    }
    assert [] + fuzzyRows.value == fuzzyRows.value;
    var all := AppendGroup(log, sample, draws, false, s, |sample|, hash, fuzzy.value);
    if all.Failure? {
      return all;
    }
    if |sample| == 0 {
      return Failure(ConcatError);
    }
    return all;
  }

  // What the generator produces

  /** Row `x` is a copy, made by the copy of kind (`fuzzy`, `v`), of a row `e`
      of `key`: labelled with its kind and origin, with the activity and amount
      of `e`, a timestamp moved forward within the kind's range, and the user of
      `e` or, for the kinds that change it, a user other than the first user of
      `key`. */
  predicate CopiedFrom(log: seq<Event>, key: string, fuzzy: bool, v: nat, e: Event, x: DuplicateRow)
    requires 1 <= v <= 3
  {
    && x.originalApplicationId == key
    && x.duplicateType == TypeLabel(fuzzy)
    && x.variationType == VariationLabel(fuzzy, v)
    && x.event.activity == e.activity
    && x.event.amount == e.amount
    && OffsetLow(fuzzy, v) * OffsetUnit(fuzzy, v) <= x.event.timestamp - e.timestamp
         <= OffsetHigh(fuzzy, v) * OffsetUnit(fuzzy, v)
    && (ChangesUser(fuzzy, v) ==> |RowsOf(log, key)| > 0 && x.event.user != RowsOf(log, key)[0].user)
    && (!ChangesUser(fuzzy, v) ==> x.event.user == e.user)
  }

  ghost predicate CopyOf(log: seq<Event>, key: string, fuzzy: bool, x: DuplicateRow)
  {
    exists v, e :: 1 <= v <= 3 && e in RowsOf(log, key) && CopiedFrom(log, key, fuzzy, v, e, x)
  }

  lemma CopyProvenance(log: seq<Event>, key: string, fuzzy: bool, v: nat, d: Draw, hash: string -> int,
                       x: DuplicateRow)
    requires 1 <= v <= 3 && DrawFits(key, fuzzy, v, d)
    requires Copy(log, key, fuzzy, v, d, hash).Success? && x in Copy(log, key, fuzzy, v, d, hash).value
    ensures CopyOf(log, key, fuzzy, x)
  {
    var rows := RowsOf(log, key);
    var c := Copy(log, key, fuzzy, v, d, hash).value;
    CopyFacts(log, key, fuzzy, v, d, hash);
    ChosenUserFacts(log, rows, d.userPick);
    var k :| 0 <= k < |c| && c[k] == x;
    assert rows[k] in rows;
    assert CopiedFrom(log, key, fuzzy, v, rows[k], x);
  }

  /** The three copies of a key succeed exactly when the table has another
      user (every key gets at least one copy that changes the user). */
  lemma KeyCopiesSucceed(log: seq<Event>, key: string, fuzzy: bool, ds: seq<Draw>, hash: string -> int)
    requires KeyDrawsFit(key, fuzzy, ds)
    ensures ThenAll(KeySteps(log, key, fuzzy, ds, hash)).Success? <==> HasOtherUser(log, key)
  {
    var steps := KeySteps(log, key, fuzzy, ds, hash);
    CopyOutcome(log, key, fuzzy, 1, ds[0], hash);
    CopyOutcome(log, key, fuzzy, 2, ds[1], hash);
    CopyOutcome(log, key, fuzzy, 3, ds[2], hash);
    ThenAllSucceeds(steps);
  }

  lemma RowCountThree(rs: seq<Result<seq<DuplicateRow>>>)
    requires |rs| == 3 && rs[0].Success? && rs[1].Success? && rs[2].Success?
    ensures RowCount(rs) == |rs[0].value| + |rs[1].value| + |rs[2].value|
  {
    assert rs[..2][..1] == rs[..1] && rs[..1][..0] == [];
    assert RowCount(rs[..1]) == |rs[0].value|;
    assert RowCount(rs[..2]) == RowCount(rs[..1]) + |rs[1].value|;
    assert RowCount(rs) == RowCount(rs[..2]) + |rs[2].value|;
  }

  /** Successful copies of a key hold three rows per row of the key. */
  lemma KeyCopiesCount(log: seq<Event>, key: string, fuzzy: bool, ds: seq<Draw>, hash: string -> int)
    requires KeyDrawsFit(key, fuzzy, ds)
    requires ThenAll(KeySteps(log, key, fuzzy, ds, hash)).Success?
    ensures |ThenAll(KeySteps(log, key, fuzzy, ds, hash)).value| == 3 * |RowsOf(log, key)|
  {
    var steps := KeySteps(log, key, fuzzy, ds, hash);
    ThenAllSucceeds(steps);
    ThenAllRows(steps);
    CopyOutcome(log, key, fuzzy, 1, ds[0], hash);
    CopyOutcome(log, key, fuzzy, 2, ds[1], hash);
    CopyOutcome(log, key, fuzzy, 3, ds[2], hash);
    RowCountThree(steps);
  }

  /** Every row of successful copies of a key is a copy of one of its rows. */
  lemma KeyCopiesRows(log: seq<Event>, key: string, fuzzy: bool, ds: seq<Draw>, hash: string -> int)
    requires KeyDrawsFit(key, fuzzy, ds)
    requires ThenAll(KeySteps(log, key, fuzzy, ds, hash)).Success?
    ensures forall x :: x in ThenAll(KeySteps(log, key, fuzzy, ds, hash)).value ==> CopyOf(log, key, fuzzy, x)
  {
    var steps := KeySteps(log, key, fuzzy, ds, hash);
    ThenAllRows(steps);
    forall x | x in ThenAll(steps).value ensures CopyOf(log, key, fuzzy, x) {
      var v :| 0 <= v < 3 && steps[v].Success? && x in steps[v].value;
      CopyProvenance(log, key, fuzzy, v + 1, ds[v], hash, x);
    }
  }

  /** The number of rows of `keys[lo..hi]` in the table. */
  function TotalRows(log: seq<Event>, keys: seq<string>, lo: nat, hi: nat): nat
    requires lo <= hi <= |keys|
    decreases hi - lo
  {
    if hi == lo then 0 else TotalRows(log, keys, lo, hi - 1) + |RowsOf(log, keys[hi - 1])|
  }

  lemma {:induction false} TotalRowsSplit(log: seq<Event>, keys: seq<string>, lo: nat, mid: nat, hi: nat)
    requires lo <= mid <= hi <= |keys|
    ensures TotalRows(log, keys, lo, hi) == TotalRows(log, keys, lo, mid) + TotalRows(log, keys, mid, hi)
    decreases hi
  {
    if hi > mid {
      TotalRowsSplit(log, keys, lo, mid, hi - 1);
    }
  }

  /** A group succeeds exactly when every one of its keys has another user. */
  lemma GroupResultSucceeds(log: seq<Event>, keys: seq<string>, draws: seq<seq<Draw>>, fuzzy: bool,
                             lo: nat, hi: nat, hash: string -> int, j: nat)
    requires RangeFits(keys, draws, fuzzy, lo, hi) && j < hi - lo
    ensures GroupResults(log, keys, draws, fuzzy, lo, hi, hash)[j].Success? <==> HasOtherUser(log, keys[lo + j])
  {
    GroupResultAt(log, keys, draws, fuzzy, lo, hi, hash, j);
    KeyCopiesSucceed(log, keys[lo + j], fuzzy, draws[lo + j], hash);
  }

  /** Steps that succeed exactly for the keys with another user succeed
      together exactly when every key has one. */
  lemma ThenAllSucceedsFor(log: seq<Event>, keys: seq<string>, lo: nat, hi: nat,
                           rs: seq<Result<seq<DuplicateRow>>>)
    requires lo <= hi <= |keys| && |rs| == hi - lo
    requires forall j :: 0 <= j < |rs| ==> (rs[j].Success? <==> HasOtherUser(log, keys[lo + j]))
    ensures ThenAll(rs).Success? <==> forall k :: lo <= k < hi ==> HasOtherUser(log, keys[k])
  {
    ThenAllSucceeds(rs);
    if !ThenAll(rs).Success? {
      var j :| 0 <= j < |rs| && !rs[j].Success?;
      assert !HasOtherUser(log, keys[lo + j]);
    } else {
      forall k | lo <= k < hi ensures HasOtherUser(log, keys[k]) {
        assert rs[k - lo].Success?;
      }
    }
  }

  lemma GroupSucceeds(log: seq<Event>, keys: seq<string>, draws: seq<seq<Draw>>, fuzzy: bool,
                      lo: nat, hi: nat, hash: string -> int)
    requires RangeFits(keys, draws, fuzzy, lo, hi)
    ensures GroupCopies(log, keys, draws, fuzzy, lo, hi, hash).Success? <==>
              forall k :: lo <= k < hi ==> HasOtherUser(log, keys[k])
  {
    var results := GroupResults(log, keys, draws, fuzzy, lo, hi, hash);
    forall j | 0 <= j < |results| ensures results[j].Success? <==> HasOtherUser(log, keys[lo + j]) {
      GroupResultSucceeds(log, keys, draws, fuzzy, lo, hi, hash, j);
    }
    ThenAllSucceedsFor(log, keys, lo, hi, results);
  }

  /** Results of three rows per row of `keys[lo..hi]` count three times those rows. */
  lemma {:induction false} RowCountTriples(log: seq<Event>, keys: seq<string>, lo: nat, hi: nat,
                                           rs: seq<Result<seq<DuplicateRow>>>)
    requires lo <= hi <= |keys| && |rs| == hi - lo
    requires forall i :: 0 <= i < |rs| ==> rs[i].Success? && |rs[i].value| == 3 * |RowsOf(log, keys[lo + i])|
    ensures RowCount(rs) == 3 * TotalRows(log, keys, lo, hi)
    decreases hi
  {
    if hi > lo {
      var init := rs[..|rs| - 1];
      assert forall i :: 0 <= i < |init| ==> init[i] == rs[i];
      RowCountTriples(log, keys, lo, hi - 1, init);
    }
  }

  /** A successful group holds three rows per row of its keys. */
  lemma GroupCount(log: seq<Event>, keys: seq<string>, draws: seq<seq<Draw>>, fuzzy: bool,
                   lo: nat, hi: nat, hash: string -> int)
    requires RangeFits(keys, draws, fuzzy, lo, hi)
    requires GroupCopies(log, keys, draws, fuzzy, lo, hi, hash).Success?
    ensures |GroupCopies(log, keys, draws, fuzzy, lo, hi, hash).value| == 3 * TotalRows(log, keys, lo, hi)
  {
    var results := GroupResults(log, keys, draws, fuzzy, lo, hi, hash);
    ThenAllSucceeds(results);
    ThenAllRows(results);
    forall i | 0 <= i < |results|
      ensures results[i].Success? && |results[i].value| == 3 * |RowsOf(log, keys[lo + i])|
    {
      assert results[i] == ThenAll(KeySteps(log, keys[lo + i], fuzzy, draws[lo + i], hash));
      KeyCopiesCount(log, keys[lo + i], fuzzy, draws[lo + i], hash);
    }
    RowCountTriples(log, keys, lo, hi, results);
  }

  /** Every row of a successful group is a copy of a row of one of its keys. */
  lemma GroupRows(log: seq<Event>, keys: seq<string>, draws: seq<seq<Draw>>, fuzzy: bool,
                  lo: nat, hi: nat, hash: string -> int)
    requires RangeFits(keys, draws, fuzzy, lo, hi)
    requires GroupCopies(log, keys, draws, fuzzy, lo, hi, hash).Success?
    ensures forall x :: x in GroupCopies(log, keys, draws, fuzzy, lo, hi, hash).value ==>
              exists k :: lo <= k < hi && CopyOf(log, keys[k], fuzzy, x)
  {
    var results := GroupResults(log, keys, draws, fuzzy, lo, hi, hash);
    ThenAllRows(results);
    forall x | x in ThenAll(results).value ensures exists k :: lo <= k < hi && CopyOf(log, keys[k], fuzzy, x) {
      var i :| 0 <= i < |results| && results[i].Success? && x in results[i].value;
      GroupResultAt(log, keys, draws, fuzzy, lo, hi, hash, i);
      KeyCopiesRows(log, keys[lo + i], fuzzy, draws[lo + i], hash);
      assert CopyOf(log, keys[lo + i], fuzzy, x);
    }
  }

  /** `create_mixed_duplicates` returns a table exactly when at least one key
      is sampled and every sampled key has a user other than its first one;
      otherwise it raises. */
  lemma MixedDuplicatesSucceed(log: seq<Event>, numDuplicates: int, numFuzzy: int, picks: seq<nat>,
                               draws: seq<seq<Draw>>, hash: string -> int)
    requires numDuplicates >= 0 ==> DrawsFit(log, numDuplicates, numFuzzy, picks, draws)
    ensures MixedDuplicates(log, numDuplicates, numFuzzy, picks, draws, hash).Success? <==>
              && numDuplicates > 0 && |log| > 0
              && forall k :: 0 <= k < |picks| ==> HasOtherUser(log, Sample(log, picks)[k])
  {
    if numDuplicates >= 0 {
      var sample := Sample(log, picks);
      var s := FuzzyEnd(numFuzzy, sample);
      GroupSucceeds(log, sample, draws, true, 0, s, hash);
      GroupSucceeds(log, sample, draws, false, s, |sample|, hash);
      var keys := UniqueKeys(log);
      if |log| > 0 {
        assert log[0].key in keys;
      }
      if |keys| > 0 {
        assert keys[0] in keys;
      }
    }
  }

  /** A generated table holds exactly three rows per row of the sampled keys. */
  lemma MixedDuplicatesCount(log: seq<Event>, numDuplicates: int, numFuzzy: int, picks: seq<nat>,
                             draws: seq<seq<Draw>>, hash: string -> int)
    requires numDuplicates >= 0 ==> DrawsFit(log, numDuplicates, numFuzzy, picks, draws)
    requires MixedDuplicates(log, numDuplicates, numFuzzy, picks, draws, hash).Success?
    ensures |MixedDuplicates(log, numDuplicates, numFuzzy, picks, draws, hash).value|
            == 3 * TotalRows(log, Sample(log, picks), 0, |picks|)
  {
    var sample := Sample(log, picks);
    var s := FuzzyEnd(numFuzzy, sample);
    GroupCount(log, sample, draws, true, 0, s, hash);
    GroupCount(log, sample, draws, false, s, |sample|, hash);
    TotalRowsSplit(log, sample, 0, s, |sample|);
  }

  /** Every generated row is a copy of a row of a sampled key, labelled fuzzy
      exactly when the key is among the first `numFuzzy` of the sample. */
  lemma MixedDuplicatesRows(log: seq<Event>, numDuplicates: int, numFuzzy: int, picks: seq<nat>,
                            draws: seq<seq<Draw>>, hash: string -> int)
    requires numDuplicates >= 0 ==> DrawsFit(log, numDuplicates, numFuzzy, picks, draws)
    requires MixedDuplicates(log, numDuplicates, numFuzzy, picks, draws, hash).Success?
    ensures forall x :: x in MixedDuplicates(log, numDuplicates, numFuzzy, picks, draws, hash).value ==>
              exists k :: 0 <= k < |picks|
                && CopyOf(log, Sample(log, picks)[k], k < FuzzyEnd(numFuzzy, Sample(log, picks)), x)
  {
    var sample := Sample(log, picks);
    var s := FuzzyEnd(numFuzzy, sample);
    var f := GroupCopies(log, sample, draws, true, 0, s, hash);
    var n := GroupCopies(log, sample, draws, false, s, |sample|, hash);
    GroupRows(log, sample, draws, true, 0, s, hash);
    GroupRows(log, sample, draws, false, s, |sample|, hash);
    forall x | x in MixedDuplicates(log, numDuplicates, numFuzzy, picks, draws, hash).value
      ensures exists k :: 0 <= k < |picks| && CopyOf(log, sample[k], k < s, x)
    {
      if x in f.value {
        var k :| 0 <= k < s && CopyOf(log, sample[k], true, x);
      } else {
        assert x in n.value;
        var k :| s <= k < |sample| && CopyOf(log, sample[k], false, x);
      }
    }
  }

  // The copies of one key in the table

  /** Row `x` was made from `key` by the copy labelled `tag`. */
  predicate Labelled(x: DuplicateRow, key: string, tag: string)
  {
    x.originalApplicationId == key && x.variationType == tag
  }

  /** The rows made from `key` by the copy labelled `tag`, in table order. */
  function Pick(rows: seq<DuplicateRow>, key: string, tag: string): seq<DuplicateRow>
    decreases |rows|
  {
    if |rows| == 0 then []
    else Pick(rows[..|rows| - 1], key, tag)
         + (if Labelled(rows[|rows| - 1], key, tag) then [rows[|rows| - 1]] else [])
  }

  lemma {:induction false} PickAppend(a: seq<DuplicateRow>, b: seq<DuplicateRow>, key: string, tag: string)
    ensures Pick(a + b, key, tag) == Pick(a, key, tag) + Pick(b, key, tag)
    decreases |b|
  {
    if |b| > 0 {
      var n := |b| - 1;
      assert (a + b)[..|a + b| - 1] == a + b[..n];
      PickAppend(a, b[..n], key, tag);
    } else {
      assert a + b == a;
    }
  }

  /** Selecting from rows that all carry the tag keeps them all; selecting
      from rows that none carry keeps none. */
  lemma {:induction false} PickAllOrNone(rows: seq<DuplicateRow>, key: string, tag: string)
    ensures (forall x :: x in rows ==> Labelled(x, key, tag)) ==> Pick(rows, key, tag) == rows
    ensures (forall x :: x in rows ==> !Labelled(x, key, tag)) ==> Pick(rows, key, tag) == []
    decreases |rows|
  {
    if |rows| > 0 {
      var init := rows[..|rows| - 1];
      assert rows == init + [rows[|rows| - 1]];
      assert forall x :: x in init ==> x in rows;
      PickAllOrNone(init, key, tag);
    }
  }

  lemma VariationLabelsDistinct(fuzzy: bool, v: nat, w: nat)
    requires 1 <= v <= 3 && 1 <= w <= 3 && v != w
    ensures VariationLabel(fuzzy, v) != VariationLabel(fuzzy, w)
  {
    var a, b := VariationLabel(fuzzy, v), VariationLabel(fuzzy, w);
    assert a[|a| - 1] == DigitChar(v) && b[|b| - 1] == DigitChar(w);
    assert DigitValue(DigitChar(v)) == v && DigitValue(DigitChar(w)) == w;
  }

  /** A copy is selected whole by its own key and tag, and not at all by
      any other key or tag. */
  lemma PickCopy(log: seq<Event>, key: string, fuzzy: bool, v: nat, d: Draw, hash: string -> int,
                 other: string, tag: string)
    requires 1 <= v <= 3 && DrawFits(key, fuzzy, v, d)
    requires Copy(log, key, fuzzy, v, d, hash).Success?
    ensures other == key && tag == VariationLabel(fuzzy, v) ==>
              Pick(Copy(log, key, fuzzy, v, d, hash).value, other, tag) == Copy(log, key, fuzzy, v, d, hash).value
    ensures other != key || tag != VariationLabel(fuzzy, v) ==>
              Pick(Copy(log, key, fuzzy, v, d, hash).value, other, tag) == []
  {
    var c := Copy(log, key, fuzzy, v, d, hash).value;
    CopyFacts(log, key, fuzzy, v, d, hash);
    forall x | x in c ensures x.originalApplicationId == key && x.variationType == VariationLabel(fuzzy, v) {
      var k :| 0 <= k < |c| && c[k] == x;
    }
    PickAllOrNone(c, other, tag);
  }

  /** When no step but step `i` has a selected row, the selection from the run
      is the selection from step `i`. */
  lemma {:induction false} PickThenAll(rs: seq<Result<seq<DuplicateRow>>>, key: string, tag: string, i: nat)
    requires ThenAll(rs).Success?
    requires forall j :: 0 <= j < |rs| && j != i ==> rs[j].Success? && Pick(rs[j].value, key, tag) == []
    ensures i < |rs| ==> rs[i].Success? && Pick(ThenAll(rs).value, key, tag) == Pick(rs[i].value, key, tag)
    ensures i >= |rs| ==> Pick(ThenAll(rs).value, key, tag) == []
    decreases |rs|
  {
    if |rs| > 0 {
      var n := |rs| - 1;
      var init := rs[..n];
      assert ThenAll(init).Success? && rs[n].Success?;
      assert ThenAll(rs).value == ThenAll(init).value + rs[n].value;
      assert forall j :: 0 <= j < n ==> init[j] == rs[j];
      PickThenAll(init, key, tag, i);
      PickAppend(ThenAll(init).value, rs[n].value, key, tag);
    }
  }

  /** The three-step case of `PickThenAll`. */
  lemma PickThree(rs: seq<Result<seq<DuplicateRow>>>, key: string, tag: string, i: nat)
    requires |rs| == 3 && i < 3 && ThenAll(rs).Success?
    requires i != 0 ==> rs[0].Success? && Pick(rs[0].value, key, tag) == []
    requires i != 1 ==> rs[1].Success? && Pick(rs[1].value, key, tag) == []
    requires i != 2 ==> rs[2].Success? && Pick(rs[2].value, key, tag) == []
    ensures rs[i].Success? && Pick(ThenAll(rs).value, key, tag) == Pick(rs[i].value, key, tag)
  {
    forall j | 0 <= j < 3 && j != i ensures rs[j].Success? && Pick(rs[j].value, key, tag) == [] {
      if j == 0 {} else if j == 1 {} else {}
    }
    PickThenAll(rs, key, tag, i);
  }

  /** Three steps none of which has a selected row give none together. */
  lemma PickNoneOfThree(rs: seq<Result<seq<DuplicateRow>>>, key: string, tag: string)
    requires |rs| == 3 && ThenAll(rs).Success?
    requires rs[0].Success? && Pick(rs[0].value, key, tag) == []
    requires rs[1].Success? && Pick(rs[1].value, key, tag) == []
    requires rs[2].Success? && Pick(rs[2].value, key, tag) == []
    ensures Pick(ThenAll(rs).value, key, tag) == []
  {
    forall j | 0 <= j < 3 ensures rs[j].Success? && Pick(rs[j].value, key, tag) == [] {
      if j == 0 {} else if j == 1 {} else {}
    }
    PickThenAll(rs, key, tag, 3);
  }

  /** Among the rows made for a key, the copy labelled `v` is selected whole. */
  lemma PickKeyCopy(log: seq<Event>, key: string, fuzzy: bool, ds: seq<Draw>, hash: string -> int, v: nat)
    requires KeyDrawsFit(key, fuzzy, ds) && ThenAll(KeySteps(log, key, fuzzy, ds, hash)).Success?
    requires 1 <= v <= 3
    ensures DrawFits(key, fuzzy, v, ds[v - 1]) && Copy(log, key, fuzzy, v, ds[v - 1], hash).Success?
    ensures Pick(ThenAll(KeySteps(log, key, fuzzy, ds, hash)).value, key, VariationLabel(fuzzy, v))
            == Copy(log, key, fuzzy, v, ds[v - 1], hash).value
  {
    var steps := KeySteps(log, key, fuzzy, ds, hash);
    var tag := VariationLabel(fuzzy, v);
    ThenAllSucceeds(steps);
    if v != 1 { VariationLabelsDistinct(fuzzy, 1, v); }
    if v != 2 { VariationLabelsDistinct(fuzzy, 2, v); }
    if v != 3 { VariationLabelsDistinct(fuzzy, 3, v); }
    PickCopy(log, key, fuzzy, 1, ds[0], hash, key, tag);
    PickCopy(log, key, fuzzy, 2, ds[1], hash, key, tag);
    PickCopy(log, key, fuzzy, 3, ds[2], hash, key, tag);
    PickThree(steps, key, tag, v - 1);
    if v == 1 {} else if v == 2 {} else {}
  }

  /** The rows made for a key are never selected by another key. */
  lemma PickOtherKey(log: seq<Event>, key: string, fuzzy: bool, ds: seq<Draw>, hash: string -> int,
                     other: string, tag: string)
    requires KeyDrawsFit(key, fuzzy, ds) && ThenAll(KeySteps(log, key, fuzzy, ds, hash)).Success?
    requires other != key
    ensures Pick(ThenAll(KeySteps(log, key, fuzzy, ds, hash)).value, other, tag) == []
  {
    var steps := KeySteps(log, key, fuzzy, ds, hash);
    ThenAllSucceeds(steps);
    PickCopy(log, key, fuzzy, 1, ds[0], hash, other, tag);
    PickCopy(log, key, fuzzy, 2, ds[1], hash, other, tag);
    PickCopy(log, key, fuzzy, 3, ds[2], hash, other, tag);
    PickNoneOfThree(steps, other, tag);
  }

  /** A key's copies carry only the labels of its own three variations. */
  lemma PickOtherTag(log: seq<Event>, key: string, fuzzy: bool, ds: seq<Draw>, hash: string -> int, tag: string)
    requires KeyDrawsFit(key, fuzzy, ds) && ThenAll(KeySteps(log, key, fuzzy, ds, hash)).Success?
    requires tag != VariationLabel(fuzzy, 1) && tag != VariationLabel(fuzzy, 2) && tag != VariationLabel(fuzzy, 3)
    ensures Pick(ThenAll(KeySteps(log, key, fuzzy, ds, hash)).value, key, tag) == []
  {
    var steps := KeySteps(log, key, fuzzy, ds, hash);
    ThenAllSucceeds(steps);
    PickCopy(log, key, fuzzy, 1, ds[0], hash, key, tag);
    PickCopy(log, key, fuzzy, 2, ds[1], hash, key, tag);
    PickCopy(log, key, fuzzy, 3, ds[2], hash, key, tag);
    PickNoneOfThree(steps, key, tag);
  }

  /** The keys of a group other than `keys[i]` (at index `at` of the group,
      or nowhere) have no row selected by `keys[i]`. */
  lemma GroupOthersEmpty(log: seq<Event>, keys: seq<string>, draws: seq<seq<Draw>>, fuzzy: bool,
                         lo: nat, hi: nat, hash: string -> int, i: nat, tag: string, at: nat)
    requires RangeFits(keys, draws, fuzzy, lo, hi) && i < |keys|
    requires GroupCopies(log, keys, draws, fuzzy, lo, hi, hash).Success?
    requires forall j :: lo <= j < hi && j != i ==> keys[j] != keys[i]
    requires at == if lo <= i < hi then i - lo else hi - lo
    ensures forall j :: 0 <= j < hi - lo && j != at ==>
              GroupResults(log, keys, draws, fuzzy, lo, hi, hash)[j].Success?
              && Pick(GroupResults(log, keys, draws, fuzzy, lo, hi, hash)[j].value, keys[i], tag) == []
  {
    var results := GroupResults(log, keys, draws, fuzzy, lo, hi, hash);
    ThenAllSucceeds(results);
    forall j | 0 <= j < hi - lo && j != at
      ensures results[j].Success? && Pick(results[j].value, keys[i], tag) == []
    {
      GroupResultAt(log, keys, draws, fuzzy, lo, hi, hash, j);
      PickOtherKey(log, keys[lo + j], fuzzy, draws[lo + j], hash, keys[i], tag);
    }
  }

  /** In a group whose other keys differ from `keys[i]`, the selection by
      `keys[i]` is the selection from its own copies; a group not holding
      index `i` contributes nothing. */
  lemma PickGroup(log: seq<Event>, keys: seq<string>, draws: seq<seq<Draw>>, fuzzy: bool,
                  lo: nat, hi: nat, hash: string -> int, i: nat, tag: string)
    requires RangeFits(keys, draws, fuzzy, lo, hi) && i < |keys|
    requires GroupCopies(log, keys, draws, fuzzy, lo, hi, hash).Success?
    requires forall j :: lo <= j < hi && j != i ==> keys[j] != keys[i]
    ensures lo <= i < hi ==>
              GroupResults(log, keys, draws, fuzzy, lo, hi, hash)[i - lo].Success?
              && Pick(GroupCopies(log, keys, draws, fuzzy, lo, hi, hash).value, keys[i], tag)
                 == Pick(GroupResults(log, keys, draws, fuzzy, lo, hi, hash)[i - lo].value, keys[i], tag)
    ensures !(lo <= i < hi) ==> Pick(GroupCopies(log, keys, draws, fuzzy, lo, hi, hash).value, keys[i], tag) == []
  {
    var results := GroupResults(log, keys, draws, fuzzy, lo, hi, hash);
    assert GroupCopies(log, keys, draws, fuzzy, lo, hi, hash) == ThenAll(results);
    if lo <= i < hi {
      GroupOthersEmpty(log, keys, draws, fuzzy, lo, hi, hash, i, tag, i - lo);
      PickThenAll(results, keys[i], tag, i - lo);
    } else {
      GroupOthersEmpty(log, keys, draws, fuzzy, lo, hi, hash, i, tag, hi - lo);
      PickThenAll(results, keys[i], tag, hi - lo);
    }
  }

  /** In the generated table, the rows selected by a sampled key are those
      selected from that key's own copies. */
  lemma MixedPick(log: seq<Event>, numDuplicates: int, numFuzzy: int, picks: seq<nat>,
                  draws: seq<seq<Draw>>, hash: string -> int, k: nat, tag: string)
    requires numDuplicates >= 0 ==> DrawsFit(log, numDuplicates, numFuzzy, picks, draws)
    requires MixedDuplicates(log, numDuplicates, numFuzzy, picks, draws, hash).Success?
    requires k < |picks|
    ensures var sample := Sample(log, picks);
            var fuzzy := k < FuzzyEnd(numFuzzy, sample);
            && KeyDrawsFit(sample[k], fuzzy, draws[k])
            && ThenAll(KeySteps(log, sample[k], fuzzy, draws[k], hash)).Success?
            && Pick(MixedDuplicates(log, numDuplicates, numFuzzy, picks, draws, hash).value, sample[k], tag)
               == Pick(ThenAll(KeySteps(log, sample[k], fuzzy, draws[k], hash)).value, sample[k], tag)
  {
    var sample := Sample(log, picks);
    var s := FuzzyEnd(numFuzzy, sample);
    var f := GroupCopies(log, sample, draws, true, 0, s, hash);
    var n := GroupCopies(log, sample, draws, false, s, |sample|, hash);
    SampleFacts(log, numDuplicates, picks);
    assert f.Success? && n.Success?;
    assert MixedDuplicates(log, numDuplicates, numFuzzy, picks, draws, hash).value == f.value + n.value;
    PickAppend(f.value, n.value, sample[k], tag);
    if k < s {
      PickGroup(log, sample, draws, true, 0, s, hash, k, tag);
      PickGroup(log, sample, draws, false, s, |sample|, hash, k, tag);
      GroupResultIn(log, sample, draws, true, 0, s, hash, k);
    } else {
      PickGroup(log, sample, draws, true, 0, s, hash, k, tag);
      PickGroup(log, sample, draws, false, s, |sample|, hash, k, tag);
      GroupResultIn(log, sample, draws, false, s, |sample|, hash, k);
    }
  }

  /** Each sampled key contributes to the generated table exactly its three
      copies: the rows made from `sample[k]` labelled with variation `v` are,
      in order, the rows of that copy, one per row of the key. */
  lemma MixedDuplicatesCopies(log: seq<Event>, numDuplicates: int, numFuzzy: int, picks: seq<nat>,
                              draws: seq<seq<Draw>>, hash: string -> int, k: nat, v: nat)
    requires numDuplicates >= 0 ==> DrawsFit(log, numDuplicates, numFuzzy, picks, draws)
    requires MixedDuplicates(log, numDuplicates, numFuzzy, picks, draws, hash).Success?
    requires k < |picks| && 1 <= v <= 3
    ensures var sample := Sample(log, picks);
            var fuzzy := k < FuzzyEnd(numFuzzy, sample);
            && DrawFits(sample[k], fuzzy, v, draws[k][v - 1])
            && Copy(log, sample[k], fuzzy, v, draws[k][v - 1], hash).Success?
            && Pick(MixedDuplicates(log, numDuplicates, numFuzzy, picks, draws, hash).value, sample[k], VariationLabel(fuzzy, v))
               == Copy(log, sample[k], fuzzy, v, draws[k][v - 1], hash).value
            && |Copy(log, sample[k], fuzzy, v, draws[k][v - 1], hash).value| == |RowsOf(log, sample[k])|
  {
    var sample := Sample(log, picks);
    var fuzzy := k < FuzzyEnd(numFuzzy, sample);
    MixedPick(log, numDuplicates, numFuzzy, picks, draws, hash, k, VariationLabel(fuzzy, v));
    PickKeyCopy(log, sample[k], fuzzy, draws[k], hash, v);
    CopyOutcome(log, sample[k], fuzzy, v, draws[k][v - 1], hash);
  }

  /** No generated row copies a sampled key under a label other than those
      of its group's three variations. */
  lemma MixedDuplicatesOtherTags(log: seq<Event>, numDuplicates: int, numFuzzy: int, picks: seq<nat>,
                                 draws: seq<seq<Draw>>, hash: string -> int, k: nat, tag: string)
    requires numDuplicates >= 0 ==> DrawsFit(log, numDuplicates, numFuzzy, picks, draws)
    requires MixedDuplicates(log, numDuplicates, numFuzzy, picks, draws, hash).Success?
    requires k < |picks|
    requires var fuzzy := k < FuzzyEnd(numFuzzy, Sample(log, picks));
             tag != VariationLabel(fuzzy, 1) && tag != VariationLabel(fuzzy, 2) && tag != VariationLabel(fuzzy, 3)
    ensures Pick(MixedDuplicates(log, numDuplicates, numFuzzy, picks, draws, hash).value, Sample(log, picks)[k], tag) == []
  {
    var sample := Sample(log, picks);
    var fuzzy := k < FuzzyEnd(numFuzzy, sample);
    MixedPick(log, numDuplicates, numFuzzy, picks, draws, hash, k, tag);
    PickOtherTag(log, sample[k], fuzzy, draws[k], hash, tag);
  }
}
