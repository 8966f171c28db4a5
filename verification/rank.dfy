/** The aggregation and ranking half of `Exec` (extract/extract.go): the
    per-file signature lists are concatenated (the first file error aborts
    the run), counted, made distinct, ordered by ascending count and filtered
    by the two thresholds. */
module Rank {
  import opened Wrappers
  import opened Text
  import opened Order
  import opened Scan

  /** The defaults of the `-names` and `-threshold` flags. */
  const DefaultNames: int := 1
  const DefaultThreshold: int := 3

  /** One report line: a signature and how often it occurred. */
  type Entry = (string, int)

  /** Error `e` is that of the first file that failed, every earlier file
      having been scanned. */
  ghost predicate IsFirstFailure(files: seq<Result<seq<string>, FileError>>, e: FileError) {
    exists i :: 0 <= i < |files| && files[i] == Failure(e) &&
      (forall j :: 0 <= j < i ==> files[j].Success?)
  }

  /** The signatures of the successfully scanned files, file after file. */
  function Gathered(files: seq<Result<seq<string>, FileError>>): seq<string> {
    if files == [] then []
    else (if files[0].Success? then files[0].value else []) + Gathered(files[1..])
  }

  lemma {:induction false} GatheredSnoc(files: seq<Result<seq<string>, FileError>>, f: Result<seq<string>, FileError>)
    requires f.Success?
    ensures Gathered(files + [f]) == Gathered(files) + f.value
  {
    if files == [] {
      assert [] + [f] == [f];
      assert [f][1..] == [];
    } else {
      assert (files + [f])[1..] == files[1..] + [f];
      GatheredSnoc(files[1..], f);
    }
  }

  /** The file loop: each file's signatures are appended in turn, and the
      first file that fails ends the run with its error. */
  function Collect(files: seq<Result<seq<string>, FileError>>): (r: Result<seq<string>, FileError>)
    ensures r.Success? <==> forall i :: 0 <= i < |files| ==> files[i].Success?
    ensures r.Failure? ==> IsFirstFailure(files, r.error)
    ensures r.Success? ==> r.value == Gathered(files)
    decreases |files|
  {
    if files == [] then Success([])
    else
      var init, last := files[..|files| - 1], files[|files| - 1];
      assert files == init + [last];
      match Collect(init)
      case Failure(e) =>
        assert IsFirstFailure(files, e) by {
          var i :| 0 <= i < |init| && init[i] == Failure(e) &&
            (forall j :: 0 <= j < i ==> init[j].Success?);
          assert files[i] == init[i];
        }
        Failure(e)
      case Success(acc) =>
        match last
        case Failure(e) =>
          assert files[|files| - 1] == Failure(e);
          Failure(e)
        case Success(cs) =>
          GatheredSnoc(init, last);
          assert forall i :: 0 <= i < |files| ==> files[i].Success? by {
            forall i | 0 <= i < |files|
              ensures files[i].Success?
            {
              if i < |init| { assert files[i] == init[i]; }
            }
          }
          Success(acc + cs)
  }

  /** Go's `counts[s]` on a `map[string]int`: zero for an absent key. */
  function CountOf(counts: map<string, int>, s: string): int {
    if s in counts then counts[s] else 0
  }

  /** The counting loop: `counts[class]++` for each signature in turn. */
  function Count(all: seq<string>): (counts: map<string, int>)
    ensures forall s :: s in counts <==> s in all
    ensures forall s :: CountOf(counts, s) == multiset(all)[s]
  {
    if all == [] then map[]
    else
      var init, last := all[..|all| - 1], all[|all| - 1];
      assert all == init + [last];
      var m := Count(init);
      m[last := CountOf(m, last) + 1]
  }

  /** `slices.Sort` then `slices.Compact`: each signature once, in bytewise
      order. */
  function Distinct(all: seq<string>): (r: seq<string>)
    ensures StrictlySorted(r)
    ensures forall s :: s in r <==> s in all
  {
    var sorted := Sort(all);
    assert forall s :: s in sorted <==> s in multiset(sorted);
    Compact(sorted)
  }

  /** Counts never decrease along `ys`. */
  ghost predicate ByCount(ys: seq<string>, counts: map<string, int>) {
    forall i, j :: 0 <= i < j < |ys| ==> CountOf(counts, ys[i]) <= CountOf(counts, ys[j])
  }

  /** `a` comes before `b` by count, ties broken by bytewise order. */
  predicate Before(a: string, b: string, counts: map<string, int>) {
    CountOf(counts, a) < CountOf(counts, b) ||
    (CountOf(counts, a) == CountOf(counts, b) && Less(a, b))
  }

  /** Ordered by count, ties by bytewise order of the signature. */
  ghost predicate ByCountThenName(ys: seq<string>, counts: map<string, int>) {
    forall i, j :: 0 <= i < j < |ys| ==> Before(ys[i], ys[j], counts)
  }

  lemma ByCountThenNameCons(y: string, ys: seq<string>, counts: map<string, int>)
    requires ByCountThenName(ys, counts)
    requires forall k :: 0 <= k < |ys| ==> Before(y, ys[k], counts)
    ensures ByCountThenName([y] + ys, counts)
  {
  }

  /** Putting a signature whose count is at most every count of an ordered
      list in front keeps it ordered. */
  lemma ByCountCons(y: string, ys: seq<string>, counts: map<string, int>)
    requires ByCount(ys, counts)
    requires forall k :: 0 <= k < |ys| ==> CountOf(counts, y) <= CountOf(counts, ys[k])
    ensures ByCount([y] + ys, counts)
  {
  }

  function InsertByCount(x: string, ys: seq<string>, counts: map<string, int>): (r: seq<string>)
    requires ByCount(ys, counts)
    ensures multiset(r) == multiset(ys) + multiset{x}
    ensures ByCount(r, counts)
  {
    if ys == [] then [x]
    else if CountOf(counts, x) <= CountOf(counts, ys[0]) then
      ByCountCons(x, ys, counts);
      [x] + ys
    else
      var rest := InsertByCount(x, ys[1..], counts);
      assert ys == [ys[0]] + ys[1..];
      assert forall k :: 0 <= k < |rest| ==> CountOf(counts, ys[0]) <= CountOf(counts, rest[k]) by {
        forall k | 0 <= k < |rest|
          ensures CountOf(counts, ys[0]) <= CountOf(counts, rest[k])
        {
          assert rest[k] in multiset(ys[1..]) + multiset{x};
          if rest[k] != x {
            var m :| 0 <= m < |ys[1..]| && ys[1..][m] == rest[k];
            assert ys[m + 1] == rest[k];
          }
        }
      }
      ByCountCons(ys[0], rest, counts);
      [ys[0]] + rest
  }

  /** `slices.SortFunc` by ascending count.  Go's sort is not stable, so all
      the source promises is a permutation with non-decreasing counts; this
      model fixes one such order (see `RankTieBreak`). */
  function RankByCount(xs: seq<string>, counts: map<string, int>): (r: seq<string>)
    ensures multiset(r) == multiset(xs)
    ensures ByCount(r, counts)
  {
    if xs == [] then []
    else
      assert xs == [xs[0]] + xs[1..];
      InsertByCount(xs[0], RankByCount(xs[1..], counts), counts)
  }

  lemma {:induction false} InsertByCountThenName(x: string, ys: seq<string>, counts: map<string, int>)
    requires ByCount(ys, counts) && ByCountThenName(ys, counts)
    requires forall k :: 0 <= k < |ys| ==> Less(x, ys[k])
    ensures ByCountThenName(InsertByCount(x, ys, counts), counts)
  {
    if ys == [] {
    } else if CountOf(counts, x) <= CountOf(counts, ys[0]) {
      forall k | 0 <= k < |ys|
        ensures Before(x, ys[k], counts)
      {
        if k > 0 { assert CountOf(counts, ys[0]) <= CountOf(counts, ys[k]); }
      }
      ByCountThenNameCons(x, ys, counts);
    } else {
      InsertByCountThenName(x, ys[1..], counts);
      var rest := InsertByCount(x, ys[1..], counts);
      forall k | 0 <= k < |rest|
        ensures Before(ys[0], rest[k], counts)
      {
        assert rest[k] in multiset(ys[1..]) + multiset{x};
        if rest[k] != x {
          var m :| 0 <= m < |ys[1..]| && ys[1..][m] == rest[k];
          assert ys[m + 1] == rest[k];
        }
      }
      ByCountThenNameCons(ys[0], rest, counts);
    }
  }

  /** One admissible outcome of the unstable sort: fed the bytewise-sorted
      distinct list, the model breaks count ties by bytewise order.  The
      source does not promise this tie order. */
  lemma {:induction false} RankTieBreak(xs: seq<string>, counts: map<string, int>)
    requires StrictlySorted(xs)
    ensures ByCountThenName(RankByCount(xs, counts), counts)
  {
    if xs != [] {
      RankTieBreak(xs[1..], counts);
      var rest := RankByCount(xs[1..], counts);
      forall k | 0 <= k < |rest|
        ensures Less(xs[0], rest[k])
      {
        assert rest[k] in multiset(xs[1..]);
        var m :| 0 <= m < |xs[1..]| && xs[1..][m] == rest[k];
        assert xs[m + 1] == rest[k];
      }
      InsertByCountThenName(xs[0], rest, counts);
    }
  }

  /** No signature occurs twice. */
  ghost predicate NoDuplicates(ys: seq<string>) {
    forall i, j :: 0 <= i < j < |ys| ==> ys[i] != ys[j]
  }

  /** A signature passes both report thresholds; both bounds are inclusive. */
  predicate Passes(s: string, counts: map<string, int>, names: int, threshold: int) {
    Spaces(s) >= names && CountOf(counts, s) >= threshold
  }

  /** The report loop: a signature is printed, with its count, exactly when
      it has at least `names` spaces and at least `threshold` occurrences. */
  function Select(ranked: seq<string>, counts: map<string, int>, names: int, threshold: int): (r: seq<Entry>)
    ensures forall k :: 0 <= k < |r| ==>
      r[k].0 in ranked && r[k].1 == CountOf(counts, r[k].0) && Passes(r[k].0, counts, names, threshold)
  {
    if ranked == [] then []
    else
      var s, rest := ranked[0], Select(ranked[1..], counts, names, threshold);
      assert ranked == [s] + ranked[1..];
      if Passes(s, counts, names, threshold) then [(s, CountOf(counts, s))] + rest else rest
  }

  /** Every signature of `ranked` that passes both thresholds is reported. */
  lemma {:induction false} SelectComplete(ranked: seq<string>, counts: map<string, int>, names: int, threshold: int)
    ensures forall s :: s in ranked && Passes(s, counts, names, threshold) ==>
      (s, CountOf(counts, s)) in Select(ranked, counts, names, threshold)
  {
    if ranked != [] {
      SelectComplete(ranked[1..], counts, names, threshold);
      assert ranked == [ranked[0]] + ranked[1..];
    }
  }

  /** `idx` lists strictly increasing positions of `ranked` holding the
      signatures of `r`, in order. */
  ghost predicate PositionsOf(idx: seq<nat>, ranked: seq<string>, r: seq<Entry>) {
    && |idx| == |r|
    && (forall k :: 0 <= k < |idx| ==> idx[k] < |ranked| && ranked[idx[k]] == r[k].0)
    && (forall k1, k2 :: 0 <= k1 < k2 < |idx| ==> idx[k1] < idx[k2])
  }

  /** Positions in the tail of a list are, one further on, positions in the
      list itself. */
  lemma ShiftPositions(tail: seq<nat>, ranked: seq<string>, r: seq<Entry>) returns (idx: seq<nat>)
    requires ranked != []
    requires PositionsOf(tail, ranked[1..], r)
    ensures PositionsOf(idx, ranked, r)
    ensures forall k :: 0 <= k < |idx| ==> idx[k] > 0
  {
    idx := seq(|tail|, k requires 0 <= k < |tail| => tail[k] + 1);
    forall k | 0 <= k < |idx|
      ensures idx[k] < |ranked| && ranked[idx[k]] == r[k].0
    {
      assert ranked[1..][tail[k]] == r[k].0;
    }
  }

  /** Position 0 may be put in front of positions that all lie beyond it. */
  lemma PrependPosition(idx: seq<nat>, ranked: seq<string>, e: Entry, r: seq<Entry>)
    requires ranked != [] && ranked[0] == e.0
    requires PositionsOf(idx, ranked, r)
    requires forall k :: 0 <= k < |idx| ==> idx[k] > 0
    ensures PositionsOf([0] + idx, ranked, [e] + r)
  {
  }

  /** The report keeps the order of the ranking: its entries sit at strictly
      increasing positions of `ranked`. */
  lemma {:induction false} SelectPositions(ranked: seq<string>, counts: map<string, int>, names: int, threshold: int)
    returns (idx: seq<nat>)
    ensures PositionsOf(idx, ranked, Select(ranked, counts, names, threshold))
  {
    if ranked == [] {
      idx := [];
    } else {
      var rest := Select(ranked[1..], counts, names, threshold);
      var tail := SelectPositions(ranked[1..], counts, names, threshold);
      idx := ShiftPositions(tail, ranked, rest);
      if Passes(ranked[0], counts, names, threshold) {
        PrependPosition(idx, ranked, (ranked[0], CountOf(counts, ranked[0])), rest);
        idx := [0] + idx;
      }
    }
  }

  /** Ranking a strictly sorted list leaves each signature once. */
  lemma RankedNoDuplicates(xs: seq<string>, counts: map<string, int>)
    requires StrictlySorted(xs)
    ensures NoDuplicates(RankByCount(xs, counts))
  {
    var ranked := RankByCount(xs, counts);
    forall i, j | 0 <= i < j < |ranked|
      ensures ranked[i] != ranked[j]
    {
      DistinctOnce(xs, ranked[i]);
      TwiceCounted(ranked, i, j);
    }
  }

  /** Two equal elements at different positions count twice. */
  lemma TwiceCounted(ys: seq<string>, i: nat, j: nat)
    requires i < j < |ys|
    ensures ys[i] == ys[j] ==> multiset(ys)[ys[i]] >= 2
  {
    assert ys == ys[..j] + ys[j..];
    assert ys[i] == ys[..j][i] && ys[j] == ys[j..][0];
    assert multiset(ys) == multiset(ys[..j]) + multiset(ys[j..]);
  }

  /** A strictly sorted list holds each of its elements once. */
  lemma {:induction false} DistinctOnce(xs: seq<string>, s: string)
    requires StrictlySorted(xs)
    ensures multiset(xs)[s] <= 1
  {
    if xs != [] {
      assert xs == [xs[0]] + xs[1..];
      DistinctOnce(xs[1..], s);
      if s == xs[0] {
        forall k | 0 <= k < |xs[1..]|
          ensures xs[1..][k] != s
        {
          assert Less(xs[0], xs[k + 1]);
          LessIrreflexive(s);
        }
      }
    }
  }

  /** The ranked list of distinct signatures the report loop walks. */
  function Ranked(all: seq<string>): seq<string> {
    RankByCount(Distinct(all), Count(all))
  }

  /** The facts about `Ranked` the report needs: it holds each signature of
      `all` once, in order of non-decreasing count. */
  lemma RankedFacts(all: seq<string>)
    ensures forall s :: s in Ranked(all) <==> s in all
    ensures NoDuplicates(Ranked(all))
    ensures ByCount(Ranked(all), Count(all))
  {
    var ranked := Ranked(all);
    assert forall s :: s in ranked <==> s in multiset(ranked);
    RankedNoDuplicates(Distinct(all), Count(all));
  }

  /** Lines 81-100 of `Exec` on the concatenated list `all`: count, make
      distinct, order by count, filter.  The result holds exactly the
      distinct signatures of `all` with at least `names` spaces and at least
      `threshold` occurrences, each once and with its number of occurrences
      in `all`, in order of non-decreasing count. */
  function Ranking(all: seq<string>, names: int, threshold: int): (r: seq<Entry>)
    ensures forall k :: 0 <= k < |r| ==>
      && r[k].0 in all
      && r[k].1 == multiset(all)[r[k].0] >= 1
      && Spaces(r[k].0) >= names
      && r[k].1 >= threshold
    ensures forall s :: s in all && Spaces(s) >= names && multiset(all)[s] >= threshold ==>
      (s, multiset(all)[s]) in r
    ensures forall i, j :: 0 <= i < j < |r| ==> r[i].0 != r[j].0 && r[i].1 <= r[j].1
  {
    var r := Select(Ranked(all), Count(all), names, threshold);
    RankingFacts(all, names, threshold, r);
    r
  }

  lemma RankingFacts(all: seq<string>, names: int, threshold: int, r: seq<Entry>)
    requires r == Select(Ranked(all), Count(all), names, threshold)
    ensures forall k :: 0 <= k < |r| ==>
      && r[k].0 in all
      && r[k].1 == multiset(all)[r[k].0] >= 1
      && Spaces(r[k].0) >= names
      && r[k].1 >= threshold
    ensures forall s :: s in all && Spaces(s) >= names && multiset(all)[s] >= threshold ==>
      (s, multiset(all)[s]) in r
    ensures forall i, j :: 0 <= i < j < |r| ==> r[i].0 != r[j].0 && r[i].1 <= r[j].1
  {
    RankingSound(all, names, threshold);
    RankingComplete(all, names, threshold);
    RankingOrdered(all, names, threshold);
  }

  lemma RankingSound(all: seq<string>, names: int, threshold: int)
    ensures var r := Select(Ranked(all), Count(all), names, threshold);
      forall k :: 0 <= k < |r| ==>
        && r[k].0 in all
        && r[k].1 == multiset(all)[r[k].0] >= 1
        && Spaces(r[k].0) >= names
        && r[k].1 >= threshold
  {
  }

  lemma RankingComplete(all: seq<string>, names: int, threshold: int)
    ensures var r := Select(Ranked(all), Count(all), names, threshold);
      forall s :: s in all && Spaces(s) >= names && multiset(all)[s] >= threshold ==>
        (s, multiset(all)[s]) in r
  {
    RankedFacts(all);
    SelectComplete(Ranked(all), Count(all), names, threshold);
  }

  lemma RankingOrdered(all: seq<string>, names: int, threshold: int)
    ensures var r := Select(Ranked(all), Count(all), names, threshold);
      forall i, j :: 0 <= i < j < |r| ==> r[i].0 != r[j].0 && r[i].1 <= r[j].1
  {
    var ranked, counts := Ranked(all), Count(all);
    var r := Select(ranked, counts, names, threshold);
    RankedFacts(all);
    var idx := SelectPositions(ranked, counts, names, threshold);
    forall i, j | 0 <= i < j < |r|
      ensures r[i].0 != r[j].0 && r[i].1 <= r[j].1
    {
      assert idx[i] < idx[j];
      assert ranked[idx[i]] == r[i].0 && ranked[idx[j]] == r[j].0;
    }
  }

  /** When exactly one signature of `all` passes both thresholds, the report
      is that signature alone, with its number of occurrences. */
  lemma RankingSingle(all: seq<string>, s: string, names: int, threshold: int)
    requires s in all && Spaces(s) >= names && multiset(all)[s] >= threshold
    requires forall t :: t in all && t != s ==> Spaces(t) < names || multiset(all)[t] < threshold
    ensures Ranking(all, names, threshold) == [(s, multiset(all)[s])]
  {
    var r := Ranking(all, names, threshold);
    var e := (s, multiset(all)[s]);
    assert e in r;
    assert forall k :: 0 <= k < |r| ==> r[k] == e;
    DistinctBound(r, {s});
    assert |r| == 1 && r[0] == e;
  }

  /** A list of entries with pairwise distinct signatures, all drawn from
      `names`, is no longer than `names` is large. */
  lemma {:induction false} DistinctBound(r: seq<Entry>, names: set<string>)
    requires forall i, j :: 0 <= i < j < |r| ==> r[i].0 != r[j].0
    requires forall k :: 0 <= k < |r| ==> r[k].0 in names
    ensures |r| <= |names|
  {
    if r != [] {
      var rest := r[1..];
      forall k | 0 <= k < |rest|
        ensures rest[k].0 in names - {r[0].0}
      {
        assert rest[k] == r[k + 1];
      }
      forall i, j | 0 <= i < j < |rest|
        ensures rest[i].0 != rest[j].0
      {
        assert rest[i] == r[i + 1] && rest[j] == r[j + 1];
      }
      DistinctBound(rest, names - {r[0].0});
    }
  }

  /** One admissible report of the unstable sort: this model breaks count
      ties by bytewise order of the signature, which the source does not
      promise. */
  lemma RankingTieBreak(all: seq<string>, names: int, threshold: int)
    ensures var r := Ranking(all, names, threshold);
      forall i, j :: 0 <= i < j < |r| ==>
        r[i].1 < r[j].1 || (r[i].1 == r[j].1 && Less(r[i].0, r[j].0))
  {
    var ranked, counts := Ranked(all), Count(all);
    var r := Select(ranked, counts, names, threshold);
    RankTieBreak(Distinct(all), counts);
    var idx := SelectPositions(ranked, counts, names, threshold);
    forall i, j | 0 <= i < j < |r|
      ensures r[i].1 < r[j].1 || (r[i].1 == r[j].1 && Less(r[i].0, r[j].0))
    {
      assert idx[i] < idx[j];
      assert ranked[idx[i]] == r[i].0 && ranked[idx[j]] == r[j].0;
    }
  }

  /** The aggregation and ranking of `Exec` over the per-file signature
      lists.  A failing file makes the run fail with the first such error and
      no report; otherwise the report is the ranking of all the files'
      signatures, file after file. */
  function Report(files: seq<Result<seq<string>, FileError>>, names: int, threshold: int)
    : (r: Result<seq<Entry>, FileError>)
    ensures r.Failure? <==> exists i :: 0 <= i < |files| && files[i].Failure?
    ensures r.Failure? ==> IsFirstFailure(files, r.error)
    ensures r.Success? ==> r.value == Ranking(Gathered(files), names, threshold)
  {
    match Collect(files)
    case Failure(e) => Failure(e)
    case Success(all) => Success(Ranking(all, names, threshold))
  }
}
