/**
  The bucketing of site-engagement scores for the per-bucket histograms.
  The bucket keys are ints, so every score is first cut to an int, toward
  zero, and then counted under the smallest key at least as large as that
  int; every bucket then reports its share of all scores as an integer
  percentage. The lookup without the cut, under the smallest key at least
  the score itself, is kept beside it as BucketOf. Scores are only
  compared and counted, so they are exact reals here.
*/
module SiteEngagement {
  import opened Wrappers
  import Decimal

  /** The bucket keys, ascending: 0, 10, ..., 100. */
  const BucketKeys: seq<nat> := [0, 10, 20, 30, 40, 50, 60, 70, 80, 90, 100]

  /** The common prefix of the bucket histograms' names. */
  const BucketHistogramBase: string := "SiteEngagementService.EngagementScoreBucket_"

  predicate Ascending(keys: seq<int>)
  {
    forall i, j :: 0 <= i < j < |keys| ==> keys[i] < keys[j]
  }

  lemma BucketKeysAscending()
    ensures Ascending(BucketKeys) && Distinct(BucketKeys)
    ensures |BucketKeys| == 11
    ensures forall i :: 0 <= i < |BucketKeys| ==> BucketKeys[i] == 10 * i
  {
    assert forall i :: 0 <= i < |BucketKeys| ==> BucketKeys[i] == 10 * i;
    assert Ascending(BucketKeys);
  }

  // ---------------------------------------------------------------------
  // Finding a bucket

  /**
    The lower bound of `x` among ascending `keys`: the smallest key that is
    not less than `x`, or None when every key is less than `x`.
  */
  function LowerBound(keys: seq<int>, x: real): (r: Option<int>)
    requires Ascending(keys)
    ensures r.None? ==> forall k :: k in keys ==> (k as real) < x
    ensures r.Some? ==> r.value in keys && x <= r.value as real
    ensures r.Some? ==> forall k :: k in keys && x <= k as real ==> r.value <= k
  {
    if |keys| == 0 then None
    else if x <= keys[0] as real then
      assert forall k :: k in keys ==> keys[0] <= k by {
        forall k | k in keys
          ensures keys[0] <= k
        {
          var j :| 0 <= j < |keys| && keys[j] == k;
        }
      }
      Some(keys[0])
    else
      assert keys == [keys[0]] + keys[1..];
      LowerBound(keys[1..], x)
  }

  /**
    The bucket of a score without the cut to an int: the smallest key at
    least the score itself; none above 100.
  */
  function BucketOf(score: real): (r: Option<int>)
    ensures r.Some? <==> score <= 100.0
    ensures r.Some? ==> r.value in BucketKeys && score <= r.value as real
    ensures r.Some? ==> forall k :: k in BucketKeys && score <= k as real ==> r.value <= k
  {
    BucketKeysAscending();
    assert 100 in BucketKeys;
    LowerBound(BucketKeys, score)
  }

  /** A score in 0..100 lands in the bucket of the next multiple of ten. */
  lemma BucketOfInRange(score: real, i: int)
    requires 0 <= i <= 10
    requires (10 * i - 10) as real < score <= (10 * i) as real
    ensures BucketOf(score) == Some(10 * i)
  {
    BucketKeysAscending();
    assert BucketKeys[i] == 10 * i;
    assert 10 * i in BucketKeys;
    var b := BucketOf(score).value;
    assert b <= 10 * i;
    var j :| 0 <= j < |BucketKeys| && BucketKeys[j] == b;
    assert b == 10 * j;
  }

  // ---------------------------------------------------------------------
  // The bucket lookup as written

  /** The conversion of a double to an int: the fraction is cut off, toward zero. */
  function TruncateToInt(x: real): (r: int)
    ensures x >= 0.0 ==> r as real <= x < r as real + 1.0
    ensures x < 0.0 ==> r as real - 1.0 < x <= r as real
  {
    if x >= 0.0 then x.Floor else -((-x).Floor)
  }

  /**
    The lookup as the source writes it: the map's keys are ints, so the
    score is converted to an int, cutting off its fraction, before it is
    compared with the keys.
  */
  function BucketOfAsWritten(score: real): (r: Option<int>)
    ensures r == BucketOf(TruncateToInt(score) as real)
    ensures r.Some? <==> score < 101.0
    ensures r.Some? ==> r.value in BucketKeys && TruncateToInt(score) <= r.value
  {
    BucketKeysAscending();
    LowerBound(BucketKeys, TruncateToInt(score) as real)
  }

  /**
    A score with a fraction just above a key is counted under that key
    instead of the next one: 10.5 goes to bucket 10, while the smallest key
    at least 10.5 is 20.
  */
  lemma AsWrittenMisplacesFractions()
    ensures BucketOfAsWritten(10.5) == Some(10)
    ensures BucketOf(10.5) == Some(20)
  {
    BucketOfInRange(10.0, 1);
    BucketOfInRange(10.5, 2);
  }

  /**
    The buckets as written: bucket 10i (for i in 1..10) takes the scores
    from 10i - 9 up to but excluding 10i + 1, and bucket 0 every score
    below 1.
  */
  lemma BucketOfAsWrittenInRange(score: real, i: int)
    requires 1 <= i <= 10
    requires (10 * i - 9) as real <= score < (10 * i + 1) as real
    ensures BucketOfAsWritten(score) == Some(10 * i)
  {
    var t := TruncateToInt(score);
    assert 10 * i - 9 <= t <= 10 * i;
    BucketOfInRange(t as real, i);
  }

  lemma BucketOfAsWrittenZero(score: real)
    requires score < 1.0
    ensures BucketOfAsWritten(score) == Some(0)
  {
    var t := TruncateToInt(score);
    assert t <= 0;
    assert BucketKeys[0] == 0;
    var b := BucketOf(t as real).value;
    assert b <= 0;
    var j :| 0 <= j < |BucketKeys| && BucketKeys[j] == b;
  }

  /** On whole-number scores the two lookups agree. */
  lemma AsWrittenAgreesOnWholeScores(n: int)
    ensures BucketOfAsWritten(n as real) == BucketOf(n as real)
  {
  }

  // ---------------------------------------------------------------------
  // Counting

  /** How many of the scores the lookup as written puts in bucket `key`. */
  function CountIn(scores: seq<real>, key: int): (r: nat)
    ensures r <= |scores|
  {
    if |scores| == 0 then 0
    else CountIn(scores[..|scores| - 1], key) + (if BucketOfAsWritten(scores[|scores| - 1]) == Some(key) then 1 else 0)
  }

  /** How many of the scores are below 101. */
  function Bucketed(scores: seq<real>): (r: nat)
    ensures r <= |scores|
  {
    if |scores| == 0 then 0
    else Bucketed(scores[..|scores| - 1]) + (if scores[|scores| - 1] < 101.0 then 1 else 0)
  }

  /** The counts of the given keys, added up. */
  function SumCounts(scores: seq<real>, keys: seq<int>): nat
  {
    if |keys| == 0 then 0 else CountIn(scores, keys[0]) + SumCounts(scores, keys[1..])
  }

  predicate Distinct(keys: seq<int>)
  {
    forall i, j :: 0 <= i < j < |keys| ==> keys[i] != keys[j]
  }

  /** One more score adds one to the sum of the distinct keys' counts exactly when its bucket is one of them. */
  lemma {:induction false} SumCountsStep(scores: seq<real>, keys: seq<int>)
    requires |scores| > 0 && Distinct(keys)
    ensures SumCounts(scores, keys) ==
      SumCounts(scores[..|scores| - 1], keys) +
      (if BucketOfAsWritten(scores[|scores| - 1]).Some? && BucketOfAsWritten(scores[|scores| - 1]).value in keys then 1 else 0)
  {
    if |keys| > 0 {
      assert Distinct(keys[1..]);
      SumCountsStep(scores, keys[1..]);
      assert keys == [keys[0]] + keys[1..];
    }
  }

  /** With no scores every count is zero. */
  lemma {:induction false} SumCountsEmpty(keys: seq<int>)
    ensures SumCounts([], keys) == 0
  {
    if |keys| > 0 {
      SumCountsEmpty(keys[1..]);
    }
  }

  /**
    Every score below 101 (whose int part is at most 100) is counted in
    exactly one bucket and every other score in none, so the counts add up
    to at most the number of scores.
  */
  lemma {:induction false} CountsAddUp(scores: seq<real>)
    ensures SumCounts(scores, BucketKeys) == Bucketed(scores)
    ensures SumCounts(scores, BucketKeys) <= |scores|
  {
    BucketKeysAscending();
    if |scores| == 0 {
      SumCountsEmpty(BucketKeys);
    } else {
      CountsAddUp(scores[..|scores| - 1]);
      SumCountsStep(scores, BucketKeys);
    }
  }

  /** A count of at most `n` is a share of at most 100 percent of `n`. */
  lemma ShareAtMost100(count: nat, n: nat)
    requires 0 < n && count <= n
    ensures 0 <= count * 100 / n <= 100
  {
    var q := count * 100 / n;
    assert q * n <= count * 100;
    assert (q - 100) * n == q * n - 100 * n;
    assert (q - 100) * n <= 0;
    NonPositiveFactor(q - 100, n);
  }

  lemma NonPositiveFactor(d: int, n: int)
    requires n > 0 && d * n <= 0
    ensures d <= 0
  {
  }

  /** The integer percentage of `n` that `count` makes up, rounded down. */
  function Share(count: nat, n: nat): (v: int)
    requires n > 0
    ensures v * n <= count * 100 < (v + 1) * n
    ensures count <= n ==> 0 <= v <= 100
  {
    if count <= n then ShareAtMost100(count, n); count * 100 / n
    else count * 100 / n
  }

  // ---------------------------------------------------------------------
  // Recording

  /** The name of the histogram of bucket `key`: the base followed by the key in decimal. */
  function BucketHistogramName(key: nat): (name: string)
    ensures |name| > |BucketHistogramBase|
    ensures name[..|BucketHistogramBase|] == BucketHistogramBase
    ensures Decimal.ParseNumber(name[|BucketHistogramBase|..]) == Some(key)
  {
    Decimal.ParseNumberToString(key);
    var name := BucketHistogramBase + Decimal.NumberToString(key);
    assert name[|BucketHistogramBase|..] == Decimal.NumberToString(key);
    name
  }

  /** One sample: the histogram it goes to and the value added to it. */
  datatype Sample = Sample(histogram: string, value: int)

  /** `counts` holds, under every bucket key, how many of `scores` land in that bucket. */
  predicate Tallies(counts: map<int, nat>, scores: seq<real>)
  {
    forall j :: 0 <= j < |BucketKeys| ==>
      BucketKeys[j] in counts && counts[BucketKeys[j]] == CountIn(scores, BucketKeys[j])
  }

  /** Every bucket key, with a count of zero. */
  function InitialCounts(): (counts: map<int, nat>)
    ensures Tallies(counts, [])
  {
    map k | k in BucketKeys :: 0
  }

  /** Counts one more score: one is added to the count of its bucket, if it has one. */
  function Tally(counts: map<int, nat>, score: real): map<int, nat>
  {
    match BucketOfAsWritten(score)
    case None => counts
    case Some(b) => if b in counts then counts[b := counts[b] + 1] else counts
  }

  lemma TallyStep(counts: map<int, nat>, scores: seq<real>, i: nat)
    requires i < |scores| && Tallies(counts, scores[..i])
    ensures Tallies(Tally(counts, scores[i]), scores[..i + 1])
  {
    assert scores[..i + 1][..i] == scores[..i];
  }

  /** The bucket counts: every key starts at zero, and every score adds one to its bucket. */
  method CountBuckets(scores: seq<real>) returns (counts: map<int, nat>)
    ensures Tallies(counts, scores)
  {
    counts := InitialCounts();
    var i := 0;
    while i < |scores|
      invariant 0 <= i <= |scores|
      invariant Tallies(counts, scores[..i])
    {
      TallyStep(counts, scores, i);
      counts := Tally(counts, scores[i]);
      i := i + 1;
    }
    assert scores[..i] == scores;
  }

  /** `sample` is the report for bucket `key`: its histogram, and the bucket's share of the scores. */
  predicate Reports(sample: Sample, key: nat, scores: seq<real>)
    requires |scores| > 0
  {
    && sample.histogram == BucketHistogramName(key)
    && sample.value == Share(CountIn(scores, key), |scores|)
  }

  /**
    Records the bucket shares of a list of scores: nothing for an empty
    list, otherwise one sample per bucket, in key order, of the bucket's
    count times 100 divided by the number of scores.
  */
  method RecordEngagementScores(scores: seq<real>) returns (samples: seq<Sample>)
    ensures |scores| == 0 ==> samples == []
    ensures |scores| > 0 ==> |samples| == |BucketKeys|
    ensures |scores| > 0 ==> forall i :: 0 <= i < |samples| ==> Reports(samples[i], BucketKeys[i], scores)
    ensures forall i :: 0 <= i < |samples| ==> 0 <= samples[i].value <= 100
  {
    samples := [];
    if |scores| == 0 {
      return;
    }
    var counts := CountBuckets(scores);
    samples := seq(|BucketKeys|, j requires 0 <= j < |BucketKeys| && Tallies(counts, scores) =>
      Sample(BucketHistogramName(BucketKeys[j]), counts[BucketKeys[j]] * 100 / |scores|));
    forall i | 0 <= i < |samples|
      ensures Reports(samples[i], BucketKeys[i], scores) && 0 <= samples[i].value <= 100
    {
      assert samples[i].value == Share(CountIn(scores, BucketKeys[i]), |scores|);
    }
  }

  /** The names of all bucket histograms, in key order. */
  function GetEngagementBucketHistogramNames(): (names: seq<string>)
    ensures |names| == |BucketKeys|
    ensures forall i :: 0 <= i < |names| ==> names[i] == BucketHistogramName(BucketKeys[i])
  {
    seq(|BucketKeys|, i requires 0 <= i < |BucketKeys| => BucketHistogramName(BucketKeys[i]))
  }

  /** The eleven names are pairwise different, and each one's suffix reads back as its key. */
  lemma BucketHistogramNamesDistinct()
    ensures var names := GetEngagementBucketHistogramNames();
      && |names| == 11
      && (forall i, j :: 0 <= i < j < |names| ==> names[i] != names[j])
      && (forall i :: 0 <= i < |names| ==> Decimal.ParseNumber(names[i][|BucketHistogramBase|..]) == Some(10 * i))
  {
    BucketKeysAscending();
  }

  /** Every bucket's share of one list of scores lies in 0..100, and the counts behind them add up to at most the number of scores. */
  lemma SharesBounded(scores: seq<real>)
    requires |scores| > 0
    ensures forall key :: 0 <= Share(CountIn(scores, key), |scores|) <= 100
    ensures SumCounts(scores, BucketKeys) <= |scores|
  {
    CountsAddUp(scores);
  }

  /**
    Fractions are cut before counting: 10.5 is counted in bucket 10, not
    20, and 100.5 in bucket 100 rather than in none.
  */
  lemma FractionsCountedBelow()
    ensures CountIn([10.5], 10) == 1 && CountIn([10.5], 20) == 0
    ensures CountIn([100.5], 100) == 1 && Bucketed([100.5]) == 1
  {
    AsWrittenMisplacesFractions();
    BucketOfAsWrittenInRange(100.5, 10);
    CountInSingle(10.5, 10);
    CountInSingle(10.5, 20);
    CountInSingle(100.5, 100);
    assert [100.5][..0] == [];
  }

  lemma CountInSingle(score: real, key: int)
    ensures CountIn([score], key) == if BucketOfAsWritten(score) == Some(key) then 1 else 0
  {
    assert [score][..0] == [];
  }
}
