/**
  The work-time counter: clock-in/clock-out checkpoints given as `hh:mm`
  tokens are validated by count, parsed into times of day, and the
  durations of consecutive (start, end) pairs are summed.
 */
module WorkTime {
  import opened Wrappers
  import opened Chrono

  /** A signed elapsed time in seconds (chrono's `Duration`, unbounded here). */
  type Duration = int

  const SecondsPerHour: int := 3600

  // ---------------------------------------------------------------------
  // Input validation
  // ---------------------------------------------------------------------

  /**
    At least two arguments and an even number of them; contents are never
    looked at. Put in terms of pairs: there is at least one (start, end)
    pair, and the pairs use up every argument.
   */
  function ValidateInput(args: seq<string>): (ok: bool)
    ensures ok <==> 1 <= |args| / 2 && 2 * (|args| / 2) == |args|
  {
    var len := |args|;
    var hasMoreThanTwoArgs := len >= 2;
    var argsNumberIsEven := len % 2 == 0;
    hasMoreThanTwoArgs && argsNumberIsEven
  }

  /** The verdict depends only on how many arguments there are. */
  lemma ValidateInputIgnoresContents(a: seq<string>, b: seq<string>)
    requires |a| == |b|
    ensures ValidateInput(a) == ValidateInput(b)
  {
  }

  lemma ValidateInputExamples()
    ensures !ValidateInput([])
    ensures !ValidateInput(["8:00"])
    ensures ValidateInput(["8:00", "9:00"])
    ensures !ValidateInput(["8:00", "9:00", "10:00"])
  {
  }

  // ---------------------------------------------------------------------
  // Parsing
  // ---------------------------------------------------------------------

  /** One checkpoint token: `":00"` is appended and the result parsed as a time. */
  function ParseToken(token: string): (r: Option<NaiveTime>)
    ensures r.Some? ==> r.value.Valid() && r.value.second == 0
  {
    ParsedSecondsAreZero(token);
    ParseTime(token + ":00")
  }

  /**
    The appended `":00"` is always what the seconds field reads: whatever
    precedes it, a time that parses has no seconds.
   */
  lemma ParsedSecondsAreZero(token: string)
    ensures ParseTime(token + ":00").Some? ==> ParseTime(token + ":00").value.second == 0
  {
  }

  /** Writes a time as an `hh:mm` token, the form the command line expects. */
  function FormatToken(t: NaiveTime): (token: string)
    requires t.Valid()
    ensures |token| == 5
  {
    FormatTime(t)[..5]
  }

  /** Every valid whole-minute time, written as `hh:mm`, is accepted and read back unchanged. */
  lemma ParseTokenRoundTrip(t: NaiveTime)
    requires t.Valid() && t.second == 0
    ensures ParseToken(FormatToken(t)) == Some(t)
  {
  }

  lemma ParseTokenExamples()
    ensures ParseToken("8:00") == Some(NaiveTime(8, 0, 0))
    ensures ParseToken("16:00") == Some(NaiveTime(16, 0, 0))
    ensures ParseToken("8:60") == None
    ensures ParseToken("24:00") == None
    ensures ParseToken("8") == None
  {
  }

  /**
    `parse_args_to_time`: parses every token in order and gives up with
    `None` at the first one that does not parse; never a partial list.
   */
  method ParseArgsToTime(args: seq<string>) returns (r: Option<seq<NaiveTime>>)
    ensures r.None? <==> exists i :: 0 <= i < |args| && ParseToken(args[i]).None?
    ensures r.Some? ==> |r.value| == |args|
    ensures r.Some? ==> forall i :: 0 <= i < |args| ==> ParseToken(args[i]) == Some(r.value[i])
    ensures r.Some? ==> forall i :: 0 <= i < |args| ==> r.value[i].Valid() && r.value[i].second == 0
  {
    var timeList: seq<NaiveTime> := [];
    for i := 0 to |args|
      invariant |timeList| == i
      invariant forall k :: 0 <= k < i ==> ParseToken(args[k]) == Some(timeList[k])
    {
      var parseRes := ParseToken(args[i]);
      if parseRes.None? {
        return None;
      }
      timeList := timeList + [parseRes.value];
    }
    return Some(timeList);
  }

  // ---------------------------------------------------------------------
  // Summing the work time
  // ---------------------------------------------------------------------

  /**
    The signed duration of each consecutive (start, end) pair, in order;
    an unpaired trailing element contributes nothing.
   */
  function PairDiffs(ts: seq<NaiveTime>): (d: seq<Duration>)
    ensures |d| == |ts| / 2
    ensures forall k :: 0 <= k < |d| ==> d[k] == SignedDurationSince(ts[2 * k + 1], ts[2 * k])
    decreases |ts|
  {
    if |ts| < 2 then []
    else
      var rest := PairDiffs(ts[2..]);
      var d := [SignedDurationSince(ts[1], ts[0])] + rest;
      assert forall k :: 1 <= k < |d| ==> d[k] == rest[k - 1];
      d
  }

  function Sum(s: seq<Duration>): Duration {
    if s == [] then 0 else s[0] + Sum(s[1..])
  }

  /** The total work time: the sum of the pair durations, starting from zero. */
  function TotalWorkTime(ts: seq<NaiveTime>): Duration {
    Sum(PairDiffs(ts))
  }

  lemma {:induction false} SumAppend(s: seq<Duration>, t: seq<Duration>)
    ensures Sum(s + t) == Sum(s) + Sum(t)
    decreases |s|
  {
    if s == [] {
      assert s + t == t;
    } else {
      assert (s + t)[1..] == s[1..] + t;
      SumAppend(s[1..], t);
    }
  }

  /** Extending an even-length list by one more pair adds that pair's duration. */
  lemma PairDiffsAppendPair(ts: seq<NaiveTime>, start: NaiveTime, end: NaiveTime)
    requires |ts| % 2 == 0
    ensures PairDiffs(ts + [start, end]) == PairDiffs(ts) + [SignedDurationSince(end, start)]
  {
  }

  /** An element after the last complete pair is ignored. */
  lemma PairDiffsDropTrailing(ts: seq<NaiveTime>, x: NaiveTime)
    requires |ts| % 2 == 0
    ensures PairDiffs(ts + [x]) == PairDiffs(ts)
  {
  }

  /** One more checkpoint either opens a pair (no new diff) or closes one (one new diff). */
  lemma PairDiffsPrefixStep(ts: seq<NaiveTime>, i: nat)
    requires i < |ts|
    ensures i % 2 == 0 ==> PairDiffs(ts[..i + 1]) == PairDiffs(ts[..i])
    ensures i % 2 == 1 ==>
      PairDiffs(ts[..i + 1]) == PairDiffs(ts[..i]) + [SignedDurationSince(ts[i], ts[i - 1])]
  {
  }

  lemma SumPrefixStep(s: seq<Duration>, j: nat)
    requires j < |s|
    ensures Sum(s[..j + 1]) == Sum(s[..j]) + s[j]
  {
    assert s[..j + 1] == s[..j] + [s[j]];
    SumAppend(s[..j], [s[j]]);
  }

  /**
    `count_work_time`: a toggling `isPair` flag remembers the start of the
    current pair and collects `end - start` once the pair is complete; the
    collected durations are then added up from zero.
   */
  method CountWorkTime(timeList: seq<NaiveTime>) returns (result: Duration)
    ensures result == TotalWorkTime(timeList)
  {
    result := 0;
    var diffsToSum: seq<Duration> := [];
    var firstElement := NaiveTime(0, 0, 0);
    var isPair := false;

    // Collect time diffs
    for i := 0 to |timeList|
      invariant isPair <==> i % 2 == 1
      invariant isPair ==> firstElement == timeList[i - 1]
      invariant diffsToSum == PairDiffs(timeList[..i])
    {
      var nextElement := timeList[i];
      PairDiffsPrefixStep(timeList, i);
      if !isPair {
        firstElement := nextElement;
      } else {
        diffsToSum := diffsToSum + [SignedDurationSince(nextElement, firstElement)];
      }
      isPair := !isPair;
    }
    assert timeList[..|timeList|] == timeList;

    for j := 0 to |diffsToSum|
      invariant result == Sum(diffsToSum[..j])
    {
      SumPrefixStep(diffsToSum, j);
      result := result + diffsToSum[j];
    }
    assert diffsToSum[..|diffsToSum|] == diffsToSum;
  }

  // ---------------------------------------------------------------------
  // Properties of the total
  // ---------------------------------------------------------------------

  lemma WorkTimeEmpty()
    ensures TotalWorkTime([]) == 0
  {
  }

  /** With an odd number of checkpoints, the last one is ignored. */
  lemma WorkTimeIgnoresTrailing(ts: seq<NaiveTime>)
    requires |ts| % 2 == 1
    ensures TotalWorkTime(ts) == TotalWorkTime(ts[..|ts| - 1])
  {
    assert ts == ts[..|ts| - 1] + [ts[|ts| - 1]];
    PairDiffsDropTrailing(ts[..|ts| - 1], ts[|ts| - 1]);
  }

  /** Splitting the day after a complete pair splits the total. */
  lemma WorkTimeConcat(xs: seq<NaiveTime>, ys: seq<NaiveTime>)
    requires |xs| % 2 == 0
    ensures TotalWorkTime(xs + ys) == TotalWorkTime(xs) + TotalWorkTime(ys)
  {
    var ext := xs + ys;
    var lhs, rhs := PairDiffs(ext), PairDiffs(xs) + PairDiffs(ys);
    assert |lhs| == |rhs|;
    forall k | 0 <= k < |lhs| ensures lhs[k] == rhs[k] {
      if k < |xs| / 2 {
        assert ext[2 * k] == xs[2 * k] && ext[2 * k + 1] == xs[2 * k + 1];
      } else {
        var k' := k - |xs| / 2;
        assert ext[2 * k] == ys[2 * k'] && ext[2 * k + 1] == ys[2 * k' + 1];
      }
    }
    assert lhs == rhs;
    SumAppend(PairDiffs(xs), PairDiffs(ys));
  }

  /**
    The validator accepts exactly the argument lists whose checkpoints all
    fall into (start, end) pairs, with at least one pair.
   */
  lemma ValidateInputIffFullyPaired(args: seq<string>, ts: seq<NaiveTime>)
    requires |ts| == |args|
    ensures ValidateInput(args) <==> 1 <= |PairDiffs(ts)| && 2 * |PairDiffs(ts)| == |ts|
  {
  }

  predicate AllValid(ts: seq<NaiveTime>) {
    forall i :: 0 <= i < |ts| ==> ts[i].Valid()
  }

  /** Each pair adds strictly less than a day in either direction. */
  lemma {:induction false} WorkTimeBounds(ts: seq<NaiveTime>)
    requires AllValid(ts) && |ts| >= 2
    ensures -SecondsPerDay * |PairDiffs(ts)| < TotalWorkTime(ts) < SecondsPerDay * |PairDiffs(ts)|
    decreases |ts|
  {
    if |ts| >= 4 {
      WorkTimeBounds(ts[2..]);
    } else {
      assert TotalWorkTime(ts[2..]) == 0;
    }
  }

  /** Checkpoints that never go back on the clock. */
  predicate Chronological(ts: seq<NaiveTime>) {
    forall i, j :: 0 <= i < j < |ts| ==> SecondsFromMidnight(ts[i]) <= SecondsFromMidnight(ts[j])
  }

  /**
    For chronological checkpoints the total is never negative and never
    longer than the span from the first checkpoint to the last.
   */
  lemma {:induction false} WorkTimeWithinSpan(ts: seq<NaiveTime>)
    requires Chronological(ts) && |ts| >= 1
    ensures 0 <= TotalWorkTime(ts) <= SecondsFromMidnight(ts[|ts| - 1]) - SecondsFromMidnight(ts[0])
    decreases |ts|
  {
    if |ts| >= 3 {
      var rest := ts[2..];
      assert Chronological(rest) by {
        forall i, j | 0 <= i < j < |rest|
          ensures SecondsFromMidnight(rest[i]) <= SecondsFromMidnight(rest[j])
        {
          assert rest[i] == ts[i + 2] && rest[j] == ts[j + 2];
        }
      }
      WorkTimeWithinSpan(rest);
      assert rest[|rest| - 1] == ts[|ts| - 1] && rest[0] == ts[2];
      assert SecondsFromMidnight(ts[0]) <= SecondsFromMidnight(ts[1]) <= SecondsFromMidnight(ts[2]);
    } else if |ts| == 2 {
      assert TotalWorkTime(ts[2..]) == 0;
      assert SecondsFromMidnight(ts[0]) <= SecondsFromMidnight(ts[1]);
    }
  }

  /** A pair whose end is before its start counts negatively: no overnight correction. */
  lemma OvernightPairIsNegative()
    ensures TotalWorkTime([NaiveTime(22, 0, 0), NaiveTime(6, 0, 0)]) == -16 * SecondsPerHour
  {
  }

  lemma WorkTimeExamples()
    ensures TotalWorkTime([NaiveTime(7, 0, 0), NaiveTime(15, 0, 0)]) == 8 * SecondsPerHour
    ensures TotalWorkTime([NaiveTime(7, 0, 0), NaiveTime(8, 0, 0),
                      NaiveTime(8, 15, 0), NaiveTime(15, 15, 0)]) == 8 * SecondsPerHour
  {
  }

  /**
    The examples in the library's documentation, through all three stages:
    `8:00 16:00` and `8:00 15:00 16:00 17:00` pass validation, every token
    parses to a whole hour, and both lists give 8 hours of work.
   */
  lemma DocumentedExamples()
    ensures ValidateInput(["8:00", "16:00"])
    ensures ValidateInput(["8:00", "15:00", "16:00", "17:00"])
    ensures ParseToken("8:00") == Some(NaiveTime(8, 0, 0))
    ensures ParseToken("15:00") == Some(NaiveTime(15, 0, 0))
    ensures ParseToken("16:00") == Some(NaiveTime(16, 0, 0))
    ensures ParseToken("17:00") == Some(NaiveTime(17, 0, 0))
    ensures TotalWorkTime([NaiveTime(8, 0, 0), NaiveTime(16, 0, 0)]) == 8 * SecondsPerHour
    ensures TotalWorkTime([NaiveTime(8, 0, 0), NaiveTime(15, 0, 0),
                           NaiveTime(16, 0, 0), NaiveTime(17, 0, 0)]) == 8 * SecondsPerHour
  {
  }
}
