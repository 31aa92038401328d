// The round trip estimator: 8-bit code against integer arithmetic, and what it converges to.

module TcpRtt {
  import opened Bytes
  import opened TcpClientModel

  const INITIAL := Rtt(0, 16, RTO)  // as connect() leaves it
  const MAX_SAMPLE := 31

  // One acknowledgement `elapsed` ticks after the segment was sent.
  function After(e: Rtt, elapsed: u8): Rtt {
    Measure(e, U8(e.rto - elapsed))
  }

  function Feed(e: Rtt, samples: seq<u8>): Rtt {
    if samples == [] then e else After(Feed(e, samples[..|samples| - 1]), samples[|samples| - 1])
  }

  // The estimator of Jacobson's article: sa is 8 times the mean, sv is 4 times the deviation.
  datatype Exact = Exact(sa: int, sv: int, rto: int)

  function ExactAfter(e: Exact, elapsed: u8): Exact {
    var err := elapsed - e.sa / 8;
    var sa, sv := e.sa + err, e.sv + (if err < 0 then -err else err) - e.sv / 4;
    Exact(sa, sv, sa / 8 + sv)
  }

  function ExactFeed(e: Exact, samples: seq<u8>): Exact {
    if samples == [] then e else ExactAfter(ExactFeed(e, samples[..|samples| - 1]), samples[|samples| - 1])
  }

  function AsExact(e: Rtt): Exact { Exact(e.sa, e.sv, e.rto) }

  ghost predicate InRange(e: Rtt) { e.sa <= 248 && 3 <= e.sv <= 124 && 3 <= e.rto <= 155 }

  lemma MeasureIsExact(e: Rtt, elapsed: u8)
    requires InRange(e) && elapsed <= MAX_SAMPLE
    ensures AsExact(After(e, elapsed)) == ExactAfter(AsExact(e), elapsed)
    ensures InRange(After(e, elapsed))
  {
    assert S8(e.rto - U8(e.rto - elapsed)) == elapsed;
  }

  // Samples of at most 31 ticks never make an 8-bit operation wrap, however many there are.
  lemma {:induction false} SamplesStayInRange(samples: seq<u8>)
    requires forall i :: 0 <= i < |samples| ==> samples[i] <= MAX_SAMPLE
    ensures InRange(Feed(INITIAL, samples))
    ensures AsExact(Feed(INITIAL, samples)) == ExactFeed(AsExact(INITIAL), samples)
  {
    if samples != [] {
      SamplesStayInRange(samples[..|samples| - 1]);
      MeasureIsExact(Feed(INITIAL, samples[..|samples| - 1]), samples[|samples| - 1]);
    }
  }

  function Iterate<T>(f: T -> T, x: T, n: nat): T
    decreases n
  {
    if n == 0 then x else Iterate(f, f(x), n - 1)
  }

  function Sampled(r: u8): Rtt -> Rtt { e => After(e, r) }

  function Constant(e: Rtt, r: u8, n: nat): Rtt { Iterate(Sampled(r), e, n) }

  // Where a constant sample drives sa. Only an estimate that starts above overshoots 8r.
  function Limit(sa: u8, r: u8): int {
    if sa / 8 < r then 8 * r else if sa / 8 == r then sa else 8 * r + 7
  }

  lemma {:induction false} ReachesLimit(e: Rtt, r: u8) returns (n: nat)
    requires InRange(e) && r <= MAX_SAMPLE
    ensures n > 0 && AsExact(Constant(e, r, n)) == Exact(Limit(e.sa, r), 3, r + 3)
    decreases if e.sa / 8 < r then 8 * r - e.sa else if e.sa / 8 == r then 0 else e.sa, e.sv
  {
    MeasureIsExact(e, r);
    var e' := After(e, r);
    if e'.sa == Limit(e.sa, r) && e'.sv == 3 && e.sa / 8 == r {
      n := 1;
      assert Constant(e, r, 1) == Constant(e', r, 0);
    } else if e.sa / 8 == r && e.sv == 3 {
      assert false;
    } else {
      n := ReachesLimit(e', r);
      n := n + 1;
    }
  }

  lemma StaysAtLimit(e: Rtt, r: u8)
    requires r <= MAX_SAMPLE && e.sv == 3 && e.sa / 8 == r && e.sa <= 248 && e.rto == r + 3
    ensures After(e, r) == e
  {
    MeasureIsExact(e, r);
  }

  lemma {:induction false} IterateFixed<T>(f: T -> T, x: T, n: nat)
    requires f(x) == x
    ensures Iterate(f, x, n) == x
    decreases n
  {
    if n > 0 { IterateFixed(f, x, n - 1); }
  }

  lemma {:induction false} IterateAdds<T>(f: T -> T, x: T, m: nat, n: nat)
    ensures Iterate(f, x, m + n) == Iterate(f, Iterate(f, x, m), n)
    decreases m
  {
    if m > 0 { IterateAdds(f, f(x), m - 1, n); }
  }

  // A constant sample settles the estimator for good: rto is then the sample plus 3.
  lemma ConstantSampleSettles(e: Rtt, r: u8)
    requires InRange(e) && r <= MAX_SAMPLE
    ensures exists n: nat {:trigger Constant(e, r, n)} :: forall k: nat :: k >= n ==>
            AsExact(Constant(e, r, k)) == Exact(Limit(e.sa, r), 3, r + 3)
  {
    var n := ReachesLimit(e, r);
    forall k: nat | k >= n
      ensures AsExact(Constant(e, r, k)) == Exact(Limit(e.sa, r), 3, r + 3)
    {
      IterateAdds(Sampled(r), e, n, k - n);
      StaysAtLimit(Constant(e, r, n), r);
      IterateFixed(Sampled(r), Constant(e, r, n), k - n);
    }
  }

  // ----- the largest safe sample

  ghost predicate AtMost(samples: seq<u8>, most: u8) { forall i :: 0 <= i < |samples| ==> samples[i] <= most }

  // Every sample is no longer than the timeout before it; a later answer finds the segment sent
  // twice, and is no sample.
  ghost predicate Taken(samples: seq<u8>) {
    samples != [] ==>
      Taken(samples[..|samples| - 1]) && samples[|samples| - 1] <= Feed(INITIAL, samples[..|samples| - 1]).rto
  }

  ghost predicate IsExact(samples: seq<u8>) {
    AsExact(Feed(INITIAL, samples)) == ExactFeed(AsExact(INITIAL), samples)
  }

  lemma FeedSnoc(samples: seq<u8>, x: u8)
    ensures Feed(INITIAL, samples + [x]) == After(Feed(INITIAL, samples), x)
    ensures ExactFeed(AsExact(INITIAL), samples + [x]) == ExactAfter(ExactFeed(AsExact(INITIAL), samples), x)
    ensures Taken(samples + [x]) <==> Taken(samples) && x <= Feed(INITIAL, samples).rto
  {
    assert (samples + [x])[..|samples|] == samples;
  }

  // From here on, answers after 32 ticks are all in time, and push sa up.
  ghost predicate Climbing(e: Rtt) {
    45 <= e.sa && 32 - e.sa / 8 <= e.sv <= 110 && e.rto == e.sa / 8 + e.sv
  }

  lemma ClimbsOrWraps(e: Rtt)
    requires Climbing(e)
    ensures var e', x := After(e, 32), ExactAfter(AsExact(e), 32);
            && 32 <= e.rto && x.sa > e.sa
            && if x.sa < 256 then AsExact(e') == x && Climbing(e')
               else x.sa == 256 && e'.sa == 0 && x.rto == e'.rto + 32
  {
    assert S8(e.rto - U8(e.rto - 32)) == 32;
  }

  lemma {:induction false} ClimbsUntilItWraps(samples: seq<u8>) returns (longer: seq<u8>)
    requires AtMost(samples, 32) && Taken(samples) && IsExact(samples) && Climbing(Feed(INITIAL, samples))
    ensures AtMost(longer, 32) && Taken(longer) && Feed(INITIAL, longer).sa == 0
    ensures var x := ExactFeed(AsExact(INITIAL), longer); x.sa == 256 && x.rto == Feed(INITIAL, longer).rto + 32
    decreases 256 - Feed(INITIAL, samples).sa
  {
    hide After, ExactAfter, Feed, ExactFeed, Taken, Climbing;
    ClimbsOrWraps(Feed(INITIAL, samples));
    FeedSnoc(samples, 32);
    longer := samples + [32];
    if ExactFeed(AsExact(INITIAL), longer).sa < 256 {
      longer := ClimbsUntilItWraps(longer);
    }
  }

  lemma SlowerAnswers()
    ensures Taken([3, 15, 29]) && Feed(INITIAL, [3, 15, 29]) == Rtt(45, 48, 53)
  {
    assert Taken([]) && Feed(INITIAL, []) == INITIAL;
    hide Feed, ExactFeed, Taken, After, ExactAfter;
    assert [] + [3] == [3] && [3] + [15] == [3, 15] && [3, 15] + [29] == [3, 15, 29];
    FeedSnoc([], 3);
    FeedSnoc([3], 15);
    FeedSnoc([3, 15], 29);
    Answers();
  }

  lemma Answers()
    ensures After(INITIAL, 3) == Rtt(3, 15, 15) && After(Rtt(3, 15, 15), 15) == Rtt(18, 27, 29)
    ensures After(Rtt(18, 27, 29), 29) == Rtt(45, 48, 53)
  {
  }

  // A run that the client can meet: three answers that get slower, and then answers after 32
  // ticks, each in time, until the 8-bit average passes 255 and is 0. The timeout is then 32 ticks
  // too short.
  lemma SamplesOf32Wrap() returns (samples: seq<u8>)
    ensures AtMost(samples, 32) && Taken(samples) && Feed(INITIAL, samples).sa == 0
    ensures var x := ExactFeed(AsExact(INITIAL), samples); x.sa == 256 && x.rto == Feed(INITIAL, samples).rto + 32
  {
    hide Feed, ExactFeed, Taken;
    samples := [3, 15, 29];
    SlowerAnswers();
    SamplesStayInRange(samples);
    samples := ClimbsUntilItWraps(samples);
  }

  // 31 ticks is the largest bound on the samples under which the code is the integer estimator,
  // also when only samples that the client can take are counted.
  lemma LargestSafeSample(most: u8)
    ensures (forall samples :: AtMost(samples, most) ==> IsExact(samples)) <==> most <= MAX_SAMPLE
    ensures (forall samples :: AtMost(samples, most) && Taken(samples) ==> IsExact(samples)) <==> most <= MAX_SAMPLE
  {
    hide Feed, ExactFeed, Taken;
    if most <= MAX_SAMPLE {
      forall samples | AtMost(samples, most) ensures IsExact(samples) { SamplesStayInRange(samples); }
    } else {
      var samples := SamplesOf32Wrap();
      assert AtMost(samples, most) && !IsExact(samples);
    }
  }
}
