/** The `while True: run(key); print len(addrs)` loop of ebits.py, bounded
    to a finite sequence of captured sample outputs, and the `main` that
    selects the key before entering it. */
module Observation {
  import opened Text
  import opened MapSampler
  import opened EntropyTracker
  import opened ModeSelection

  /** The dictionary after `run` has processed each sample output in turn. */
  function Accumulate(addrs: map<string, bool>, samples: seq<seq<string>>, key: string): map<string, bool>
    decreases |samples|
  {
    if samples == [] then addrs
    else Record(Accumulate(addrs, samples[..|samples| - 1], key), FirstMatch(samples[|samples| - 1], key))
  }

  /** The numbers printed: `len(addrs)` after each sample. */
  function Reports(addrs: map<string, bool>, samples: seq<seq<string>>, key: string): seq<nat>
    decreases |samples|
  {
    if samples == [] then []
    else Reports(addrs, samples[..|samples| - 1], key) + [|Accumulate(addrs, samples, key)|]
  }

  /** The distinct keys the samples yield, whatever their order or repetition. */
  ghost function DistinctKeys(samples: seq<seq<string>>, key: string): set<string>
  {
    set output | output in samples && FirstMatch(output, key).Some? :: FirstMatch(output, key).value
  }

  lemma DistinctKeysSnoc(samples: seq<seq<string>>, key: string)
    requires samples != []
    ensures FirstMatch(samples[|samples| - 1], key).None? ==>
            DistinctKeys(samples, key) == DistinctKeys(samples[..|samples| - 1], key)
    ensures FirstMatch(samples[|samples| - 1], key).Some? ==>
            DistinctKeys(samples, key) ==
            DistinctKeys(samples[..|samples| - 1], key) + {FirstMatch(samples[|samples| - 1], key).value}
  {
  }

  /** The keys recorded are those present at the start plus the distinct keys the samples yield. */
  lemma {:induction false} AccumulateKeys(addrs: map<string, bool>, samples: seq<seq<string>>, key: string)
    ensures Accumulate(addrs, samples, key).Keys == addrs.Keys + DistinctKeys(samples, key)
    decreases |samples|
  {
    if samples != [] {
      AccumulateKeys(addrs, samples[..|samples| - 1], key);
      DistinctKeysSnoc(samples, key);
    }
  }

  /** Accumulation keeps every entry True. */
  lemma {:induction false} AccumulateAllTrue(addrs: map<string, bool>, samples: seq<seq<string>>, key: string)
    requires AllTrue(addrs)
    ensures AllTrue(Accumulate(addrs, samples, key))
    decreases |samples|
  {
    if samples != [] {
      AccumulateAllTrue(addrs, samples[..|samples| - 1], key);
      RecordAtMostOne(Accumulate(addrs, samples[..|samples| - 1], key), FirstMatch(samples[|samples| - 1], key));
    }
  }

  /** One report per sample, the i-th being the length after the first i + 1 samples. */
  lemma {:induction false} ReportsAt(addrs: map<string, bool>, samples: seq<seq<string>>, key: string)
    ensures |Reports(addrs, samples, key)| == |samples|
    ensures forall i :: 0 <= i < |samples| ==>
              Reports(addrs, samples, key)[i] == |Accumulate(addrs, samples[..i + 1], key)|
    decreases |samples|
  {
    if samples != [] {
      var init := samples[..|samples| - 1];
      ReportsAt(addrs, init, key);
      forall i | 0 <= i < |samples|
        ensures Reports(addrs, samples, key)[i] == |Accumulate(addrs, samples[..i + 1], key)|
      {
        if i < |init| {
          assert init[..i + 1] == samples[..i + 1];
        } else {
          assert samples[..i + 1] == samples;
        }
      }
    }
  }

  /** Each report is the number of distinct keys seen so far (plus any present at the start). */
  lemma ReportsCountDistinct(addrs: map<string, bool>, samples: seq<seq<string>>, key: string, i: int)
    requires 0 <= i < |samples|
    ensures |Reports(addrs, samples, key)| == |samples|
    ensures Reports(addrs, samples, key)[i] == |addrs.Keys + DistinctKeys(samples[..i + 1], key)|
  {
    ReportsAt(addrs, samples, key);
    AccumulateKeys(addrs, samples[..i + 1], key);
  }

  /** From one report to the next the count grows by zero or one. */
  lemma ReportsStep(addrs: map<string, bool>, samples: seq<seq<string>>, key: string, i: int)
    requires 0 <= i && i + 1 < |samples|
    ensures |Reports(addrs, samples, key)| == |samples|
    ensures Reports(addrs, samples, key)[i] <= Reports(addrs, samples, key)[i + 1] <=
            Reports(addrs, samples, key)[i] + 1
  {
    ReportsAt(addrs, samples, key);
    var prefix := samples[..i + 2];
    assert prefix[..|prefix| - 1] == samples[..i + 1];
    RecordAtMostOne(Accumulate(addrs, samples[..i + 1], key), FirstMatch(samples[i + 1], key));
  }

  /** The first report is at least the starting length. */
  lemma ReportsFirst(addrs: map<string, bool>, samples: seq<seq<string>>, key: string)
    requires samples != []
    ensures |Reports(addrs, samples, key)| == |samples|
    ensures |addrs| <= Reports(addrs, samples, key)[0] <= |addrs| + 1
  {
  }

  /** The printed count never decreases. */
  lemma {:induction false} ReportsMonotone(addrs: map<string, bool>, samples: seq<seq<string>>, key: string, i: int, j: int)
    requires 0 <= i <= j < |samples|
    ensures |Reports(addrs, samples, key)| == |samples|
    ensures Reports(addrs, samples, key)[i] <= Reports(addrs, samples, key)[j]
    decreases j - i
  {
    ReportsAt(addrs, samples, key);
    if i < j {
      ReportsStep(addrs, samples, key, i);
      ReportsMonotone(addrs, samples, key, i + 1, j);
    }
  }

  /** Starting from the empty dictionary, the final count is the number of distinct keys. */
  lemma FinalCountDistinct(samples: seq<seq<string>>, key: string)
    ensures |Accumulate(map[], samples, key)| == |DistinctKeys(samples, key)|
  {
    var empty: map<string, bool> := map[];
    AccumulateKeys(empty, samples, key);
    assert empty.Keys == {};
  }

  /** The order in which samples arrive does not change which keys are recorded or how many. */
  lemma CountOrderIndependent(addrs: map<string, bool>, s1: seq<seq<string>>, s2: seq<seq<string>>, key: string)
    requires multiset(s1) == multiset(s2)
    ensures Accumulate(addrs, s1, key).Keys == Accumulate(addrs, s2, key).Keys
    ensures |Accumulate(addrs, s1, key)| == |Accumulate(addrs, s2, key)|
  {
    AccumulateKeys(addrs, s1, key);
    AccumulateKeys(addrs, s2, key);
    forall output ensures output in s1 <==> output in s2 {
      assert output in s1 <==> output in multiset(s1);
      assert output in s2 <==> output in multiset(s2);
    }
    assert DistinctKeys(s1, key) == DistinctKeys(s2, key);
  }

  /** The outcome of `main`: the exit status of a usage error, or the counts printed. */
  datatype Outcome = Exited(code: int) | Reported(counts: seq<nat>)

  /** The `while True` loop, run once per captured sample output. */
  method Observe(t: Tracker, samples: seq<seq<string>>, key: string) returns (reported: seq<nat>)
    requires t.Valid()
    modifies t
    ensures t.Valid()
    ensures t.addrs == Accumulate(old(t.addrs), samples, key)
    ensures reported == Reports(old(t.addrs), samples, key)
  {
    reported := [];
    for i := 0 to |samples|
      invariant t.Valid()
      invariant t.addrs == Accumulate(old(t.addrs), samples[..i], key)
      invariant reported == Reports(old(t.addrs), samples[..i], key)
    {
      assert samples[..i + 1][..i] == samples[..i];
      t.Run(samples[i], key);
      reported := reported + [t.Count()];
    }
    assert samples[..|samples|] == samples;
  }

  /** `main`: select the key from the flags, exit with -1 when none is set,
      and otherwise report the count after each sample, starting from the
      empty module-level dictionary. */
  method Measure(d: bool, e: bool, s: bool, samples: seq<seq<string>>) returns (outcome: Outcome)
    ensures SelectKey(d, e, s).UsageError? ==> outcome == Exited(SelectKey(d, e, s).exitCode)
    ensures SelectKey(d, e, s).Selected? ==>
            outcome == Reported(Reports(map[], samples, SelectKey(d, e, s).key))
  {
    var t := new Tracker();
    var selection := SelectKey(d, e, s);
    match selection
    case UsageError(code) =>
      outcome := Exited(code);
    case Selected(key) =>
      var counts := Observe(t, samples, key);
      outcome := Reported(counts);
  }

  /** A sample output whose single line is `addr-where` yields the key `addr`. */
  lemma WhereSample(addr: string)
    requires Delimiter !in addr
    ensures FirstMatch([addr + "-where"], Executable) == Some(addr)
  {
    var line := addr + "-where";
    assert OccursAt(line, Executable, |addr| + 1);
    ContainsIffOccurs(line, Executable);
    FirstFieldUnique(line, Delimiter, addr);
  }

  /** Three samples yielding keys k1, k2, k1 with k1 != k2 print 1, 2, 2. */
  lemma RepeatedKeyCounts(samples: seq<seq<string>>, key: string, k1: string, k2: string)
    requires |samples| == 3 && k1 != k2
    requires FirstMatch(samples[0], key) == Some(k1)
    requires FirstMatch(samples[1], key) == Some(k2)
    requires FirstMatch(samples[2], key) == Some(k1)
    ensures Reports(map[], samples, key) == [1, 2, 2]
  {
    var empty: map<string, bool> := map[];
    ReportsAt(empty, samples, key);
    assert samples[..2][..1] == samples[..1] && samples[..1][..0] == [] && samples[..3] == samples;
    assert samples[..1][0] == samples[0] && samples[..2][1] == samples[1];
    assert Accumulate(empty, samples[..1][..0], key) == empty;
    var m1 := Accumulate(empty, samples[..1], key);
    assert m1 == Record(empty, Some(k1));
    RecordAbsent(empty, k1);
    var m2 := Accumulate(empty, samples[..2], key);
    assert m2 == Record(m1, Some(k2));
    RecordAbsent(m1, k2);
    var m3 := Accumulate(empty, samples, key);
    assert m3 == Record(m2, Some(k1));
    RecordPresent(m2, k1);
  }

  /** The samples "1000-where", "2000-where", "1000-where" in executable mode print 1, 2, 2. */
  // The lines are parameters fixed by the requires, for the same reason as in
  // MapSampler.ExtractionExample: literals in the ensures are too costly to unfold.
  lemma ScenarioCounts(first: string, second: string)
    requires first == "1000-where" && second == "2000-where"
    ensures Reports(map[], [[first], [second], [first]], Executable) == [1, 2, 2]
  {
    WhereSample("1000");
    WhereSample("2000");
    assert first == "1000" + "-where" && second == "2000" + "-where";
    RepeatedKeyCounts([[first], [second], [first]], Executable, "1000", "2000");
  }
}
