/**
 Rates derived from cumulative counters: each sample compares the current reading with the previous
 one, and the published rates must add up to what the counters really gained.
 */
module Counters {
  import opened Options
  import opened Times

  datatype Totals = Totals(readBytes: nat, writeBytes: nat, readOps: nat, writeOps: nat)

  /** One of the four counters. */
  type Field = Totals -> nat

  ghost predicate IsField(f: Field) {
    || (forall t: Totals :: f(t) == t.readBytes)
    || (forall t: Totals :: f(t) == t.writeBytes)
    || (forall t: Totals :: f(t) == t.readOps)
    || (forall t: Totals :: f(t) == t.writeOps)
  }

  /** One reading of all devices; times in nanoseconds. */
  datatype Reading = Reading(at: int, counters: map<string, Totals>)

  datatype Sample = Sample(device: string, rates: Totals, at: int)

  /** The nearest whole rate, halves upwards; a counter reset yields 0. */
  function PerSecond(cur: nat, prev: nat, secs: real): (r: nat)
    ensures cur >= prev && secs > 0.0 ==> -secs < 2.0 * (r as real * secs - (cur - prev) as real) <= secs
    ensures cur < prev ==> r == 0
  {
    if cur < prev || secs <= 0.0 then 0
    else
      var r := ((cur - prev) as real / secs + 0.5).Floor;
      Nearest((cur - prev) as real, secs, r);
      r
  }

  lemma Nearest(growth: real, secs: real, r: int)
    requires growth >= 0.0 && secs > 0.0 && r == (growth / secs + 0.5).Floor
    ensures r >= 0 && -secs < 2.0 * (r as real * secs - growth) <= secs
  {
    var exact := growth / secs;
    assert exact >= 0.0 && exact * secs == growth;
    Scaled(r as real, exact, secs, growth);
  }

  lemma Scaled(r: real, exact: real, secs: real, growth: real)
    requires secs > 0.0 && -0.5 < r - exact <= 0.5 && exact * secs == growth
    ensures -secs < 2.0 * (r * secs - growth) <= secs
  {
    var error := r * secs - growth;
    assert error + 0.5 * secs == (r - exact + 0.5) * secs;
    assert 0.5 * secs - error == (0.5 - r + exact) * secs;
    Product(r - exact + 0.5, secs);
    Product(0.5 - r + exact, secs);
  }

  lemma Product(x: real, y: real)
    requires x >= 0.0 && y > 0.0
    ensures x * y >= 0.0 && (x > 0.0 ==> x * y > 0.0)
  {}

  function Seconds(from: int, to: int): real {
    (to - from) as real / SECOND as real
  }

  // ----- what a run of readings should publish -----

  /** The seconds between reading k and the one before it. */
  function Elapsed(readings: seq<Reading>, k: nat): real
    requires 0 < k < |readings|
  {
    Seconds(readings[k - 1].at, readings[k].at)
  }

  /** The device was there at reading k and at the one before. */
  predicate Compared(readings: seq<Reading>, k: nat, device: string)
    requires k < |readings|
  {
    0 < k && device in readings[k].counters && device in readings[k - 1].counters
  }

  function Rate(readings: seq<Reading>, k: nat, device: string, f: Field): nat
    requires k < |readings|
  {
    if Compared(readings, k, device)
    then PerSecond(f(readings[k].counters[device]), f(readings[k - 1].counters[device]), Elapsed(readings, k))
    else 0
  }

  function Rates(readings: seq<Reading>, k: nat, device: string): Totals
    requires k < |readings|
  {
    Totals(Rate(readings, k, device, (t: Totals) => t.readBytes), Rate(readings, k, device, (t: Totals) => t.writeBytes),
           Rate(readings, k, device, (t: Totals) => t.readOps), Rate(readings, k, device, (t: Totals) => t.writeOps))
  }

  lemma FieldOfRates(readings: seq<Reading>, k: nat, device: string, f: Field)
    requires k < |readings| && IsField(f)
    ensures f(Rates(readings, k, device)) == Rate(readings, k, device, f)
  {}

  /** One sample per device of the last reading. */
  predicate IsBatch(readings: seq<Reading>, batch: seq<Sample>)
    requires |readings| > 0
  {
    var k := |readings| - 1;
    && (forall i :: 0 <= i < |batch| ==> batch[i].device in readings[k].counters)
    && (forall i :: 0 <= i < |batch| ==>
                      batch[i] == Sample(batch[i].device, Rates(readings, k, batch[i].device), readings[k].at))
    && (forall i, j :: 0 <= i < j < |batch| ==> batch[i].device != batch[j].device)
    && (forall device :: device in readings[k].counters ==> Has(batch, device))
  }

  predicate Has(batch: seq<Sample>, device: string) {
    exists i :: 0 <= i < |batch| && batch[i].device == device
  }

  /** The rates of one device against the previous totals; a new device has none. */
  function Derive(prev: map<string, Totals>, device: string, cur: Totals, secs: real): Totals {
    if device in prev && secs > 0.0 then
      var p := prev[device];
      Totals(PerSecond(cur.readBytes, p.readBytes, secs), PerSecond(cur.writeBytes, p.writeBytes, secs),
             PerSecond(cur.readOps, p.readOps, secs), PerSecond(cur.writeOps, p.writeOps, secs))
    else Totals(0, 0, 0, 0)
  }

  lemma DeriveIsRates(readings: seq<Reading>, k: nat, prev: map<string, Totals>, device: string, secs: real)
    requires k < |readings| && device in readings[k].counters
    requires if k == 0 then prev == map[] else prev == readings[k - 1].counters && secs == Elapsed(readings, k)
    ensures Derive(prev, device, readings[k].counters[device], secs) == Rates(readings, k, device)
  {}

  // ----- what is stored -----

  /** The stored samples of one device, oldest first. */
  function Own(samples: seq<Sample>, device: string): seq<Sample> {
    if samples == [] then []
    else
      var x := samples[|samples| - 1];
      Own(samples[..|samples| - 1], device) + if x.device == device then [x] else []
  }

  /** One sample for each reading that has the device. */
  function Expected(readings: seq<Reading>, device: string): seq<Sample> {
    if readings == [] then []
    else
      var n := |readings| - 1;
      Expected(readings[..n], device) +
      if device in readings[n].counters then [Sample(device, Rates(readings, n, device), readings[n].at)] else []
  }

  ghost predicate Logs(readings: seq<Reading>, stored: seq<Sample>) {
    forall device :: Own(stored, device) == Expected(readings, device)
  }

  lemma {:induction false} OwnConcat(a: seq<Sample>, b: seq<Sample>, device: string)
    ensures Own(a + b, device) == Own(a, device) + Own(b, device)
  {
    if b == [] {
      assert a + b == a;
    } else {
      OwnConcat(a, b[..|b| - 1], device);
      assert (a + b)[..|a + b| - 1] == a + b[..|b| - 1];
    }
  }

  /** A device that occurs once has that one sample, and one that does not occur has none. */
  lemma {:induction false} OwnOfDistinct(batch: seq<Sample>, device: string)
    requires forall i, j :: 0 <= i < j < |batch| ==> batch[i].device != batch[j].device
    ensures !Has(batch, device) ==> Own(batch, device) == []
    ensures forall i :: 0 <= i < |batch| && batch[i].device == device ==> Own(batch, device) == [batch[i]]
  {
    if batch != [] {
      var n := |batch| - 1;
      OwnOfDistinct(batch[..n], device);
      if batch[n].device == device {
        assert !Has(batch[..n], device);
        assert Has(batch, device);
      } else if Has(batch[..n], device) {
        var i :| 0 <= i < n && batch[..n][i].device == device;
        assert batch[i].device == device;
      }
    }
  }

  lemma BatchLogs(readings: seq<Reading>, r: Reading, stored: seq<Sample>, batch: seq<Sample>)
    requires Logs(readings, stored) && IsBatch(readings + [r], batch)
    ensures Logs(readings + [r], stored + batch)
  {
    var more := readings + [r];
    assert more[..|more| - 1] == readings;
    forall device ensures Own(stored + batch, device) == Expected(more, device) {
      OwnConcat(stored, batch, device);
      OwnOfDistinct(batch, device);
      hide Rates;
      if device in r.counters {
        assert Has(batch, device);
        var i :| 0 <= i < |batch| && batch[i].device == device;
        assert Own(batch, device) == [batch[i]];
      } else {
        assert !Has(batch, device);
      }
    }
  }

  class Collector {
    var prev: map<string, Totals>
    var prevAt: Option<int>
    var stored: seq<Sample>
    ghost var readings: seq<Reading>

    ghost predicate Valid()
      reads this
    {
      && Logs(readings, stored)
      && if readings == [] then prev == map[] && prevAt == None
         else prev == readings[|readings| - 1].counters && prevAt == Some(readings[|readings| - 1].at)
    }

    constructor ()
      ensures Valid() && readings == [] && stored == []
    {
      prev, prevAt, stored, readings := map[], None, [], [];
      new;
      assert Logs([], []);
    }

    /** One cycle stores exactly one sample per device, with its rates since the previous reading. */
    method SampleDiskIO(counters: map<string, Totals>, at: int)
      requires Valid()
      modifies this
      ensures Valid() && readings == old(readings) + [Reading(at, counters)]
      ensures |old(stored)| <= |stored| && stored[..|old(stored)|] == old(stored)
      ensures IsBatch(readings, stored[|old(stored)|..])
    {
      hide Logs;
      hide IsBatch;
      readings := readings + [Reading(at, counters)];
      var secs := if prevAt.Some? then Seconds(prevAt.value, at) else 0.0;
      var batch := SampleAll(prev, counters, secs, at, readings);
      BatchLogs(old(readings), Reading(at, counters), stored, batch);
      stored := stored + batch;
      assert stored[|old(stored)|..] == batch;
      prev, prevAt := counters, Some(at);
    }
  }

  method SampleAll(prev: map<string, Totals>, counters: map<string, Totals>, secs: real, at: int,
                   ghost readings: seq<Reading>)
    returns (batch: seq<Sample>)
    requires readings != [] && readings[|readings| - 1] == Reading(at, counters)
    requires var k := |readings| - 1;
             if k == 0 then prev == map[] else prev == readings[k - 1].counters && secs == Elapsed(readings, k)
    ensures IsBatch(readings, batch)
  {
    ghost var k := |readings| - 1;
    var left := counters.Keys;
    batch := [];
    while left != {}
      invariant left <= counters.Keys
      invariant forall i :: 0 <= i < |batch| ==> batch[i].device in counters.Keys - left
      invariant forall i :: 0 <= i < |batch| ==>
                              batch[i] == Sample(batch[i].device, Rates(readings, k, batch[i].device), at)
      invariant forall i, j :: 0 <= i < j < |batch| ==> batch[i].device != batch[j].device
      invariant forall d :: d in counters.Keys - left ==> Has(batch, d)
      decreases |left|
    {
      var device :| device in left;
      var rates := Derive(prev, device, counters[device], secs);
      DeriveIsRates(readings, k, prev, device, secs);
      hide Rates;
      HasMore(batch, Sample(device, rates, at));
      batch, left := batch + [Sample(device, rates, at)], left - {device};
    }
  }

  lemma HasMore(batch: seq<Sample>, s: Sample)
    ensures Has(batch + [s], s.device)
    ensures forall d :: Has(batch, d) ==> Has(batch + [s], d)
  {
    assert (batch + [s])[|batch|] == s;
    forall d | Has(batch, d)
      ensures Has(batch + [s], d)
    {
      var i :| 0 <= i < |batch| && batch[i].device == d;
      assert (batch + [s])[i].device == d;
    }
  }

  // ----- conservation -----

  predicate IsReset(readings: seq<Reading>, k: nat, device: string, f: Field)
    requires k < |readings| && Compared(readings, k, device)
  {
    f(readings[k].counters[device]) < f(readings[k - 1].counters[device])
  }

  /** The interval before reading k counts: the device was seen at both ends, without a reset. */
  predicate Measured(readings: seq<Reading>, k: nat, device: string, f: Field)
    requires k < |readings|
  {
    Compared(readings, k, device) && !IsReset(readings, k, device, f)
  }

  /** Published rate times elapsed seconds. */
  function Volume(readings: seq<Reading>, k: nat, device: string, f: Field): real
    requires 0 < k < |readings|
  {
    Rate(readings, k, device, f) as real * Elapsed(readings, k)
  }

  /** What the counter gained, as far as it was measured. */
  function Gain(readings: seq<Reading>, k: nat, device: string, f: Field): int
    requires 0 < k < |readings|
  {
    if Measured(readings, k, device, f)
    then f(readings[k].counters[device]) - f(readings[k - 1].counters[device]) else 0
  }

  function Counted(readings: seq<Reading>, k: nat, device: string, f: Field): real
    requires 0 < k < |readings|
  {
    if Measured(readings, k, device, f) then Elapsed(readings, k) else 0.0
  }

  // The same, summed over the first n readings.

  function Published(readings: seq<Reading>, n: nat, device: string, f: Field): real
    requires n <= |readings|
  {
    if n <= 1 then 0.0 else Published(readings, n - 1, device, f) + Volume(readings, n - 1, device, f)
  }

  function Growth(readings: seq<Reading>, n: nat, device: string, f: Field): int
    requires n <= |readings|
  {
    if n <= 1 then 0 else Growth(readings, n - 1, device, f) + Gain(readings, n - 1, device, f)
  }

  function MeasuredSeconds(readings: seq<Reading>, n: nat, device: string, f: Field): real
    requires n <= |readings|
  {
    if n <= 1 then 0.0 else MeasuredSeconds(readings, n - 1, device, f) + Counted(readings, n - 1, device, f)
  }

  ghost predicate Increasing(readings: seq<Reading>) {
    forall k: nat :: 0 < k < |readings| ==> readings[k - 1].at < readings[k].at
  }

  lemma StepConserves(readings: seq<Reading>, k: nat, device: string, f: Field)
    requires 0 < k < |readings| && readings[k - 1].at < readings[k].at
    ensures var error, seconds := Volume(readings, k, device, f) - Gain(readings, k, device, f) as real,
                                  Counted(readings, k, device, f);
            -seconds <= 2.0 * error <= seconds
  {
    var secs := Elapsed(readings, k);
    assert secs > 0.0;
    if Compared(readings, k, device) {
      var cur, prev := f(readings[k].counters[device]), f(readings[k - 1].counters[device]);
      assert Rate(readings, k, device, f) == PerSecond(cur, prev, secs);
    }
  }

  /** Over any run, what is published differs from what was gained by at most half a unit per measured
      second; reset intervals and new devices add nothing on either side. */
  lemma {:induction false} RatesConserveGrowth(readings: seq<Reading>, n: nat, device: string, f: Field)
    requires Increasing(readings) && n <= |readings|
    ensures var error, seconds := Published(readings, n, device, f) - Growth(readings, n, device, f) as real,
                                  MeasuredSeconds(readings, n, device, f);
            -seconds <= 2.0 * error <= seconds
  {
    if n > 1 {
      RatesConserveGrowth(readings, n - 1, device, f);
      StepConserves(readings, n - 1, device, f);
      hide Volume;
      hide Gain;
      hide Counted;
    }
  }

  /** A reset interval publishes nothing. */
  lemma ResetPublishesNothing(readings: seq<Reading>, k: nat, device: string, f: Field)
    requires 0 < k < |readings| && Compared(readings, k, device) && IsReset(readings, k, device, f)
    ensures Rate(readings, k, device, f) == 0 && Volume(readings, k, device, f) == 0.0
  {
    assert Rate(readings, k, device, f) == 0;
  }

  /** On a device always present and never reset, that is the whole difference between the first and
      the last reading, over the whole time. */
  lemma {:induction false} UnbrokenGrowth(readings: seq<Reading>, n: nat, device: string, f: Field)
    requires 0 < n <= |readings|
    requires forall k: nat :: 0 < k < n ==> Measured(readings, k, device, f)
    requires device in readings[0].counters && device in readings[n - 1].counters
    ensures Growth(readings, n, device, f) == f(readings[n - 1].counters[device]) - f(readings[0].counters[device])
    ensures MeasuredSeconds(readings, n, device, f) == (readings[n - 1].at - readings[0].at) as real / 1000000000.0
  {
    if n > 1 {
      assert Measured(readings, n - 1, device, f);
      UnbrokenGrowth(readings, n - 1, device, f);
    }
  }

  // ----- conservation on what is stored -----

  /** The time of the latest reading before this moment, or the moment itself if there is none. */
  function PreviousAt(readings: seq<Reading>, at: int): int {
    if readings == [] then at
    else if readings[|readings| - 1].at < at then readings[|readings| - 1].at
    else PreviousAt(readings[..|readings| - 1], at)
  }

  /** Stored rate times the seconds since the reading before, over these samples. */
  function StoredVolume(readings: seq<Reading>, samples: seq<Sample>, f: Field): real {
    if samples == [] then 0.0
    else
      var x := samples[|samples| - 1];
      StoredVolume(readings, samples[..|samples| - 1], f) +
      f(x.rates) as real * ((x.at - PreviousAt(readings, x.at)) as real / 1000000000.0)
  }

  lemma {:induction false} Ascend(readings: seq<Reading>, i: nat, j: nat)
    requires Increasing(readings) && i < j < |readings|
    ensures readings[i].at < readings[j].at
  {
    if i < j - 1 {
      Ascend(readings, i, j - 1);
    }
  }

  lemma {:induction false} PreviousIs(readings: seq<Reading>, m: nat, n: nat)
    requires Increasing(readings) && m < |readings| && m <= n <= |readings|
    ensures PreviousAt(readings[..n], readings[m].at) == if m > 0 then readings[m - 1].at else readings[m].at
  {
    if n > m {
      assert readings[..n][..n - 1] == readings[..n - 1];
      if m < n - 1 { Ascend(readings, m, n - 1); }
      PreviousIs(readings, m, n - 1);
    }
  }

  lemma VolumeOfNext(readings: seq<Reading>, samples: seq<Sample>, x: Sample, f: Field)
    ensures StoredVolume(readings, samples + [x], f) ==
            StoredVolume(readings, samples, f) + f(x.rates) as real * ((x.at - PreviousAt(readings, x.at)) as real / 1000000000.0)
  {
    assert (samples + [x])[..|samples|] == samples;
  }

  lemma SampleVolume(readings: seq<Reading>, k: nat, device: string, f: Field)
    requires Increasing(readings) && 0 < k < |readings| && IsField(f)
    ensures f(Rates(readings, k, device)) as real * ((readings[k].at - readings[k - 1].at) as real / 1000000000.0) ==
            Volume(readings, k, device, f)
  {
    hide *;
    FieldOfRates(readings, k, device, f);
    ElapsedSeconds(readings, k);
    VolumeIs(readings, k, device, f);
  }

  lemma ElapsedSeconds(readings: seq<Reading>, k: nat)
    requires 0 < k < |readings|
    ensures Elapsed(readings, k) == (readings[k].at - readings[k - 1].at) as real / 1000000000.0
  {}

  lemma VolumeIs(readings: seq<Reading>, k: nat, device: string, f: Field)
    requires 0 < k < |readings|
    ensures Volume(readings, k, device, f) == Rate(readings, k, device, f) as real * Elapsed(readings, k)
  {}

  /** What the sample of reading k adds. */
  lemma SampleAdds(readings: seq<Reading>, k: nat, device: string, f: Field)
    requires Increasing(readings) && k < |readings| && IsField(f)
    ensures var x := Sample(device, Rates(readings, k, device), readings[k].at);
            f(x.rates) as real * ((x.at - PreviousAt(readings, x.at)) as real / 1000000000.0) ==
            if k > 0 then Volume(readings, k, device, f) else 0.0
  {
    hide *;
    PreviousIs(readings, k, |readings|);
    assert readings[..|readings|] == readings;
    if k > 0 {
      SampleVolume(readings, k, device, f);
    } else {
      NoTime(f(Rates(readings, k, device)));
    }
  }

  lemma ExpectedNext(readings: seq<Reading>, n: nat, device: string)
    requires 0 < n <= |readings|
    ensures Expected(readings[..n], device) == Expected(readings[..n - 1], device) +
                                               if device in readings[n - 1].counters
                                               then [Sample(device, Rates(readings, n - 1, device), readings[n - 1].at)] else []
  {
    assert readings[..n][..n - 1] == readings[..n - 1];
    SameRates(readings, n, device);
  }

  lemma {:induction false} StoredIsPublished(readings: seq<Reading>, n: nat, device: string, f: Field)
    requires Increasing(readings) && n <= |readings| && IsField(f)
    ensures StoredVolume(readings, Expected(readings[..n], device), f) == Published(readings, n, device, f)
  {
    hide IsField;
    hide Increasing;
    hide Volume;
    hide PreviousAt;
    hide Rates;
    if n > 0 {
      var k := n - 1;
      StoredIsPublished(readings, k, device, f);
      ExpectedNext(readings, n, device);
      hide Expected;
      var before := Expected(readings[..k], device);
      if device in readings[k].counters {
        VolumeOfNext(readings, before, Sample(device, Rates(readings, k, device), readings[k].at), f);
        SampleAdds(readings, k, device, f);
      } else {
        assert before + [] == before;
        if k > 0 { AbsentVolume(readings, k, device, f); }
      }
    }
  }

  lemma NoTime(rate: nat)
    ensures rate as real * (0 as real / 1000000000.0) == 0.0
  {}

  lemma AbsentVolume(readings: seq<Reading>, k: nat, device: string, f: Field)
    requires 0 < k < |readings| && device !in readings[k].counters
    ensures Volume(readings, k, device, f) == 0.0
  {
    assert Rate(readings, k, device, f) == 0;
  }

  lemma SameRates(readings: seq<Reading>, n: nat, device: string)
    requires 0 < n <= |readings|
    ensures Rates(readings[..n], n - 1, device) == Rates(readings, n - 1, device)
  {}

  /** Of each of the four counters: what is stored of a device differs from what the counter gained by at most
      half a unit per measured second. */
  lemma StoredConserves(readings: seq<Reading>, stored: seq<Sample>, device: string, f: Field)
    requires Increasing(readings) && Logs(readings, stored) && IsField(f)
    ensures var error, seconds := StoredVolume(readings, Own(stored, device), f) - Growth(readings, |readings|, device, f) as real,
                                  MeasuredSeconds(readings, |readings|, device, f);
            -seconds <= 2.0 * error <= seconds
  {
    assert readings[..|readings|] == readings;
    StoredIsPublished(readings, |readings|, device, f);
    RatesConserveGrowth(readings, |readings|, device, f);
  }
}
