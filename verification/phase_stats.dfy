/** The per-phase statistics aggregator of src/phase_stats.cc: a map from
    phase id to a record of named counters and named value lists. Records and
    names are created on first use; updates only ever accumulate. */
module PhaseStats {
  import opened Common

  /** `PhaseStats::StatsData` (src/phase_stats.h): named value lists and
      named `uint64_t` counters. */
  datatype StatsData = StatsData(
    valueStats: map<string, seq<U64>>,
    counterStats: map<string, U64>)

  const EMPTY_DATA: StatsData := StatsData(map[], map[])

  /** `stats_map_`: one record per phase id. */
  type Stats = map<int, StatsData>

  /** The counter `name` of a record, 0 when it was never incremented. */
  function CounterIn(d: StatsData, name: string): U64
  {
    if name in d.counterStats then d.counterStats[name] else 0
  }

  /** The values recorded under `name`, empty when none were. */
  function ValuesIn(d: StatsData, name: string): seq<U64>
  {
    if name in d.valueStats then d.valueStats[name] else []
  }

  /** The record of a phase, empty when the phase was never used. */
  function RecordOf(m: Stats, phaseId: int): StatsData
  {
    if phaseId in m then m[phaseId] else EMPTY_DATA
  }

  function Counter(m: Stats, phaseId: int, name: string): U64
  {
    CounterIn(RecordOf(m, phaseId), name)
  }

  function Values(m: Stats, phaseId: int, name: string): seq<U64>
  {
    ValuesIn(RecordOf(m, phaseId), name)
  }

  /** `StatsData::Increment` (src/phase_stats.cc:28-36): the counter goes up by
      one in unsigned 64-bit arithmetic, a new name starting at 1; nothing else
      in the record changes. */
  function DataIncrement(d: StatsData, name: string): (r: StatsData)
    ensures name in r.counterStats
    ensures r.counterStats[name] == Inc64(CounterIn(d, name))
    ensures name !in d.counterStats ==> r.counterStats[name] == 1
    ensures r.counterStats.Keys == d.counterStats.Keys + {name}
    ensures forall n :: n in d.counterStats && n != name ==>
              r.counterStats[n] == d.counterStats[n]
    ensures r.valueStats == d.valueStats
  {
    if name in d.counterStats then
      d.(counterStats := d.counterStats[name := Inc64(d.counterStats[name])])
    else
      d.(counterStats := d.counterStats[name := 1])
  }

  /** `StatsData::AddValue` (src/phase_stats.cc:38-47): the value goes at the
      end of the list for `name`, a new name starting a one-element list;
      nothing else in the record changes. */
  function DataAddValue(d: StatsData, name: string, value: U64): (r: StatsData)
    ensures name in r.valueStats
    ensures r.valueStats[name] == ValuesIn(d, name) + [value]
    ensures r.valueStats.Keys == d.valueStats.Keys + {name}
    ensures forall n :: n in d.valueStats && n != name ==>
              r.valueStats[n] == d.valueStats[n]
    ensures r.counterStats == d.counterStats
  {
    if name in d.valueStats then
      d.(valueStats := d.valueStats[name := d.valueStats[name] + [value]])
    else
      d.(valueStats := d.valueStats[name := [value]])
  }

  /** `PhaseStats::Increment` (src/phase_stats.cc:17-26): the record of the
      phase is created if missing and its counter `name` goes up by one; every
      other phase, every other counter and every value list is untouched. */
  function Increment(m: Stats, name: string, phaseId: int): (r: Stats)
    ensures r.Keys == m.Keys + {phaseId}
    ensures forall q :: q in m && q != phaseId ==> r[q] == m[q]
    ensures name in r[phaseId].counterStats
    ensures Counter(r, phaseId, name) == Inc64(Counter(m, phaseId, name))
    ensures r[phaseId].counterStats.Keys == RecordOf(m, phaseId).counterStats.Keys + {name}
    ensures forall n :: n != name ==> Counter(r, phaseId, n) == Counter(m, phaseId, n)
    ensures r[phaseId].valueStats == RecordOf(m, phaseId).valueStats
  {
    if phaseId in m then
      m[phaseId := DataIncrement(m[phaseId], name)]
    else
      m[phaseId := DataIncrement(EMPTY_DATA, name)]
  }

  /** `PhaseStats::AddValue` (src/phase_stats.cc:6-15): the record of the phase
      is created if missing and `value` is appended to its list `name`; every
      other phase, every other list and every counter is untouched. */
  function AddValue(m: Stats, name: string, value: U64, phaseId: int): (r: Stats)
    ensures r.Keys == m.Keys + {phaseId}
    ensures forall q :: q in m && q != phaseId ==> r[q] == m[q]
    ensures name in r[phaseId].valueStats
    ensures Values(r, phaseId, name) == Values(m, phaseId, name) + [value]
    ensures r[phaseId].valueStats.Keys == RecordOf(m, phaseId).valueStats.Keys + {name}
    ensures forall n :: n != name ==> Values(r, phaseId, n) == Values(m, phaseId, n)
    ensures r[phaseId].counterStats == RecordOf(m, phaseId).counterStats
  {
    if phaseId in m then
      m[phaseId := DataAddValue(m[phaseId], name, value)]
    else
      m[phaseId := DataAddValue(EMPTY_DATA, name, value)]
  }

  /** Counters and value lists are independent: the two updates commute. */
  lemma IncrementAddValueCommute(m: Stats, a: string, v: U64, p: int, b: string, q: int)
    ensures Increment(AddValue(m, a, v, p), b, q) == AddValue(Increment(m, b, q), a, v, p)
  {
    var left := Increment(AddValue(m, a, v, p), b, q);
    var right := AddValue(Increment(m, b, q), a, v, p);
    assert left.Keys == right.Keys;
    forall k | k in left
      ensures left[k] == right[k]
    {
      if k == p || k == q {
        assert left[k].counterStats == right[k].counterStats;
        assert left[k].valueStats == right[k].valueStats;
      }
    }
  }

  /** Each value of `vs` added in turn. */
  function AddValues(m: Stats, name: string, vs: seq<U64>, phaseId: int): Stats
    decreases |vs|
  {
    if |vs| == 0 then m
    else AddValues(AddValue(m, name, vs[0], phaseId), name, vs[1..], phaseId)
  }

  /** Values for one (phase, name) pair keep their insertion order, and no
      counter moves. */
  lemma {:induction false} AddValuesPreservesOrder(m: Stats, name: string, vs: seq<U64>, p: int)
    ensures Values(AddValues(m, name, vs, p), p, name) == Values(m, p, name) + vs
    ensures forall n :: Counter(AddValues(m, name, vs, p), p, n) == Counter(m, p, n)
    decreases |vs|
  {
    if |vs| > 0 {
      var m' := AddValue(m, name, vs[0], p);
      AddValuesPreservesOrder(m', name, vs[1..], p);
      assert [vs[0]] + vs[1..] == vs;
    }
  }

  /** `Increment` called k times. */
  function IncrementTimes(m: Stats, name: string, phaseId: int, k: nat): Stats
    decreases k
  {
    if k == 0 then m else IncrementTimes(Increment(m, name, phaseId), name, phaseId, k - 1)
  }

  /** k increments raise the counter by k (while it stays below 2^64) and
      leave every value list alone. */
  lemma {:induction false} IncrementTimesCounts(m: Stats, name: string, p: int, k: nat)
    requires Counter(m, p, name) + k < TWO_64
    ensures Counter(IncrementTimes(m, name, p, k), p, name) == Counter(m, p, name) + k
    ensures forall n :: Values(IncrementTimes(m, name, p, k), p, n) == Values(m, p, n)
    decreases k
  {
    if k > 0 {
      IncrementTimesCounts(Increment(m, name, p), name, p, k - 1);
    }
  }

  /** Two increments of "tx" and one value 50 under "lat" for phase 3, from an
      empty aggregator: tx = 2, lat = [50], and phase 7 has no record. */
  lemma Example()
    ensures var m := AddValue(Increment(Increment(map[], "tx", 3), "tx", 3), "lat", 50, 3);
            && Counter(m, 3, "tx") == 2
            && Values(m, 3, "lat") == [50]
            && 7 !in m
  {
  }
}
