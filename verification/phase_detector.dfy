/** The online phase detector of src/phase_detector.cc: one call of `detect`
    per retired instruction, a phase decision at every interval boundary,
    and the phase-id trace that `print_log_file` writes out. The detector's
    fields become an immutable record and every member function a pure step. */
module PhaseDetector {
  import opened Common
  import opened Rational
  import opened Signatures

  /** The phase id meaning "no known phase". */
  const UNKNOWN: int := -1

  /** A registered listener, identified by its registration handle. */
  type ListenerId = nat

  datatype Detector = Detector(
    current: Signature,
    last: Signature,
    instructionCount: nat,
    stableCount: nat,
    phase: int,
    phaseTable: seq<Signature>,
    phaseTrace: seq<int>,
    listeners: seq<ListenerId>)

  /** One listener call `f(phase)`. */
  datatype Notification = Notification(listener: ListenerId, phase: int)

  /** The state after one `detect` call and the listener calls it made, in order. */
  datatype Step = Step(state: Detector, emitted: seq<Notification>)

  /** A phase id is either unknown or the index of a table entry. */
  predicate PhaseInTable(p: int, tableSize: nat)
  {
    p == UNKNOWN || 0 <= p < tableSize
  }

  // ---------------------------------------------------------------------
  // Nearest-entry scan of the phase table (unstable branch)
  // ---------------------------------------------------------------------

  /** Table entry `e` is close enough to `cur` to be a candidate. */
  predicate Qualifies(cfg: Config, cur: Signature, e: Signature)
  {
    BelowThreshold(cfg, Distance(cur, e))
  }

  /** Independent statement of the phase the scan must find: -1 when no entry
      is below the threshold, otherwise a qualifying entry that no qualifying
      entry beats, and that every earlier qualifying entry is strictly farther
      than (ties go to the lowest index). */
  ghost predicate IsNearest(cfg: Config, cur: Signature, table: seq<Signature>, p: int)
  {
    if p == UNKNOWN then
      forall j :: 0 <= j < |table| ==> !Qualifies(cfg, cur, table[j])
    else
      && 0 <= p < |table|
      && Qualifies(cfg, cur, table[p])
      && (forall j :: 0 <= j < |table| && Qualifies(cfg, cur, table[j]) ==>
            !Lt(Distance(cur, table[j]), Distance(cur, table[p])))
      && (forall j :: 0 <= j < p && Qualifies(cfg, cur, table[j]) ==>
            Lt(Distance(cur, table[p]), Distance(cur, table[j])))
  }

  /** At most one phase id meets IsNearest. */
  lemma NearestIsUnique(cfg: Config, cur: Signature, table: seq<Signature>, p: int, q: int)
    requires IsNearest(cfg, cur, table, p) && IsNearest(cfg, cur, table, q)
    ensures p == q
  {
  }

  /** A qualifying distance is a real quotient, not 0/0. */
  lemma QualifyingIsDefined(cfg: Config, d: Ratio)
    requires Proper(d) && BelowThreshold(cfg, d)
    ensures d.den > 0
  {
    if d.den == 0 {
      NaNIsIncomparable(d, Threshold(cfg));
      assert false;
    }
  }

  /** What holds after the loop of lines 92-101 has looked at entries [0, i):
      `best` is the phase chosen so far and `bestDiff` its distance
      (`best_diff`, which starts at the threshold). */
  ghost predicate ScanInvariant(cfg: Config, cur: Signature, table: seq<Signature>,
                                i: nat, best: int, bestDiff: Ratio)
  {
    && i <= |table|
    && (best == UNKNOWN ==>
          && bestDiff == Threshold(cfg)
          && forall j :: 0 <= j < i ==> !Qualifies(cfg, cur, table[j]))
    && (best != UNKNOWN ==>
          && 0 <= best < i
          && bestDiff == Distance(cur, table[best])
          && Qualifies(cfg, cur, table[best])
          && (forall j :: 0 <= j < i && Qualifies(cfg, cur, table[j]) ==>
                !Lt(Distance(cur, table[j]), bestDiff))
          && (forall j :: 0 <= j < best && Qualifies(cfg, cur, table[j]) ==>
                Lt(bestDiff, Distance(cur, table[j]))))
  }

  /** The loop of lines 92-101 from entry i on: an entry replaces the best so
      far only when it is below the threshold and strictly below `best_diff`. */
  function Scan(cfg: Config, cur: Signature, table: seq<Signature>,
                i: nat, best: int, bestDiff: Ratio): (p: int)
    requires ValidConfig(cfg)
    requires ScanInvariant(cfg, cur, table, i, best, bestDiff)
    ensures IsNearest(cfg, cur, table, p)
    decreases |table| - i
  {
    if i == |table| then
      best
    else
      var diff := Distance(cur, table[i]);
      if BelowThreshold(cfg, diff) && Lt(diff, bestDiff) then
        ScanTakes(cfg, cur, table, i, best, bestDiff);
        Scan(cfg, cur, table, i + 1, i, diff)
      else
        ScanSkips(cfg, cur, table, i, best, bestDiff);
        Scan(cfg, cur, table, i + 1, best, bestDiff)
  }

  lemma ScanTakes(cfg: Config, cur: Signature, table: seq<Signature>,
                  i: nat, best: int, bestDiff: Ratio)
    requires ValidConfig(cfg)
    requires ScanInvariant(cfg, cur, table, i, best, bestDiff) && i < |table|
    requires BelowThreshold(cfg, Distance(cur, table[i]))
    requires Lt(Distance(cur, table[i]), bestDiff)
    ensures ScanInvariant(cfg, cur, table, i + 1, i, Distance(cur, table[i]))
  {
    var di := Distance(cur, table[i]);
    QualifyingIsDefined(cfg, di);
    if best != UNKNOWN {
      QualifyingIsDefined(cfg, bestDiff);
      forall j | 0 <= j < i + 1 && Qualifies(cfg, cur, table[j])
        ensures !Lt(Distance(cur, table[j]), di)
      {
        var dj := Distance(cur, table[j]);
        QualifyingIsDefined(cfg, dj);
        if Lt(dj, di) {
          LtTrans(dj, di, bestDiff);
          assert false;
        }
      }
      forall j | 0 <= j < i && Qualifies(cfg, cur, table[j])
        ensures Lt(di, Distance(cur, table[j]))
      {
        var dj := Distance(cur, table[j]);
        QualifyingIsDefined(cfg, dj);
        LtNotLtTrans(di, bestDiff, dj);
      }
    }
  }

  lemma ScanSkips(cfg: Config, cur: Signature, table: seq<Signature>,
                  i: nat, best: int, bestDiff: Ratio)
    requires ValidConfig(cfg)
    requires ScanInvariant(cfg, cur, table, i, best, bestDiff) && i < |table|
    requires !(BelowThreshold(cfg, Distance(cur, table[i])) && Lt(Distance(cur, table[i]), bestDiff))
    ensures ScanInvariant(cfg, cur, table, i + 1, best, bestDiff)
  {
    var di := Distance(cur, table[i]);
    if best == UNKNOWN {
      assert !Qualifies(cfg, cur, table[i]);
      forall j | 0 <= j < i + 1
        ensures !Qualifies(cfg, cur, table[j])
      {
      }
    } else {
      assert Qualifies(cfg, cur, table[i]) ==> !Lt(di, bestDiff);
      forall j | 0 <= j < i + 1 && Qualifies(cfg, cur, table[j])
        ensures !Lt(Distance(cur, table[j]), bestDiff)
      {
      }
    }
  }

  /** The phase the unstable branch settles on (lines 87-102). */
  function Nearest(cfg: Config, cur: Signature, table: seq<Signature>): (p: int)
    requires ValidConfig(cfg)
    ensures IsNearest(cfg, cur, table, p)
    ensures PhaseInTable(p, |table|)
  {
    if |table| == 0 then UNKNOWN
    else Scan(cfg, cur, table, 0, UNKNOWN, Threshold(cfg))
  }

  /** Returning to a signature already in the table recognises the first entry
      equal to it, instead of reporting an unknown phase. */
  lemma {:induction false} NearestRecognisesKnownSignature(
    cfg: Config, cur: Signature, table: seq<Signature>, k: nat)
    requires ValidConfig(cfg) && cur != {}
    requires k < |table| && table[k] == cur
    ensures var p := Nearest(cfg, cur, table);
            0 <= p <= k && table[p] == cur &&
            forall j :: 0 <= j < p ==> table[j] != cur
  {
    var p := Nearest(cfg, cur, table);
    DistanceToSelf(cfg, cur);
    assert Qualifies(cfg, cur, table[k]);
    assert p != UNKNOWN;
    var dp := Distance(cur, table[p]);
    var dk := Distance(cur, table[k]);
    assert !Lt(dk, dp);
    assert dp.num * dk.den <= 0;
    ZeroNumerator(dp.num, dk.den);
    ZeroDistanceMeansEqual(cur, table[p]);
    forall j | 0 <= j < p
      ensures table[j] != cur
    {
      if table[j] == cur {
        assert false;
      }
    }
    if k < p {
      assert false;
    }
  }

  lemma ZeroNumerator(n: nat, d: nat)
    requires d > 0 && n * d <= 0
    ensures n == 0
  {
  }

  // ---------------------------------------------------------------------
  // detect
  // ---------------------------------------------------------------------

  /** The count at which `detect` evaluates a boundary: the test of line 72 runs
      before the increment of line 121, so the first call is a boundary. */
  predicate IsBoundary(cfg: Config, s: Detector)
    requires ValidConfig(cfg)
  {
    s.instructionCount % cfg.intervalLen == 0
  }

  /** The current signature with the bit of `ip` set (line 69). */
  function Marked(cfg: Config, s: Detector, ip: U64): Signature
    requires ValidConfig(cfg)
  {
    s.current + {HashAddress(cfg, ip)}
  }

  /** The test of line 76: the new signature is close to the previous one. */
  predicate IsStable(cfg: Config, s: Detector, ip: U64)
    requires ValidConfig(cfg)
  {
    BelowThreshold(cfg, Distance(Marked(cfg, s, ip), s.last))
  }

  /** Both comparisons of a boundary divide by a non-zero union: the bit set
      at line 69 is in every union formed at lines 76 and 94. */
  lemma BoundaryDistancesDefined(cfg: Config, s: Detector, ip: U64)
    requires ValidConfig(cfg)
    ensures Distance(Marked(cfg, s, ip), s.last).den > 0
    ensures forall e :: e in s.phaseTable ==> Distance(Marked(cfg, s, ip), e).den > 0
  {
    var idx := HashAddress(cfg, ip);
    var cur := Marked(cfg, s, ip);
    assert idx in cur;
    DistanceDefined(cur, s.last, idx);
    forall e | e in s.phaseTable
      ensures Distance(cur, e).den > 0
    {
      DistanceDefined(cur, e, idx);
    }
  }

  /** The confirmation test of line 78, on the already incremented count. */
  predicate Confirms(cfg: Config, s: Detector)
  {
    s.stableCount + 1 >= cfg.stableMin && s.phase == UNKNOWN
  }

  /** Every listener called with `phase`, in registration order (lines 113-115). */
  function Notify(listeners: seq<ListenerId>, phase: int): (ns: seq<Notification>)
    ensures |ns| == |listeners|
    ensures forall i :: 0 <= i < |ns| ==> ns[i] == Notification(listeners[i], phase)
  {
    if |listeners| == 0 then []
    else [Notification(listeners[0], phase)] + Notify(listeners[1..], phase)
  }

  /** `PhaseDetector::detect`. */
  function Detect(cfg: Config, s: Detector, ip: U64): (r: Step)
    requires ValidConfig(cfg)
    // every call: one more instruction, listeners untouched
    ensures r.state.instructionCount == s.instructionCount + 1
    ensures r.state.listeners == s.listeners
    ensures IsBoundary(cfg, s) <==> |r.state.phaseTrace| == |s.phaseTrace| + 1
    // inside an interval: only the new bit and the count change, nobody is told
    ensures !IsBoundary(cfg, s) ==>
              && r.state == s.(current := Marked(cfg, s, ip),
                               instructionCount := s.instructionCount + 1)
              && r.emitted == []
    // at a boundary: the signature moves to `last`, the trace and listeners get the phase
    ensures IsBoundary(cfg, s) ==>
              && r.state.last == Marked(cfg, s, ip)
              && r.state.current == {}
              && r.state.phaseTrace == s.phaseTrace + [r.state.phase]
              && s.phaseTable <= r.state.phaseTable
              && r.emitted == Notify(s.listeners, r.state.phase)
    // stable branch: count up, confirm a new phase at most once per stretch
    ensures IsBoundary(cfg, s) && IsStable(cfg, s, ip) ==>
              && r.state.stableCount == s.stableCount + 1
              && (Confirms(cfg, s) <==> |r.state.phaseTable| == |s.phaseTable| + 1)
              && (Confirms(cfg, s) ==>
                    r.state.phaseTable == s.phaseTable + [Marked(cfg, s, ip)] &&
                    r.state.phase == |s.phaseTable|)
              && (!Confirms(cfg, s) ==>
                    r.state.phaseTable == s.phaseTable && r.state.phase == s.phase)
    // unstable branch: restart the count, look the signature up in the table
    ensures IsBoundary(cfg, s) && !IsStable(cfg, s, ip) ==>
              && r.state.stableCount == 0
              && r.state.phaseTable == s.phaseTable
              && IsNearest(cfg, Marked(cfg, s, ip), s.phaseTable, r.state.phase)
  {
    var current := Marked(cfg, s, ip);
    if !IsBoundary(cfg, s) then
      Step(s.(current := current, instructionCount := s.instructionCount + 1), [])
    else
      var (stableCount, phase, table) :=
        if IsStable(cfg, s, ip) then
          if Confirms(cfg, s) then
            (s.stableCount + 1, |s.phaseTable|, s.phaseTable + [current])
          else
            (s.stableCount + 1, s.phase, s.phaseTable)
        else
          (0, Nearest(cfg, current, s.phaseTable), s.phaseTable);
      var next := Detector(
        current := {},
        last := current,
        instructionCount := s.instructionCount + 1,
        stableCount := stableCount,
        phase := phase,
        phaseTable := table,
        phaseTrace := s.phaseTrace + [phase],
        listeners := s.listeners);
      Step(next, Notify(s.listeners, phase))
  }

  /** Coming back, after an unstable interval, to a signature the table
      already holds reports that entry's old id (its first occurrence) and
      adds no entry. */
  lemma DetectRecognisesKnownSignature(cfg: Config, s: Detector, ip: U64, k: nat)
    requires ValidConfig(cfg) && IsBoundary(cfg, s) && !IsStable(cfg, s, ip)
    requires k < |s.phaseTable| && s.phaseTable[k] == Marked(cfg, s, ip)
    ensures var r := Detect(cfg, s, ip).state;
            && r.phaseTable == s.phaseTable
            && 0 <= r.phase <= k
            && s.phaseTable[r.phase] == Marked(cfg, s, ip)
            && forall j :: 0 <= j < r.phase ==> s.phaseTable[j] != Marked(cfg, s, ip)
  {
    var cur := Marked(cfg, s, ip);
    var r := Detect(cfg, s, ip).state;
    assert HashAddress(cfg, ip) in cur;
    NearestRecognisesKnownSignature(cfg, cur, s.phaseTable, k);
    NearestIsUnique(cfg, cur, s.phaseTable, r.phase, Nearest(cfg, cur, s.phaseTable));
  }

  // ---------------------------------------------------------------------
  // Invariant
  // ---------------------------------------------------------------------

  /** Number of boundaries among the first n calls: calls 0, L, 2L, ... */
  function BoundariesIn(cfg: Config, n: nat): nat
    requires ValidConfig(cfg)
  {
    (n + cfg.intervalLen - 1) / cfg.intervalLen
  }

  /** What every reachable detector state satisfies. */
  ghost predicate Inv(cfg: Config, s: Detector)
    requires ValidConfig(cfg)
  {
    && InRange(cfg, s.current)
    && InRange(cfg, s.last)
    && (forall i :: 0 <= i < |s.phaseTable| ==>
          InRange(cfg, s.phaseTable[i]) && s.phaseTable[i] != {})
    && PhaseInTable(s.phase, |s.phaseTable|)
    && (forall i :: 0 <= i < |s.phaseTrace| ==> PhaseInTable(s.phaseTrace[i], |s.phaseTable|))
    && |s.phaseTrace| == BoundariesIn(cfg, s.instructionCount)
  }

  lemma DivBetween(x: nat, l: nat, q: nat)
    requires l > 0 && q * l <= x < q * l + l
    ensures x / l == q
  {
    var r := x % l;
    var q' := x / l;
    assert x == q' * l + r;
    if q' < q {
      MulLe(q' + 1, q, l);
      assert false;
    } else if q' > q {
      MulLe(q + 1, q', l);
      assert false;
    }
  }

  /** One more call adds one boundary exactly when the count is a multiple of L. */
  lemma {:induction false} BoundariesStep(cfg: Config, n: nat)
    requires ValidConfig(cfg)
    ensures n % cfg.intervalLen == 0 ==> BoundariesIn(cfg, n + 1) == BoundariesIn(cfg, n) + 1
    ensures n % cfg.intervalLen != 0 ==> BoundariesIn(cfg, n + 1) == BoundariesIn(cfg, n)
  {
    var l := cfg.intervalLen;
    var q := n / l;
    var r := n % l;
    assert n == q * l + r;
    if r == 0 {
      assert n + l - 1 == q * l + (l - 1);
      DivBetween(n + l - 1, l, q);
      assert n + l == (q + 1) * l;
      DivBetween(n + l, l, q + 1);
    } else {
      assert n + l - 1 == (q + 1) * l + (r - 1);
      DivBetween(n + l - 1, l, q + 1);
      assert n + l == (q + 1) * l + r;
      DivBetween(n + l, l, q + 1);
    }
  }

  /** `detect` preserves the invariant: bit indices stay inside the signature,
      the phase and every traced phase stay valid table ids, and the trace keeps
      one entry per boundary. */
  lemma DetectPreservesInv(cfg: Config, s: Detector, ip: U64)
    requires ValidConfig(cfg) && Inv(cfg, s)
    ensures Inv(cfg, Detect(cfg, s, ip).state)
  {
    var r := Detect(cfg, s, ip).state;
    var idx := HashAddress(cfg, ip);
    assert InRange(cfg, Marked(cfg, s, ip));
    assert idx in Marked(cfg, s, ip);
    BoundariesStep(cfg, s.instructionCount);
    if IsBoundary(cfg, s) {
      forall i | 0 <= i < |r.phaseTrace|
        ensures PhaseInTable(r.phaseTrace[i], |r.phaseTable|)
      {
        if i < |s.phaseTrace| {
          assert r.phaseTrace[i] == s.phaseTrace[i];
        }
      }
    }
  }

  // ---------------------------------------------------------------------
  // init, cleanup, listeners, log
  // ---------------------------------------------------------------------

  /** `init_phase_detector` (lines 124-134): the state does not depend on the
      detector it is applied to. */
  function Init(): (r: Detector)
    ensures r.current == {} && r.last == {}
    ensures r.instructionCount == 0 && r.stableCount == 0 && r.phase == UNKNOWN
    ensures r.phaseTable == [] && r.phaseTrace == [] && r.listeners == []
  {
    Detector({}, {}, 0, 0, UNKNOWN, [], [], [])
  }

  lemma InitEstablishesInv(cfg: Config)
    requires ValidConfig(cfg)
    ensures Inv(cfg, Init())
  {
  }

  /** `register_listeners` (lines 168-170): append, never remove. */
  function RegisterListener(s: Detector, f: ListenerId): (r: Detector)
    ensures r.listeners == s.listeners + [f]
    ensures r.(listeners := s.listeners) == s
  {
    s.(listeners := s.listeners + [f])
  }

  /** One line `<index * interval_len>,<phase>` of the phase-trace log. */
  datatype LogLine = LogLine(instruction: nat, phase: int)

  /** The lines `print_log_file` (lines 136-158) writes, one per traced interval. */
  function PhaseLog(cfg: Config, trace: seq<int>): (lines: seq<LogLine>)
    ensures |lines| == |trace|
    ensures forall i :: 0 <= i < |trace| ==>
              lines[i] == LogLine(i * cfg.intervalLen, trace[i])
  {
    if |trace| == 0 then []
    else
      var n := |trace| - 1;
      PhaseLog(cfg, trace[..n]) + [LogLine(n * cfg.intervalLen, trace[n])]
  }

  /** A three-interval run with phases [-1, 0, 0] and interval 1000 gives
      the lines 0,-1 / 1000,0 / 2000,0. */
  lemma PhaseLogExample(cfg: Config)
    requires cfg.intervalLen == 1000
    ensures PhaseLog(cfg, [-1, 0, 0]) ==
            [LogLine(0, -1), LogLine(1000, 0), LogLine(2000, 0)]
  {
  }

  /** `cleanup_phase_detector` (lines 160-166): with a non-empty file name the
      log lines are produced first; the state always ends as after `init`. */
  function Cleanup(cfg: Config, s: Detector, logFileName: string): (r: (Detector, Option<seq<LogLine>>))
    ensures r.0 == Init()
    ensures |logFileName| > 0 <==> r.1.Some?
    ensures r.1.Some? ==> |r.1.value| == |s.phaseTrace|
    ensures r.1.Some? ==> forall i :: 0 <= i < |s.phaseTrace| ==>
              r.1.value[i] == LogLine(i * cfg.intervalLen, s.phaseTrace[i])
  {
    var log := if |logFileName| > 0 then Some(PhaseLog(cfg, s.phaseTrace)) else None;
    (Init(), log)
  }

  // ---------------------------------------------------------------------
  // Runs of several calls
  // ---------------------------------------------------------------------

  /** `detect` applied to each address in turn. */
  function Run(cfg: Config, s: Detector, ips: seq<U64>): Detector
    requires ValidConfig(cfg)
    decreases |ips|
  {
    if |ips| == 0 then s
    else Run(cfg, Detect(cfg, s, ips[0]).state, ips[1..])
  }

  /** Over any run the invariant holds, the count grows by the number of
      addresses, and the table and the trace only grow at their ends. */
  lemma {:induction false} RunProperties(cfg: Config, s: Detector, ips: seq<U64>)
    requires ValidConfig(cfg) && Inv(cfg, s)
    ensures var r := Run(cfg, s, ips);
            && Inv(cfg, r)
            && r.instructionCount == s.instructionCount + |ips|
            && s.phaseTable <= r.phaseTable
            && s.phaseTrace <= r.phaseTrace
            && r.listeners == s.listeners
    decreases |ips|
  {
    if |ips| > 0 {
      var s' := Detect(cfg, s, ips[0]).state;
      DetectPreservesInv(cfg, s, ips[0]);
      RunProperties(cfg, s', ips[1..]);
    }
  }

  /** A run that also collects every listener call, in order. */
  function RunNotifying(cfg: Config, s: Detector, ips: seq<U64>): Step
    requires ValidConfig(cfg)
    decreases |ips|
  {
    if |ips| == 0 then Step(s, [])
    else
      var first := Detect(cfg, s, ips[0]);
      var rest := RunNotifying(cfg, first.state, ips[1..]);
      Step(rest.state, first.emitted + rest.emitted)
  }

  /** The phase ids carried by a sequence of listener calls. */
  function PhasesOf(ns: seq<Notification>): seq<int>
  {
    seq(|ns|, i requires 0 <= i < |ns| => ns[i].phase)
  }

  lemma PhasesOfConcat(a: seq<Notification>, b: seq<Notification>)
    ensures PhasesOf(a + b) == PhasesOf(a) + PhasesOf(b)
  {
    assert |PhasesOf(a + b)| == |PhasesOf(a) + PhasesOf(b)|;
    forall i | 0 <= i < |a + b|
      ensures PhasesOf(a + b)[i] == (PhasesOf(a) + PhasesOf(b))[i]
    {
      if i >= |a| {
        assert (a + b)[i] == b[i - |a|];
      }
    }
  }

  /** One call with one registered listener: the listener hears exactly the
      phase appended to the trace, if any. */
  lemma SingleListenerSeesStep(cfg: Config, s: Detector, f: ListenerId, ip: U64)
    requires ValidConfig(cfg) && s.listeners == [f]
    ensures var st := Detect(cfg, s, ip);
            && st.state.listeners == [f]
            && st.state.phaseTrace == s.phaseTrace + PhasesOf(st.emitted)
            && forall i :: 0 <= i < |st.emitted| ==> st.emitted[i].listener == f
  {
    var st := Detect(cfg, s, ip);
    if IsBoundary(cfg, s) {
      assert st.emitted == [Notification(f, st.state.phase)];
      assert PhasesOf(st.emitted) == [st.state.phase];
    } else {
      assert PhasesOf(st.emitted) == [];
    }
  }

  lemma {:induction false} RunNotifyingAgrees(cfg: Config, s: Detector, ips: seq<U64>)
    requires ValidConfig(cfg)
    ensures RunNotifying(cfg, s, ips).state == Run(cfg, s, ips)
    decreases |ips|
  {
    if |ips| > 0 {
      RunNotifyingAgrees(cfg, Detect(cfg, s, ips[0]).state, ips[1..]);
    }
  }

  /** With one registered listener, the listener is called once per new trace
      entry, with exactly the phases appended to the trace, in order. */
  lemma SingleListenerSeesTrace(cfg: Config, s: Detector, f: ListenerId, ips: seq<U64>)
    requires ValidConfig(cfg) && s.listeners == [f]
    ensures var st := RunNotifying(cfg, s, ips);
            st.state.phaseTrace == s.phaseTrace + PhasesOf(st.emitted)
  {
    RunNotifiesEveryBoundary(cfg, s, ips);
    SingleListenerHearsAppended(f, s.phaseTrace, RunNotifying(cfg, s, ips));
  }

  lemma SingleListenerHearsAppended(f: ListenerId, t0: seq<int>, st: Step)
    requires t0 <= st.state.phaseTrace
    requires st.emitted == NotifyAll([f], st.state.phaseTrace[|t0|..])
    ensures st.state.phaseTrace == t0 + PhasesOf(st.emitted)
  {
    var added := st.state.phaseTrace[|t0|..];
    PhasesOfSingle(f, added);
    assert st.state.phaseTrace == t0 + added;
  }

  /** From a freshly initialised detector, n calls leave one trace entry per
      interval begun: ceil(n / interval_len) of them. */
  lemma RunFromInitTraceLength(cfg: Config, ips: seq<U64>)
    requires ValidConfig(cfg)
    ensures |Run(cfg, Init(), ips).phaseTrace| ==
            (|ips| + cfg.intervalLen - 1) / cfg.intervalLen
  {
    InitEstablishesInv(cfg);
    RunProperties(cfg, Init(), ips);
  }

  /** The first call after `init` (and any registrations) is a boundary and
      reports the unknown phase to every listener: against the empty previous
      signature the distance is 1, never below a threshold of at most 1. */
  lemma FirstCallReportsUnknown(cfg: Config, ls: seq<ListenerId>, ip: U64)
    requires ValidConfig(cfg)
    ensures var st := Detect(cfg, Init().(listeners := ls), ip);
            && st.state.phaseTrace == [UNKNOWN]
            && st.state.phase == UNKNOWN
            && st.state.phaseTable == []
            && st.state.last == {HashAddress(cfg, ip)}
            && st.emitted == Notify(ls, UNKNOWN)
  {
    var idx := HashAddress(cfg, ip);
    assert Marked(cfg, Init().(listeners := ls), ip) == {idx};
    DisjointNeverStable(cfg, {idx}, {});
  }

  // ---------------------------------------------------------------------
  // Listener calls over a run
  // ---------------------------------------------------------------------

  /** The calls made at a sequence of boundaries reporting `phases`: every
      listener in order, boundary after boundary. */
  function NotifyAll(listeners: seq<ListenerId>, phases: seq<int>): seq<Notification>
    decreases |phases|
  {
    if |phases| == 0 then []
    else Notify(listeners, phases[0]) + NotifyAll(listeners, phases[1..])
  }

  lemma {:induction false} NotifyAllConcat(ls: seq<ListenerId>, a: seq<int>, b: seq<int>)
    ensures NotifyAll(ls, a + b) == NotifyAll(ls, a) + NotifyAll(ls, b)
    decreases |a|
  {
    if |a| > 0 {
      assert (a + b)[0] == a[0] && (a + b)[1..] == a[1..] + b;
      NotifyAllConcat(ls, a[1..], b);
      assert NotifyAll(ls, a + b) == Notify(ls, a[0]) + NotifyAll(ls, a[1..] + b);
    } else {
      assert a + b == b;
    }
  }

  /** Boundary k of NotifyAll is exactly one call of every listener with
      phase k, preceded by the calls of the earlier boundaries and followed by
      those of the later ones. */
  lemma NotifyAllSplit(ls: seq<ListenerId>, phases: seq<int>, k: nat)
    requires k < |phases|
    ensures NotifyAll(ls, phases) ==
            NotifyAll(ls, phases[..k]) + Notify(ls, phases[k]) + NotifyAll(ls, phases[k + 1..])
  {
    assert phases == phases[..k] + ([phases[k]] + phases[k + 1..]);
    NotifyAllConcat(ls, phases[..k], [phases[k]] + phases[k + 1..]);
    NotifyAllConcat(ls, [phases[k]], phases[k + 1..]);
    assert NotifyAll(ls, [phases[k]]) == Notify(ls, phases[k]) + NotifyAll(ls, []);
  }

  /** One call notifies every listener, in order, of each phase it appends to
      the trace (at most one). */
  lemma DetectNotifiesAppended(cfg: Config, s: Detector, ip: U64)
    requires ValidConfig(cfg)
    ensures var st := Detect(cfg, s, ip);
            && s.phaseTrace <= st.state.phaseTrace
            && st.emitted == NotifyAll(s.listeners, st.state.phaseTrace[|s.phaseTrace|..])
  {
    var st := Detect(cfg, s, ip);
    var added := st.state.phaseTrace[|s.phaseTrace|..];
    if IsBoundary(cfg, s) {
      assert added == [st.state.phase];
      assert NotifyAll(s.listeners, added) == Notify(s.listeners, st.state.phase) + NotifyAll(s.listeners, []);
    } else {
      assert added == [];
    }
  }

  /** The calls for the entries appended in two steps are those for all the
      entries appended. */
  lemma NotifiedTwice(ls: seq<ListenerId>, t0: seq<int>, t1: seq<int>, t2: seq<int>,
                      e1: seq<Notification>, e2: seq<Notification>)
    requires t0 <= t1 <= t2
    requires e1 == NotifyAll(ls, t1[|t0|..]) && e2 == NotifyAll(ls, t2[|t1|..])
    ensures t0 <= t2 && e1 + e2 == NotifyAll(ls, t2[|t0|..])
  {
    SliceSplit(t0, t1, t2);
    NotifyAllConcat(ls, t1[|t0|..], t2[|t1|..]);
  }

  lemma SliceSplit(t0: seq<int>, t1: seq<int>, t2: seq<int>)
    requires t0 <= t1 <= t2
    ensures t2[|t0|..] == t1[|t0|..] + t2[|t1|..]
  {
    assert t1 == t2[..|t1|];
  }

  /** Over any run, the listener calls are exactly: at each new trace entry,
      every registered listener in registration order, with that entry. */
  lemma {:induction false} RunNotifiesEveryBoundary(cfg: Config, s: Detector, ips: seq<U64>)
    requires ValidConfig(cfg)
    ensures var st := RunNotifying(cfg, s, ips);
            && st.state.listeners == s.listeners
            && s.phaseTrace <= st.state.phaseTrace
            && st.emitted == NotifyAll(s.listeners, st.state.phaseTrace[|s.phaseTrace|..])
    decreases |ips|
  {
    if |ips| > 0 {
      var first := Detect(cfg, s, ips[0]);
      var rest := RunNotifying(cfg, first.state, ips[1..]);
      assert RunNotifying(cfg, s, ips) == Step(rest.state, first.emitted + rest.emitted);
      DetectNotifiesAppended(cfg, s, ips[0]);
      RunNotifiesEveryBoundary(cfg, first.state, ips[1..]);
      NotifiedTwice(s.listeners, s.phaseTrace, first.state.phaseTrace, rest.state.phaseTrace,
                    first.emitted, rest.emitted);
    } else {
      assert RunNotifying(cfg, s, ips) == Step(s, []);
      assert s.phaseTrace[|s.phaseTrace|..] == [];
    }
  }

  /** A listener registered at any point is called at every later boundary,
      after every listener registered before it, with the phase of that
      boundary: the calls of boundary k are all listeners in registration
      order, the new one last. */
  lemma RegisteredListenerIsCalledLast(cfg: Config, s: Detector, f: ListenerId, ips: seq<U64>)
    requires ValidConfig(cfg)
    ensures var st := RunNotifying(cfg, RegisterListener(s, f), ips);
            && s.phaseTrace <= st.state.phaseTrace
            && var added := st.state.phaseTrace[|s.phaseTrace|..];
               forall k :: 0 <= k < |added| ==>
                 var before := NotifyAll(s.listeners + [f], added[..k]);
                 && st.emitted == before + Notify(s.listeners + [f], added[k])
                                         + NotifyAll(s.listeners + [f], added[k + 1..])
                 && st.emitted[|before| + |s.listeners|] == Notification(f, added[k])
  {
    RunNotifiesEveryBoundary(cfg, RegisterListener(s, f), ips);
    LastListenerInEveryBlock(s.listeners, f, s.phaseTrace, RunNotifying(cfg, RegisterListener(s, f), ips));
  }

  lemma LastListenerInEveryBlock(ls: seq<ListenerId>, f: ListenerId, t0: seq<int>, st: Step)
    requires t0 <= st.state.phaseTrace
    requires st.emitted == NotifyAll(ls + [f], st.state.phaseTrace[|t0|..])
    ensures var added := st.state.phaseTrace[|t0|..];
            forall k :: 0 <= k < |added| ==>
              var before := NotifyAll(ls + [f], added[..k]);
              && st.emitted == before + Notify(ls + [f], added[k]) + NotifyAll(ls + [f], added[k + 1..])
              && st.emitted[|before| + |ls|] == Notification(f, added[k])
  {
    var added := st.state.phaseTrace[|t0|..];
    forall k | 0 <= k < |added|
      ensures var before := NotifyAll(ls + [f], added[..k]);
              && st.emitted == before + Notify(ls + [f], added[k]) + NotifyAll(ls + [f], added[k + 1..])
              && st.emitted[|before| + |ls|] == Notification(f, added[k])
    {
      LastListenerInBlock(ls, f, added, k);
    }
  }

  lemma LastListenerInBlock(ls: seq<ListenerId>, f: ListenerId, phases: seq<int>, k: nat)
    requires k < |phases|
    ensures var all := NotifyAll(ls + [f], phases);
            var before := NotifyAll(ls + [f], phases[..k]);
            && all == before + Notify(ls + [f], phases[k]) + NotifyAll(ls + [f], phases[k + 1..])
            && all[|before| + |ls|] == Notification(f, phases[k])
  {
    NotifyAllSplit(ls + [f], phases, k);
    var before := NotifyAll(ls + [f], phases[..k]);
    var block := Notify(ls + [f], phases[k]);
    var after := NotifyAll(ls + [f], phases[k + 1..]);
    assert block[|ls|] == Notification(f, phases[k]);
    assert (before + block + after)[|before| + |ls|] == block[|ls|];
  }

  /** PhasesOf undoes NotifyAll for a single listener. */
  lemma {:induction false} PhasesOfSingle(f: ListenerId, phases: seq<int>)
    ensures PhasesOf(NotifyAll([f], phases)) == phases
    decreases |phases|
  {
    if |phases| > 0 {
      PhasesOfSingle(f, phases[1..]);
      PhasesOfConcat(Notify([f], phases[0]), NotifyAll([f], phases[1..]));
      assert PhasesOf(Notify([f], phases[0])) == [phases[0]];
    } else {
      assert PhasesOf([]) == [];
    }
  }

  // ---------------------------------------------------------------------
  // One repeated signature over many intervals
  // ---------------------------------------------------------------------

  /** The trace entry at which a stretch of identical intervals is confirmed:
      stable_min, but never before entry 1, since entry 0 has no previous
      signature to be stable against. */
  function ConfirmAt(cfg: Config): nat
  {
    if cfg.stableMin < 1 then 1 else cfg.stableMin
  }

  /** What a detector looks like after n >= 1 calls, since `init`, whose
      addresses all set bit b. */
  ghost predicate Repeating(cfg: Config, b: nat, ls: seq<ListenerId>, t: Detector)
    requires ValidConfig(cfg)
  {
    && t.listeners == ls
    && t.current <= {b}
    && t.last == {b}
    && 1 <= |t.phaseTrace| == BoundariesIn(cfg, t.instructionCount)
    && t.stableCount == |t.phaseTrace| - 1
    && (forall i :: 0 <= i < |t.phaseTrace| ==>
          t.phaseTrace[i] == if i < ConfirmAt(cfg) then UNKNOWN else 0)
    && t.phase == t.phaseTrace[|t.phaseTrace| - 1]
    && t.phaseTable == if |t.phaseTrace| > ConfirmAt(cfg) then [{b}] else []
  }

  lemma RepeatingStart(cfg: Config, ls: seq<ListenerId>, ip: U64)
    requires ValidConfig(cfg)
    ensures Repeating(cfg, HashAddress(cfg, ip), ls, Detect(cfg, Init().(listeners := ls), ip).state)
  {
    FirstCallReportsUnknown(cfg, ls, ip);
    DivBetween(cfg.intervalLen, cfg.intervalLen, 1);
  }

  lemma RepeatingStep(cfg: Config, b: nat, ls: seq<ListenerId>, t: Detector, ip: U64)
    requires ValidConfig(cfg) && Repeating(cfg, b, ls, t) && HashAddress(cfg, ip) == b
    ensures Repeating(cfg, b, ls, Detect(cfg, t, ip).state)
  {
    var r := Detect(cfg, t, ip).state;
    var q := |t.phaseTrace|;
    var k := ConfirmAt(cfg);
    BoundariesStep(cfg, t.instructionCount);
    assert Marked(cfg, t, ip) == {b};
    if IsBoundary(cfg, t) {
      DistanceToSelf(cfg, {b});
      assert IsStable(cfg, t, ip);
      assert t.phase == (if q - 1 < k then UNKNOWN else 0);
      assert Confirms(cfg, t) <==> q == k;
      assert r.phase == (if q < k then UNKNOWN else 0);
      forall i | 0 <= i < |r.phaseTrace|
        ensures r.phaseTrace[i] == if i < k then UNKNOWN else 0
      {
        if i < q {
          assert r.phaseTrace[i] == t.phaseTrace[i];
        }
      }
    }
  }

  lemma {:induction false} RepeatingRun(cfg: Config, b: nat, ls: seq<ListenerId>, t: Detector, ips: seq<U64>)
    requires ValidConfig(cfg) && Repeating(cfg, b, ls, t)
    requires forall j :: 0 <= j < |ips| ==> HashAddress(cfg, ips[j]) == b
    ensures Repeating(cfg, b, ls, Run(cfg, t, ips))
    ensures Run(cfg, t, ips).instructionCount == t.instructionCount + |ips|
    decreases |ips|
  {
    if |ips| > 0 {
      RepeatingStep(cfg, b, ls, t, ips[0]);
      assert forall j :: 0 <= j < |ips[1..]| ==> ips[1..][j] == ips[j + 1];
      RepeatingRun(cfg, b, ls, Detect(cfg, t, ips[0]).state, ips[1..]);
    }
  }

  lemma RepeatingFromInit(cfg: Config, ls: seq<ListenerId>, b: nat, ips: seq<U64>)
    requires ValidConfig(cfg) && |ips| > 0
    requires forall j :: 0 <= j < |ips| ==> HashAddress(cfg, ips[j]) == b
    ensures Repeating(cfg, b, ls, Run(cfg, Init().(listeners := ls), ips))
    ensures Run(cfg, Init().(listeners := ls), ips).instructionCount == |ips|
  {
    var s := Init().(listeners := ls);
    var t := Detect(cfg, s, ips[0]).state;
    RepeatingStart(cfg, ls, ips[0]);
    assert forall j :: 0 <= j < |ips[1..]| ==> ips[1..][j] == ips[j + 1];
    RepeatingRun(cfg, b, ls, t, ips[1..]);
    assert Run(cfg, s, ips) == Run(cfg, t, ips[1..]);
  }

  /** ceil(n / l) exceeds k exactly when n exceeds k * l. */
  lemma CeilAbove(n: nat, l: nat, k: nat)
    requires l > 0
    ensures (n + l - 1) / l > k <==> n > k * l
  {
    var q := (n + l - 1) / l;
    var r := (n + l - 1) % l;
    assert n + l - 1 == q * l + r && r < l;
    if n > k * l && q <= k {
      MulLe(q, k, l);
      assert false;
    }
    if n <= k * l && q > k {
      MulLe(k + 1, q, l);
      assert false;
    }
  }

  /** Repeating one address set, interval after interval, from `init`: the
      phase is -1 up to trace entry stable_min (at least 1), then a new phase
      0 is confirmed exactly once, and it stays 0 from then on. The table
      holds the signature from the (stable_min * interval_len + 1)-th call on,
      and nothing before. */
  lemma RepeatedSignatureConfirmsOnce(cfg: Config, ls: seq<ListenerId>, b: nat, ips: seq<U64>)
    requires ValidConfig(cfg)
    requires forall j :: 0 <= j < |ips| ==> HashAddress(cfg, ips[j]) == b
    ensures var r := Run(cfg, Init().(listeners := ls), ips);
            && |r.phaseTrace| == BoundariesIn(cfg, |ips|)
            && (forall i :: 0 <= i < |r.phaseTrace| ==>
                  r.phaseTrace[i] == if i < ConfirmAt(cfg) then UNKNOWN else 0)
            && r.phaseTable == (if |r.phaseTrace| > ConfirmAt(cfg) then [{b}] else [])
            && (r.phaseTable == [{b}] <==> |ips| > ConfirmAt(cfg) * cfg.intervalLen)
  {
    var r := Run(cfg, Init().(listeners := ls), ips);
    if |ips| > 0 {
      RepeatingFromInit(cfg, ls, b, ips);
    } else {
      assert r == Init().(listeners := ls);
    }
    RepeatingShape(cfg, ls, b, |ips|, r);
  }

  lemma RepeatingShape(cfg: Config, ls: seq<ListenerId>, b: nat, n: nat, r: Detector)
    requires ValidConfig(cfg)
    requires n == 0 ==> r == Init().(listeners := ls)
    requires n > 0 ==> Repeating(cfg, b, ls, r) && r.instructionCount == n
    ensures |r.phaseTrace| == BoundariesIn(cfg, n)
    ensures r.phaseTable == (if |r.phaseTrace| > ConfirmAt(cfg) then [{b}] else [])
    ensures r.phaseTable == [{b}] <==> n > ConfirmAt(cfg) * cfg.intervalLen
  {
    CeilAbove(n, cfg.intervalLen, ConfirmAt(cfg));
    if n == 0 {
      assert BoundariesIn(cfg, 0) == 0 by {
        DivBetween(cfg.intervalLen - 1, cfg.intervalLen, 0);
      }
    }
  }
}
