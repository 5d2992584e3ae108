/** The two listeners of src/phase_detector.cc that connect the detector to
    the memory simulator: `dramsim_transaction_callback_listener`, called when
    a memory transaction completes, and `dram_phase_trace_listener`, called at
    every phase boundary. Their module-level statics (lines 34-42) become an
    explicit context record; every update is a pure function on it. */
module Listeners {
  import opened Common

  datatype Context = Context(
    firstSeen: map<U64, U64>,   // address_to_first_seen_map: issue clock per pending address
    clk: U64,                   // the simulation clock
    latency: U64,               // current_phase_latency
    numTransactions: U64,       // current_phase_num_transactions
    oldPhase: int,              // old_phase
    interval: U64)              // interval

  /** The static initial values (lines 34-42); `old_phase` starts at -2, which
      no detector ever reports. */
  const INITIAL: Context := Context(map[], 0, 0, 0, -2, 0)

  /** Every pending address was issued no later than the current clock. */
  ghost predicate Issued(ctx: Context)
  {
    forall a :: a in ctx.firstSeen ==> ctx.firstSeen[a] <= ctx.clk
  }

  /** The replay loop records the issue clock of an address it dispatches
      (line 232); an address already pending gets the new clock. */
  function Issue(ctx: Context, addr: U64): (r: Context)
    ensures addr in r.firstSeen && r.firstSeen[addr] == ctx.clk
    ensures r.firstSeen.Keys == ctx.firstSeen.Keys + {addr}
    ensures forall a :: a in ctx.firstSeen && a != addr ==> r.firstSeen[a] == ctx.firstSeen[a]
    ensures r.(firstSeen := ctx.firstSeen) == ctx
    ensures Issued(ctx) ==> Issued(r)
  {
    ctx.(firstSeen := ctx.firstSeen[addr := ctx.clk])
  }

  /** One clock cycle of the replay loop (line 237). */
  function Tick(ctx: Context): (r: Context)
    ensures r.clk == Inc64(ctx.clk)
    ensures r.(clk := ctx.clk) == ctx
    ensures Issued(ctx) && ctx.clk + 1 < TWO_64 ==> Issued(r)
  {
    ctx.(clk := Inc64(ctx.clk))
  }

  /** n clock cycles. */
  function Ticks(ctx: Context, n: nat): Context
    decreases n
  {
    if n == 0 then ctx else Ticks(Tick(ctx), n - 1)
  }

  lemma {:induction false} TicksAdvanceClock(ctx: Context, n: nat)
    requires ctx.clk + n < TWO_64
    ensures Ticks(ctx, n).clk == ctx.clk + n
    ensures Ticks(ctx, n).(clk := ctx.clk) == ctx
    decreases n
  {
    if n > 0 {
      TicksAdvanceClock(Tick(ctx), n - 1);
    }
  }

  /** `dramsim_transaction_callback_listener` (lines 198-205): a pending
      address is consumed and its latency, computed in unsigned 64-bit
      arithmetic, is added to the current phase's totals; an address that is
      not pending changes nothing. */
  function TransactionCompleted(ctx: Context, addr: U64): (r: Context)
    ensures addr in ctx.firstSeen ==>
              && r.firstSeen == ctx.firstSeen - {addr}
              && r.numTransactions == Inc64(ctx.numTransactions)
              && r.latency == Wrap64(ctx.latency + Wrap64(ctx.clk - ctx.firstSeen[addr]))
              && r.clk == ctx.clk && r.oldPhase == ctx.oldPhase && r.interval == ctx.interval
    ensures addr !in ctx.firstSeen ==> r == ctx
    ensures Issued(ctx) ==> Issued(r)
  {
    if addr in ctx.firstSeen then
      var latency := Wrap64(ctx.clk - ctx.firstSeen[addr]);
      ctx.(firstSeen := ctx.firstSeen - {addr},
           numTransactions := Inc64(ctx.numTransactions),
           latency := Wrap64(ctx.latency + latency))
    else
      ctx
  }

  /** While every pending address was issued at or before the clock, the
      unsigned subtraction never wraps: the latency added is exactly the
      number of cycles the transaction was in flight. */
  lemma LatencyIsElapsedCycles(ctx: Context, addr: U64)
    requires Issued(ctx) && addr in ctx.firstSeen
    requires ctx.latency + (ctx.clk - ctx.firstSeen[addr]) < TWO_64
    requires ctx.numTransactions + 1 < TWO_64
    ensures var r := TransactionCompleted(ctx, addr);
            && r.latency == ctx.latency + (ctx.clk - ctx.firstSeen[addr])
            && r.numTransactions == ctx.numTransactions + 1
  {
  }

  /** Issuing an address at clock 10 and completing it at clock 25 adds 15 to
      the latency total and 1 to the transaction count; completing an address
      that was never issued leaves every total as it was. */
  lemma LatencyExample(ctx: Context, x: U64, y: U64)
    requires Issued(ctx) && ctx.clk == 10 && ctx.latency == 0 && ctx.numTransactions == 0
    requires x != y && y !in ctx.firstSeen
    ensures var done := TransactionCompleted(Ticks(Issue(ctx, x), 15), x);
            done.latency == 15 && done.numTransactions == 1 && x !in done.firstSeen
    ensures var never := TransactionCompleted(Ticks(Issue(ctx, x), 15), y);
            never == Ticks(Issue(ctx, x), 15)
  {
    var issued := Issue(ctx, x);
    TicksAdvanceClock(issued, 15);
    var later := Ticks(issued, 15);
    assert later.firstSeen == issued.firstSeen;
    assert later.firstSeen[x] == 10 && later.clk == 25;
  }

  /** `dram_phase_trace_listener` without its log write (lines 172-196): a new
      phase id restarts the per-phase totals and abandons every pending
      transaction; the interval counter advances on every call. */
  function PhaseTraceListener(ctx: Context, newPhase: int): (r: Context)
    ensures r.interval == Inc64(ctx.interval) && r.clk == ctx.clk
    ensures newPhase != ctx.oldPhase ==>
              && r.oldPhase == newPhase
              && r.latency == 0 && r.numTransactions == 0
              && r.firstSeen == map[]
    ensures newPhase == ctx.oldPhase ==> r == ctx.(interval := Inc64(ctx.interval))
    ensures Issued(ctx) ==> Issued(r)
  {
    var ctx' :=
      if newPhase != ctx.oldPhase then
        ctx.(oldPhase := newPhase, latency := 0, numTransactions := 0, firstSeen := map[])
      else
        ctx;
    ctx'.(interval := Inc64(ctx'.interval))
  }

  /** A transaction still in flight when the phase changes is lost: its
      completion afterwards changes nothing. */
  lemma CompletionAcrossPhaseChangeIsDropped(ctx: Context, newPhase: int, addr: U64)
    requires newPhase != ctx.oldPhase
    ensures var r := PhaseTraceListener(ctx, newPhase);
            TransactionCompleted(r, addr) == r
  {
  }

  /** The listener applied to the phase reported at each boundary, in order. */
  function DeliverAll(ctx: Context, phases: seq<int>): Context
    decreases |phases|
  {
    if |phases| == 0 then ctx
    else DeliverAll(PhaseTraceListener(ctx, phases[0]), phases[1..])
  }

  /** `interval` counts the boundaries the listener has seen, and `old_phase`
      is the last phase reported. */
  lemma {:induction false} DeliverAllCounts(ctx: Context, phases: seq<int>)
    requires ctx.interval + |phases| < TWO_64
    ensures DeliverAll(ctx, phases).interval == ctx.interval + |phases|
    ensures DeliverAll(ctx, phases).clk == ctx.clk
    ensures |phases| > 0 ==> DeliverAll(ctx, phases).oldPhase == phases[|phases| - 1]
    ensures |phases| == 0 ==> DeliverAll(ctx, phases).oldPhase == ctx.oldPhase
    decreases |phases|
  {
    if |phases| > 0 {
      var next := PhaseTraceListener(ctx, phases[0]);
      DeliverAllCounts(next, phases[1..]);
      if |phases| == 1 {
        assert phases[1..] == [];
      } else {
        assert phases[1..][|phases[1..]| - 1] == phases[|phases| - 1];
      }
    }
  }

  /** The first phase ever reported always starts a new phase for the
      listener, since no detector reports -2. */
  lemma FirstReportStartsPhase(p: int)
    requires p >= -1
    ensures PhaseTraceListener(INITIAL, p).oldPhase == p
    ensures PhaseTraceListener(INITIAL, p).interval == 1
  {
  }
}
