/** CPU timestamps of cpu_core.c: a narrow free-running timer widened by accumulating its deltas. */
module Timestamp {
  import opened Bits

  /** CPU_TS_32_Accum/CPU_TS_64_Accum and CPU_TS_32_TmrPrev/CPU_TS_64_TmrPrev. */
  datatype Ts = Ts(accum: nat, tmrPrev: nat)

  /** Number of counts before the timer (tm) and the accumulator (am) overflow. */
  datatype Width = Width(tm: nat, am: nat)

  ghost predicate WidthOk(w: Width) { w.tm > 0 && w.am > 0 }

  /** CPU_TS_TmrRd() after t true ticks. */
  function TmrRd(w: Width, t: nat): nat
    requires w.tm > 0
  {
    t % w.tm
  }

  /** CPU_TS_Init() */
  function Init(w: Width, t: nat): Ts
    requires w.tm > 0
  {
    Ts(0, TmrRd(w, t))
  }

  /** CPU_TS_Get32() or CPU_TS_Get64() on a timer narrower than the timestamp. */
  function Get(w: Width, s: Ts, t: nat): Ts
    requires w.tm > 0 && w.am > 0
  {
    var tmrCur := TmrRd(w, t);
    var tmrDelta := (tmrCur - s.tmrPrev) % w.tm;
    Ts((s.accum + tmrDelta) % w.am, tmrCur)
  }

  // ----- runs of reads -----

  /** The timestamp after initialising at tick t0 and reading at each of the ticks ts. */
  function After(w: Width, t0: nat, ts: seq<nat>): Ts
    requires w.tm > 0 && w.am > 0
  {
    if ts == [] then Init(w, t0) else Get(w, After(w, t0, ts[..|ts| - 1]), ts[|ts| - 1])
  }

  /** The tick of the latest read. */
  function Latest(t0: nat, ts: seq<nat>): nat {
    if ts == [] then t0 else ts[|ts| - 1]
  }

  /** Time does not run backwards. */
  ghost predicate Ordered(t0: nat, ts: seq<nat>) {
    forall i | 0 <= i < |ts| :: Latest(t0, ts[..i]) <= ts[i]
  }

  /** How many whole turns of the timer fell between two reads, in total. */
  function LostTurns(w: Width, t0: nat, ts: seq<nat>): nat
    requires w.tm > 0
  {
    if ts == [] then 0
    else
      var rest, t := ts[..|ts| - 1], ts[|ts| - 1];
      LostTurns(w, t0, rest) + if t >= Latest(t0, rest) then (t - Latest(t0, rest)) / w.tm else 0
  }

  /** Every gap between reads is shorter than a turn of the timer. */
  ghost predicate Timely(w: Width, t0: nat, ts: seq<nat>) {
    forall i | 0 <= i < |ts| :: ts[i] < Latest(t0, ts[..i]) + w.tm
  }

  lemma OrderedPrefix(w: Width, t0: nat, ts: seq<nat>)
    requires ts != [] && Ordered(t0, ts)
    ensures Ordered(t0, ts[..|ts| - 1]) && Latest(t0, ts[..|ts| - 1]) <= ts[|ts| - 1]
    ensures Timely(w, t0, ts) <==>
      Timely(w, t0, ts[..|ts| - 1]) && ts[|ts| - 1] < Latest(t0, ts[..|ts| - 1]) + w.tm
  {
    var rest := ts[..|ts| - 1];
    forall i | 0 <= i < |rest| ensures rest[..i] == ts[..i] && rest[i] == ts[i] {}
  }

  /** The delta of two timer values is the gap between the reads, less whole turns. */
  lemma DeltaIsGap(m: nat, t: nat, u: nat)
    requires m > 0 && t <= u
    ensures (u % m - t % m) % m == (u - t) % m
  {
    var q := t / m - u / m;
    assert u % m - t % m == (u - t) + q * m;
    ModShift(u - t, q, m);
  }

  /** One read: the whole turns since the previous read are what it misses. */
  lemma ReadExact(w: Width, t0: nat, u: nat, t: nat, lost: nat, accum: nat)
    requires WidthOk(w) && u <= t && t0 + lost * w.tm <= u && accum == (u - t0 - lost * w.tm) % w.am
    ensures var lost' := lost + (t - u) / w.tm;
      && t0 + lost' * w.tm <= t
      && (accum + (TmrRd(w, t) - TmrRd(w, u)) % w.tm) % w.am == (t - t0 - lost' * w.tm) % w.am
  {
    DeltaIsGap(w.tm, u, t);
    var g, r := (t - u) / w.tm, (t - u) % w.tm;
    GapParts(t - u, lost, w.tm);
    AddReduced(u - t0 - lost * w.tm, r, w.am);
  }

  lemma GapParts(d: nat, lost: nat, m: nat)
    requires m > 0
    ensures d == (d / m) * m + d % m
    ensures (lost + d / m) * m == lost * m + (d / m) * m
  {}

  /** On every run the timestamp is the elapsed time, less the lost turns, modulo its own width. */
  lemma {:induction false} AccumExact(w: Width, t0: nat, ts: seq<nat>)
    requires WidthOk(w) && Ordered(t0, ts)
    ensures After(w, t0, ts).tmrPrev == TmrRd(w, Latest(t0, ts))
    ensures t0 + LostTurns(w, t0, ts) * w.tm <= Latest(t0, ts)
    ensures After(w, t0, ts).accum == (Latest(t0, ts) - t0 - LostTurns(w, t0, ts) * w.tm) % w.am
    decreases |ts|
  {
    hide TmrRd, Ordered;
    if ts == [] {
      ModUnique(0, w.am, 0, 0);
    } else {
      var rest, t := ts[..|ts| - 1], ts[|ts| - 1];
      OrderedPrefix(w, t0, ts);
      AccumExact(w, t0, rest);
      ReadExact(w, t0, Latest(t0, rest), t, LostTurns(w, t0, rest), After(w, t0, rest).accum);
    }
  }

  lemma {:induction false} LostIffLate(w: Width, t0: nat, ts: seq<nat>)
    requires WidthOk(w) && Ordered(t0, ts)
    ensures LostTurns(w, t0, ts) == 0 <==> Timely(w, t0, ts)
    decreases |ts|
  {
    if ts != [] {
      hide Ordered, Timely;
      var rest, t := ts[..|ts| - 1], ts[|ts| - 1];
      OrderedPrefix(w, t0, ts);
      LostIffLate(w, t0, rest);
      NoTurnIff(t - Latest(t0, rest), w.tm);
    }
  }

  lemma NoTurnIff(d: nat, m: nat)
    requires m > 0
    ensures d / m == 0 <==> d < m
  {
    if d < m { ModUnique(d, m, 0, d); }
  }

  /** Until the accumulator itself overflows, the timestamp is the true elapsed time if and only if no two reads
      were a turn of the timer or more apart; and what it lacks is always a multiple of a turn. */
  lemma ExactIffTimely(w: Width, t0: nat, ts: seq<nat>)
    requires WidthOk(w) && Ordered(t0, ts) && Latest(t0, ts) - t0 < w.am
    ensures t0 <= Latest(t0, ts)
    ensures After(w, t0, ts).accum == Latest(t0, ts) - t0 <==> Timely(w, t0, ts)
    ensures Latest(t0, ts) - t0 - After(w, t0, ts).accum == LostTurns(w, t0, ts) * w.tm
  {
    hide After, LostTurns, Timely, Ordered;
    AccumExact(w, t0, ts);
    LostIffLate(w, t0, ts);
    var e, lost := Latest(t0, ts) - t0, LostTurns(w, t0, ts);
    ModUnique(e - lost * w.tm, w.am, 0, e - lost * w.tm);
    if lost > 0 { MulMonotone(1, lost, w.tm); }
  }

  // ----- the global counters -----

  class CpuTs {
    const w: Width
    var Accum: nat
    var TmrPrev: nat

    ghost function View(): Ts
      reads this
    {
      Ts(Accum, TmrPrev)
    }

    /** CPU_TS_Init(); tsTmrCnts is the value read from the timer. */
    constructor (width: Width, tsTmrCnts: nat)
      requires WidthOk(width) && tsTmrCnts < width.tm
      ensures w == width && View() == Ts(0, tsTmrCnts)
      ensures forall t: nat :: tsTmrCnts == TmrRd(w, t) ==> View() == Init(w, t)
    {
      w := width;
      Accum, TmrPrev := 0, tsTmrCnts;
    }

    /** CPU_TS_Get32() / CPU_TS_Get64(); tmrCur is the value read from the timer. */
    method TsGet(tmrCur: nat) returns (ts: nat)
      requires WidthOk(w) && tmrCur < w.tm
      modifies this
      ensures ts == Accum
      ensures forall t: nat :: tmrCur == TmrRd(w, t) ==> View() == Get(w, old(View()), t)
    {
      var tmrDelta := (tmrCur - TmrPrev) % w.tm;
      Accum := (Accum + tmrDelta) % w.am;
      TmrPrev := tmrCur;
      ts := Accum;
    }
  }
}
