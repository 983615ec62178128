/** Interrupts-disabled time measurement of cpu_core.c: the longest outermost critical section so far. */
module IntDisMeas {
  import opened Bits

  /** Modulus of the 16-bit counters. */
  const CTR: nat := 0x1_0000

  /** The CPU_IntDisMeas... and CPU_IntDisNestCtr globals. */
  datatype Meas = Meas(measCtr: nat, nestCtr: nat, start: nat, stop: nat, maxCur: nat, max: nat, ovrhd: nat)

  /** What an unsigned counter with this modulus keeps of x. */
  function Mod(x: int, m: nat): (r: nat)
    requires m > 0
    ensures r < m
  {
    x % m
  }

  // ----- the code; t is the number of true ticks when the timer is read -----

  /** CPU_IntDisMeasStart() */
  function Start(tm: nat, s: Meas, t: nat): Meas
    requires tm > 0
  {
    var start := if s.nestCtr == 0 then Mod(t, tm) else s.start;
    s.(measCtr := Mod(s.measCtr + 1, CTR), start := start, nestCtr := Mod(s.nestCtr + 1, CTR))
  }

  /** CPU_IntDisMeasStop() */
  function Stop(tm: nat, s: Meas, t: nat): Meas
    requires tm > 0
  {
    var nest := Mod(s.nestCtr - 1, CTR);
    if nest == 0 then
      var d := Mod(Mod(t, tm) - s.start, tm);
      s.(nestCtr := nest, stop := Mod(t, tm),
         maxCur := if s.maxCur < d then d else s.maxCur,
         max := if s.max < d then d else s.max)
    else s.(nestCtr := nest)
  }

  // ----- what is measured -----

  /** Entering and leaving critical sections, and clearing the current maximum. */
  datatype Event = Enter(t: nat) | Exit(t: nat) | ResetCur

  /** How deep the sections are nested, when the outermost one began, and the lengths (as the timer sees them) of
      the finished outermost sections since initialisation and since the last reset. */
  datatype Hist = Hist(depth: nat, openAt: nat, all: seq<nat>, cur: seq<nat>)

  function Seen(tm: nat, h: Hist, e: Event): Hist
    requires tm > 0
  {
    match e
    case Enter(t) => h.(depth := h.depth + 1, openAt := if h.depth == 0 then t else h.openAt)
    case Exit(t) =>
      if h.depth == 0 then h
      else if h.depth > 1 then h.(depth := h.depth - 1)
      else
        var d := Mod(t - h.openAt, tm);
        Hist(0, h.openAt, h.all + [d], h.cur + [d])
    case ResetCur => h.(cur := [])
  }

  function History(tm: nat, es: seq<Event>): Hist
    requires tm > 0
  {
    if es == [] then Hist(0, 0, [], []) else Seen(tm, History(tm, es[..|es| - 1]), es[|es| - 1])
  }

  function Step(tm: nat, s: Meas, e: Event): Meas
    requires tm > 0
  {
    match e
    case Enter(t) => Start(tm, s, t)
    case Exit(t) => Stop(tm, s, t)
    case ResetCur => s.(maxCur := 0)
  }

  function After(tm: nat, s: Meas, es: seq<Event>): Meas
    requires tm > 0
  {
    if es == [] then s else Step(tm, After(tm, s, es[..|es| - 1]), es[|es| - 1])
  }

  function MaxOf(ds: seq<nat>): nat {
    if ds == [] then 0
    else
      var m, d := MaxOf(ds[..|ds| - 1]), ds[|ds| - 1];
      if m < d then d else m
  }

  lemma {:induction false} MaxOfIsMax(ds: seq<nat>)
    ensures forall d | d in ds :: d <= MaxOf(ds)
    ensures ds != [] ==> MaxOf(ds) in ds
  {
    if ds != [] {
      var rest := ds[..|ds| - 1];
      MaxOfIsMax(rest);
      assert ds == rest + [ds[|ds| - 1]];
      if rest == [] { assert MaxOf(rest) == 0; }
    }
  }

  lemma MaxOfSnoc(ds: seq<nat>, d: nat)
    ensures MaxOf(ds + [d]) == if MaxOf(ds) < d then d else MaxOf(ds)
  {
    assert (ds + [d])[..|ds|] == ds;
  }

  lemma MaxOfSuffix(ds: seq<nat>, k: nat)
    requires k <= |ds|
    ensures MaxOf(ds[k..]) <= MaxOf(ds)
  {
    MaxOfIsMax(ds);
    MaxOfIsMax(ds[k..]);
    if ds[k..] != [] { assert MaxOf(ds[k..]) in ds; }
  }

  /** A run, one event at a time. */
  lemma OneMore(tm: nat, s: Meas, es: seq<Event>, e: Event)
    requires tm > 0
    ensures After(tm, s, es + [e]) == Step(tm, After(tm, s, es), e)
    ensures History(tm, es + [e]) == Seen(tm, History(tm, es), e)
  {
    hide Step, Seen;
    assert (es + [e])[..|es|] == es;
  }

  /** Every leave has its enter, and at most d sections are open at a time. */
  ghost predicate NestedTo(tm: nat, es: seq<Event>, d: nat)
    requires tm > 0
  {
    forall i | 0 <= i < |es| ::
      && (es[i].Exit? ==> History(tm, es[..i]).depth > 0)
      && (es[i].Enter? ==> History(tm, es[..i]).depth < d)
  }

  /** The event e may follow a history. */
  ghost predicate Follows(h: Hist, e: Event, d: nat) {
    && (e.Exit? ==> h.depth > 0)
    && (e.Enter? ==> h.depth < d)
  }

  lemma NestedPrefix(tm: nat, es: seq<Event>, d: nat)
    requires tm > 0 && es != [] && NestedTo(tm, es, d)
    ensures NestedTo(tm, es[..|es| - 1], d) && Follows(History(tm, es[..|es| - 1]), es[|es| - 1], d)
  {
    var rest := es[..|es| - 1];
    forall i | 0 <= i < |rest| ensures rest[..i] == es[..i] && rest[i] == es[i] {}
  }

  lemma NestedMore(tm: nat, es: seq<Event>, e: Event, d: nat)
    requires tm > 0 && NestedTo(tm, es, d) && Follows(History(tm, es), e, d)
    ensures NestedTo(tm, es + [e], d)
  {
    hide History;
    var more := es + [e];
    forall i | 0 <= i < |more|
      ensures Follows(History(tm, more[..i]), more[i], d)
    {
      assert more[..i] == if i < |es| then es[..i] else es;
    }
  }

  lemma NestedWider(tm: nat, es: seq<Event>, d: nat, d': nat)
    requires tm > 0 && NestedTo(tm, es, d) && d <= d'
    ensures NestedTo(tm, es, d')
  {
    hide History;
  }

  ghost predicate Initialised(s: Meas) { s.nestCtr == 0 && s.maxCur == 0 && s.max == 0 }

  /** The counters say what happened; with exactly 2^16 sections open the nesting counter reads 0. */
  ghost predicate Agrees(tm: nat, s: Meas, h: Hist)
    requires tm > 0
  {
    && h.depth <= CTR && s.nestCtr == Mod(h.depth, CTR)
    && (h.depth > 0 ==> s.start == Mod(h.openAt, tm))
    && s.max == MaxOf(h.all) && s.maxCur == MaxOf(h.cur)
    && |h.cur| <= |h.all| && h.all[|h.all| - |h.cur|..] == h.cur
  }

  lemma StepAgrees(tm: nat, s: Meas, h: Hist, e: Event)
    requires tm > 0 && Agrees(tm, s, h) && Follows(h, e, CTR)
    ensures Agrees(tm, Step(tm, s, e), Seen(tm, h, e))
  {
    hide MaxOf, Mod;
    MaxOfNone();
    if e.Exit? {
      Decremented(h.depth);
      LengthSeen(tm, h.openAt, e.t);
      SectionAgrees(s, h, Mod(e.t - h.openAt, tm));
    } else if e.Enter? {
      Incremented(h.depth);
    }
  }

  /** Counting down is exact even from a counter that has just wrapped. */
  lemma Decremented(n: int)
    requires 0 < n <= CTR
    ensures Mod(Mod(n, CTR) - 1, CTR) == n - 1 == Mod(n - 1, CTR)
  {}

  lemma Incremented(n: int)
    requires 0 <= n < CTR
    ensures Mod(n, CTR) == n && Mod(Mod(n, CTR) + 1, CTR) == Mod(n + 1, CTR)
  {}

  /** One more finished section of length d. */
  lemma SectionAgrees(s: Meas, h: Hist, d: nat)
    requires s.max == MaxOf(h.all) && s.maxCur == MaxOf(h.cur)
    requires |h.cur| <= |h.all| && h.all[|h.all| - |h.cur|..] == h.cur
    ensures MaxOf(h.all + [d]) == (if s.max < d then d else s.max)
    ensures MaxOf(h.cur + [d]) == (if s.maxCur < d then d else s.maxCur)
    ensures (h.all + [d])[|h.all| - |h.cur|..] == h.cur + [d]
  {
    MaxOfSnoc(h.all, d);
    MaxOfSnoc(h.cur, d);
  }

  lemma MaxOfNone()
    ensures MaxOf([]) == 0
  {}

  /** The difference of the two timer values is the length of the section modulo the timer. */
  lemma LengthSeen(tm: nat, from: nat, to: nat)
    requires tm > 0
    ensures Mod(Mod(to, tm) - Mod(from, tm), tm) == Mod(to - from, tm)
  {
    var q := from / tm - to / tm;
    assert to % tm - from % tm == (to - from) + q * tm;
    ModShift(to - from, q, tm);
  }

  /** On every run nested up to 2^16 deep Max_cnts is the longest outermost section since initialisation, MaxCur_cnts
      the longest since the last clearing, and the latter never exceeds the former. */
  lemma {:induction false} RunAgrees(tm: nat, s: Meas, es: seq<Event>)
    requires tm > 0 && Initialised(s) && NestedTo(tm, es, CTR)
    ensures Agrees(tm, After(tm, s, es), History(tm, es))
    ensures After(tm, s, es).maxCur <= After(tm, s, es).max
    decreases |es|
  {
    hide MaxOf, Step, Seen, NestedTo;
    if es == [] {
      MaxOfNone();
    } else {
      NestedPrefix(tm, es, CTR);
      RunAgrees(tm, s, es[..|es| - 1]);
      StepAgrees(tm, After(tm, s, es[..|es| - 1]), History(tm, es[..|es| - 1]), es[|es| - 1]);
    }
    var h := History(tm, es);
    MaxOfSuffix(h.all, |h.all| - |h.cur|);
  }

  // ----- the other counters -----

  /** How many sections, outermost or not, a run enters. */
  function EnterCount(es: seq<Event>): nat {
    if es == [] then 0 else EnterCount(es[..|es| - 1]) + if es[|es| - 1].Enter? then 1 else 0
  }

  /** The events of a run that start a measurement: a section is entered while the nesting counter reads 0. */
  ghost predicate Starts(tm: nat, s: Meas, es: seq<Event>, k: nat)
    requires tm > 0 && k < |es|
  {
    es[k].Enter? && After(tm, s, es[..k]).nestCtr == 0
  }

  /** The events of a run that stop one: a section is left while the nesting counter reads 1. */
  ghost predicate Stops(tm: nat, s: Meas, es: seq<Event>, k: nat)
    requires tm > 0 && k < |es|
  {
    es[k].Exit? && After(tm, s, es[..k]).nestCtr == 1
  }

  /** Over every run CPU_IntDisMeasCtr counts the sections entered, modulo 2^16; nothing else changes it, and nothing
      changes the overhead. */
  lemma {:induction false} CountsEnters(tm: nat, s: Meas, es: seq<Event>)
    requires tm > 0 && s.measCtr < 0x1_0000
    ensures After(tm, s, es).measCtr == (s.measCtr + EnterCount(es)) % 0x1_0000
    ensures After(tm, s, es).ovrhd == s.ovrhd
    decreases |es|
  {
    if es != [] {
      CountsEnters(tm, s, es[..|es| - 1]);
    }
  }

  lemma {:induction false} NestBelow(tm: nat, s: Meas, es: seq<Event>)
    requires tm > 0 && s.nestCtr < CTR
    ensures After(tm, s, es).nestCtr < CTR
    decreases |es|
  {
    if es != [] {
      NestBelow(tm, s, es[..|es| - 1]);
    }
  }

  lemma StepTimes(tm: nat, s: Meas, e: Event)
    requires tm > 0 && s.nestCtr < CTR
    ensures Step(tm, s, e).start == if e.Enter? && s.nestCtr == 0 then Mod(e.t, tm) else s.start
    ensures Step(tm, s, e).stop == if e.Exit? && s.nestCtr == 1 then Mod(e.t, tm) else s.stop
  {
    LastLevel(s.nestCtr);
  }

  lemma LastLevel(n: nat)
    requires n < CTR
    ensures Mod(n - 1, CTR) == 0 <==> n == 1
  {}

  /** Over every run the start and stop counts are the timer values at the last start and the last stop. */
  lemma {:induction false} LastTimes(tm: nat, s: Meas, es: seq<Event>, k: nat)
    requires tm > 0 && s.nestCtr < CTR && k < |es|
    ensures Starts(tm, s, es, k) && (forall j: nat | k < j < |es| :: !Starts(tm, s, es, j)) ==>
      After(tm, s, es).start == Mod(es[k].t, tm)
    ensures Stops(tm, s, es, k) && (forall j: nat | k < j < |es| :: !Stops(tm, s, es, j)) ==>
      After(tm, s, es).stop == Mod(es[k].t, tm)
    decreases |es|
  {
    hide Mod, Step;
    var rest, last: nat := es[..|es| - 1], |es| - 1;
    NestBelow(tm, s, rest);
    StepTimes(tm, After(tm, s, rest), es[last]);
    if k < last {
      forall j: nat | k <= j < last
        ensures Starts(tm, s, rest, j) == Starts(tm, s, es, j) && Stops(tm, s, rest, j) == Stops(tm, s, es, j)
      {
        assert rest[..j] == es[..j];
      }
      LastTimes(tm, s, rest, k);
      assert es[..last] == rest;
      assert Starts(tm, s, es, last) == (es[last].Enter? && After(tm, s, rest).nestCtr == 0);
      assert Stops(tm, s, es, last) == (es[last].Exit? && After(tm, s, rest).nestCtr == 1);
    }
  }

  // ----- how deep sections may nest -----

  /** Whatever run is nested up to d deep, the maximum is the longest outermost section. */
  ghost predicate RightTo(tm: nat, d: nat)
    requires tm > 0
  {
    forall s, es | Initialised(s) && NestedTo(tm, es, d) :: After(tm, s, es).max == MaxOf(History(tm, es).all)
  }

  /** n sections entered at time 0. */
  function Enters(n: nat): seq<Event> {
    if n == 0 then [] else Enters(n - 1) + [Enter(0)]
  }

  /** One more entered at time 1, and then k left at time 1. */
  function Overrun(n: nat, k: nat): seq<Event> {
    if k == 0 then Enters(n) + [Enter(1)] else Overrun(n, k - 1) + [Exit(1)]
  }

  lemma {:induction false} EntersRun(tm: nat, s: Meas, n: nat)
    requires tm > 0 && Initialised(s) && n <= CTR
    ensures NestedTo(tm, Enters(n), n) && History(tm, Enters(n)) == Hist(n, 0, [], [])
    ensures var q := After(tm, s, Enters(n)); q.nestCtr == Mod(n, CTR) && q.max == 0
  {
    hide Mod, History, After;
    if n == 0 {
      NothingYet(tm, s);
      Incremented(0);
    } else {
      EntersRun(tm, s, n - 1);
      OneMore(tm, s, Enters(n - 1), Enter(0));
      NestedMore(tm, Enters(n - 1), Enter(0), n);
      Incremented(n - 1);
    }
  }

  lemma CounterWrapped()
    ensures Mod(CTR, CTR) == 0 && Mod(CTR + 1, CTR) == 1 == Mod(Mod(CTR, CTR) + 1, CTR)
  {}

  lemma CountedDown(n: int)
    requires 0 < n <= CTR + 1
    ensures Mod(Mod(n, CTR) - 1, CTR) == Mod(n - 1, CTR)
    ensures Mod(n - 1, CTR) == 0 <==> n == 1 || n == CTR + 1
  {}

  lemma NothingYet(tm: nat, s: Meas)
    requires tm > 0
    ensures After(tm, s, []) == s && History(tm, []) == Hist(0, 0, [], [])
  {}

  /** With 2^16 sections open the counter reads 0, so one more restarts the measurement at time 1; the section that
      lasts from 0 to 1 is then measured as 0. */
  lemma {:induction false} OverrunRun(tm: nat, s: Meas, n: nat, k: nat)
    requires tm > 0 && Initialised(s) && n == CTR && k <= n + 1
    ensures NestedTo(tm, Overrun(n, k), n + 1)
    ensures History(tm, Overrun(n, k)) == if k <= n then Hist(n + 1 - k, 0, [], []) else Hist(0, 0, [Mod(1, tm)], [Mod(1, tm)])
    ensures var q := After(tm, s, Overrun(n, k)); q.nestCtr == Mod(n + 1 - k, CTR) && q.start == Mod(1, tm) && q.max == 0
  {
    hide Mod, History, After, Enters, NestedTo;
    if k == 0 {
      EntersRun(tm, s, n);
      CounterWrapped();
      OneMore(tm, s, Enters(n), Enter(1));
      NestedWider(tm, Enters(n), n, n + 1);
      NestedMore(tm, Enters(n), Enter(1), n + 1);
    } else {
      OverrunRun(tm, s, n, k - 1);
      OneMore(tm, s, Overrun(n, k - 1), Exit(1));
      NestedMore(tm, Overrun(n, k - 1), Exit(1), n + 1);
      CountedDown(n + 2 - k);
      LengthSeen(tm, 1, 1);
      ModSmall(0, tm);
      LengthSeen(tm, 0, 1);
    }
  }

  /** The run that goes one too deep ends with maximum 0 where the longest section lasted 1. */
  lemma OverrunMisses(tm: nat, s: Meas, n: nat)
    requires tm > 1 && Initialised(s) && n == CTR
    ensures NestedTo(tm, Overrun(n, n + 1), n + 1)
    ensures After(tm, s, Overrun(n, n + 1)).max == 0 && MaxOf(History(tm, Overrun(n, n + 1)).all) == 1
  {
    hide After, History, NestedTo, Overrun;
    OverrunRun(tm, s, n, n + 1);
    MaxOfSnoc([], 1);
  }

  /** The measured maximum is right on all runs of depth up to d if and only if d is at most 2^16. (A timer that only
      shows 0 has nothing to measure.) */
  lemma DepthBoundIff(tm: nat, d: nat)
    requires tm > 0
    ensures RightTo(tm, d) <==> d <= 0x1_0000 || tm == 1
  {
    hide After, History, Overrun, MaxOf, NestedTo;
    if d <= CTR {
      forall s, es | Initialised(s) && NestedTo(tm, es, d)
        ensures After(tm, s, es).max == MaxOf(History(tm, es).all)
      {
        NestedWider(tm, es, d, CTR);
        RunAgrees(tm, s, es);
      }
    } else if tm == 1 {
      forall s, es | Initialised(s)
        ensures After(tm, s, es).max == MaxOf(History(tm, es).all)
      {
        OneTick(s, es);
      }
    } else {
      var s, n := Meas(0, 0, 0, 0, 0, 0, 0), CTR;
      OverrunMisses(tm, s, n);
      NestedWider(tm, Overrun(n, n + 1), n + 1, d);
    }
  }

  lemma {:induction false} OneTick(s: Meas, es: seq<Event>)
    requires Initialised(s)
    ensures After(1, s, es).max == 0 == MaxOf(History(1, es).all)
    decreases |es|
  {
    hide MaxOf;
    MaxOfNone();
    if es != [] {
      OneTick(s, es[..|es| - 1]);
      MaxOfSnoc(History(1, es[..|es| - 1]).all, 0);
    }
  }

  // ----- single sections and clearing -----

  /** The maxima are timer values. */
  lemma {:induction false} MaxBelow(tm: nat, s: Meas, es: seq<Event>)
    requires tm > 0 && Initialised(s)
    ensures After(tm, s, es).max < tm && After(tm, s, es).maxCur < tm
    decreases |es|
  {
    if es != [] {
      MaxBelow(tm, s, es[..|es| - 1]);
    }
  }

  /** When the outermost section of a run ends, both maxima take its true length into account if and only if it is
      shorter than a turn of the timer. */
  lemma LengthExactIff(tm: nat, s: Meas, es: seq<Event>, to: nat)
    requires tm > 0 && Initialised(s) && NestedTo(tm, es, CTR)
    requires History(tm, es).depth == 1 && History(tm, es).openAt <= to
    ensures var (q, len) := (After(tm, s, es), to - History(tm, es).openAt);
      && (Stop(tm, q, to).max == (if q.max < len then len else q.max) <==> len < tm)
      && (Stop(tm, q, to).maxCur == (if q.maxCur < len then len else q.maxCur) <==> len < tm)
  {
    hide After, History, NestedTo, MaxOf, Mod;
    RunAgrees(tm, s, es);
    MaxBelow(tm, s, es);
    Decremented(1);
    var from := History(tm, es).openAt;
    LengthSeen(tm, from, to);
    ModSmall(to - from, tm);
  }

  lemma ModSmall(d: nat, m: nat)
    requires m > 0
    ensures Mod(d, m) == d <==> d < m
  {
    if d < m { ModUnique(d, m, 0, d); }
  }

  /** Event k after a run ends an outermost section. */
  ghost predicate EndsSection(tm: nat, es: seq<Event>, k: nat)
    requires tm > 0 && k < |es|
  {
    es[k].Exit? && History(tm, es[..k]).depth == 1
  }

  /** The outermost sections that end in a run after its first n events. */
  ghost function EndedSince(tm: nat, es: seq<Event>, n: nat): seq<nat>
    requires tm > 0 && n <= |es| && |History(tm, es[..n]).all| <= |History(tm, es).all|
  {
    History(tm, es).all[|History(tm, es[..n]).all|..]
  }

  /** From event n on nothing is cleared. */
  ghost predicate Uncleared(es: seq<Event>, n: nat) {
    forall k: nat | n <= k < |es| :: !es[k].ResetCur?
  }

  lemma {:induction false} SectionsSince(tm: nat, es: seq<Event>, n: nat)
    requires tm > 0 && n <= |es| && Uncleared(es, n)
    ensures var (h0, h1) := (History(tm, es[..n]), History(tm, es));
      && |h0.all| <= |h1.all| && h1.all[..|h0.all|] == h0.all
      && h1.cur == h0.cur + EndedSince(tm, es, n)
      && (EndedSince(tm, es, n) == [] <==> forall k: nat | n <= k < |es| :: !EndsSection(tm, es, k))
    decreases |es|
  {
    hide Mod, History;
    if n == |es| {
      assert es[..n] == es;
    } else {
      var rest, e := es[..|es| - 1], es[|es| - 1];
      assert rest[..n] == es[..n];
      SectionsSince(tm, rest, n);
      assert es == rest + [e];
      OneMore(tm, Meas(0, 0, 0, 0, 0, 0, 0), rest, e);
      forall k: nat | n <= k < |rest|
        ensures EndsSection(tm, rest, k) == EndsSection(tm, es, k)
      {
        assert rest[..k] == es[..k];
      }
      if EndedSince(tm, es, n) != [] && EndedSince(tm, rest, n) == [] {
        assert EndsSection(tm, es, |rest|);
      }
    }
  }

  /** CPU_IntDisMeasMaxCurReset() reads the current maximum after n events and clears it after all of them; the
      sections that end in between are in neither the returned maximum nor the new period. The returned maximum is
      still the one at the clearing if and only if none of them is longer, and there are none if and only if no
      outermost section ends between the two. */
  lemma ResetExact(tm: nat, s: Meas, es: seq<Event>, n: nat)
    requires tm > 0 && Initialised(s) && NestedTo(tm, es, CTR) && n <= |es| && Uncleared(es, n)
    ensures |History(tm, es[..n]).all| <= |History(tm, es).all|
    ensures var (read, lost) := (After(tm, s, es[..n]).maxCur, EndedSince(tm, es, n));
      && read == MaxOf(History(tm, es[..n]).cur)
      && (read == After(tm, s, es).maxCur <==> forall d | d in lost :: d <= read)
      && (lost == [] <==> forall k: nat | n <= k < |es| :: !EndsSection(tm, es, k))
    ensures After(tm, s, es + [ResetCur]).maxCur == 0 && History(tm, es + [ResetCur]).cur == []
  {
    hide After, History, NestedTo, MaxOf, EndsSection;
    NestedTake(tm, es, n, CTR);
    RunAgrees(tm, s, es[..n]);
    RunAgrees(tm, s, es);
    SectionsSince(tm, es, n);
    OneMore(tm, s, es, ResetCur);
    MaxOfBoth(History(tm, es[..n]).cur, EndedSince(tm, es, n));
  }

  lemma NestedTake(tm: nat, es: seq<Event>, n: nat, d: nat)
    requires tm > 0 && n <= |es| && NestedTo(tm, es, d)
    ensures NestedTo(tm, es[..n], d)
  {
    hide History;
    forall i | 0 <= i < n ensures es[..n][..i] == es[..i] && es[..n][i] == es[i] {}
  }

  lemma MaxOfBoth(ds: seq<nat>, es: seq<nat>)
    ensures MaxOf(ds) == MaxOf(ds + es) <==> forall d | d in es :: d <= MaxOf(ds)
  {
    hide MaxOf;
    MaxOfIsMax(ds);
    MaxOfIsMax(ds + es);
    MaxOfNone();
    assert forall d | d in es :: d in ds + es;
    if ds + es == [] { assert ds == [] && es == []; }
    if ds != [] { assert MaxOf(ds) in ds + es; }
  }

  /** What is left of the longest of these times after the overhead is taken off; 0 when nothing is left. */
  ghost predicate Excess(ds: seq<nat>, ovrhd: nat, r: nat) {
    && (forall d | d in ds :: d <= ovrhd + r)
    && (r == 0 || ovrhd + r in ds)
  }

  lemma ExcessOfMax(ds: seq<nat>, ovrhd: nat, r: nat)
    requires Excess([MaxOf(ds)], ovrhd, r)
    ensures Excess(ds, ovrhd, r)
  {
    hide MaxOf;
    MaxOfIsMax(ds);
    MaxOfNone();
    assert MaxOf(ds) in [MaxOf(ds)];
  }

  // ----- overhead -----

  /** The sum of the n overhead measurements, each a section entered and left at once; ticks holds the 2 n reads. */
  function OverheadSum(tm: nat, ticks: seq<nat>, n: nat): nat
    requires tm > 0 && 2 * n <= |ticks|
  {
    if n == 0 then 0
    else
      var from: int, to: int := ticks[2 * n - 2], ticks[2 * n - 1];
      OverheadSum(tm, ticks, n - 1) + Mod(to - from, tm)
  }

  /** Width of the addition that rounds: the timer's, and at least that of unsigned int. */
  function AddWidth(tm: nat): nat { if tm > 0x1_0000_0000 then tm else 0x1_0000_0000 }

  /** The rounded division of CPU_IntDisMeasInit(), stored in a timer value. */
  function RoundedMean(tot: nat, n: nat, tm: nat): nat
    requires n > 0 && tm > 0
  {
    Mod(Mod(tot + n / 2, AddWidth(tm)) / n, tm)
  }

  /** Neither the sum nor the rounding addition wraps. */
  predicate NoOverheadWrap(sum: nat, n: nat, tm: nat) {
    sum < tm && (sum + n / 2 < tm || sum + n / 2 < 0x1_0000_0000)
  }

  /** q is the mean of n values with this sum, rounded to nearest. */
  ghost predicate NearestMean(sum: nat, n: nat, q: int) {
    sum - n * q <= n / 2 && n * q - sum <= n / 2
  }

  /** One overhead measurement and what it adds to the sum. */
  lemma OverheadStep(tm: nat, ticks: seq<nat>, i: nat, s: Meas)
    requires tm > 0 && 2 * i + 2 <= |ticks| && s.nestCtr == 0 && s.maxCur == 0
    ensures var s' := Stop(tm, Start(tm, s, ticks[2 * i]), ticks[2 * i + 1]);
      && s'.nestCtr == 0 && s'.measCtr == Mod(s.measCtr + 1, CTR)
      && s'.start == Mod(ticks[2 * i], tm) && s'.stop == Mod(ticks[2 * i + 1], tm)
      && Mod(Mod(OverheadSum(tm, ticks, i), tm) + s'.maxCur, tm) == Mod(OverheadSum(tm, ticks, i + 1), tm)
  {
    hide Mod;
    Incremented(0);
    Decremented(1);
    var from: int, to: int := ticks[2 * i], ticks[2 * i + 1];
    LengthSeen(tm, from, to);
    ModAdd(OverheadSum(tm, ticks, i), Mod(to - from, tm), tm);
  }

  class Measurement {
    const tm: nat
    var MeasCtr: nat
    var NestCtr: nat
    var StartCnts: nat
    var StopCnts: nat
    var MaxCurCnts: nat
    var MaxCnts: nat
    var OvrhdCnts: nat
    ghost var Init: Meas
    ghost var Past: seq<Event>

    ghost function View(): Meas
      reads this
    {
      Meas(MeasCtr, NestCtr, StartCnts, StopCnts, MaxCurCnts, MaxCnts, OvrhdCnts)
    }

    /** Past is what has happened since initialisation. */
    ghost predicate Tracked()
      reads this
    {
      tm > 0 && Initialised(Init) && View() == After(tm, Init, Past)
    }

    /** CPU_IntDisMeasInit() with n overhead measurements, the timer being read at ticks. Unless something wraps, the
        overhead is the mean of the measurements rounded to nearest. */
    constructor (timer: nat, n: nat, ticks: seq<nat>)
      requires timer > 0 && 0 < n < CTR && |ticks| == 2 * n
      ensures tm == timer && Tracked() && Past == [] && Initialised(View()) && MeasCtr == n
      ensures StartCnts == Mod(ticks[2 * n - 2], timer) && StopCnts == Mod(ticks[2 * n - 1], timer)
      ensures var sum := OverheadSum(timer, ticks, n);
        && (NoOverheadWrap(sum, n, timer) ==> NearestMean(sum, n, OvrhdCnts))
        && (n < timer && NearestMean(sum, n, OvrhdCnts) ==> NoOverheadWrap(sum, n, timer))
    {
      tm := timer;
      MeasCtr, NestCtr, StartCnts, StopCnts, MaxCurCnts, MaxCnts, OvrhdCnts := 0, 0, 0, 0, 0, 0, 0;
      new;
      hide NearestMean, OverheadSum, RoundedMean, NoOverheadWrap, Mod;
      ModSmall(n, CTR);
      var timeMeasTotCnts := MeasOverhead(n, ticks);
      OvrhdCnts := RoundedMean(timeMeasTotCnts, n, timer);
      MaxCurCnts := 0;
      MaxCnts := 0;
      Init, Past := View(), [];
      OverheadExact(OverheadSum(timer, ticks, n), n, timer);
    }

    /** The loop of CPU_IntDisMeasInit(). */
    method MeasOverhead(n: nat, ticks: seq<nat>) returns (timeMeasTotCnts: nat)
      requires tm > 0 && |ticks| == 2 * n && NestCtr == 0
      modifies this
      ensures NestCtr == 0 && timeMeasTotCnts == Mod(OverheadSum(tm, ticks, n), tm)
      ensures MeasCtr == if n == 0 then old(MeasCtr) else Mod(old(MeasCtr) + n, CTR)
      ensures n > 0 ==> StartCnts == Mod(ticks[2 * n - 2], tm) && StopCnts == Mod(ticks[2 * n - 1], tm)
    {
      hide Start, Stop, Mod, OverheadSum, After;
      timeMeasTotCnts := 0;
      ReducedZero(tm, ticks);
      for i := 0 to n
        invariant NestCtr == 0
        invariant timeMeasTotCnts == Mod(OverheadSum(tm, ticks, i), tm)
        invariant MeasCtr == if i == 0 then old(MeasCtr) else Mod(old(MeasCtr) + i, CTR)
        invariant i > 0 ==> StartCnts == Mod(ticks[2 * i - 2], tm) && StopCnts == Mod(ticks[2 * i - 1], tm)
      {
        ModAdd(old(MeasCtr) + i, 1, CTR);
        MaxCurCnts := 0;
        OverheadStep(tm, ticks, i, View());
        MeasStart(ticks[2 * i]);
        MeasStop(ticks[2 * i + 1]);
        timeMeasTotCnts := Mod(timeMeasTotCnts + MaxCurCnts, tm);
      }
    }

    method MeasStart(t: nat)
      requires tm > 0
      modifies this
      ensures View() == Start(tm, old(View()), t) && Init == old(Init)
      ensures Past == old(Past) + [Enter(t)] && (old(Tracked()) ==> Tracked())
    {
      hide After;
      OneMore(tm, Init, Past, Enter(t));
      Past := Past + [Enter(t)];
      MeasCtr := Mod(MeasCtr + 1, CTR);
      if NestCtr == 0 {
        StartCnts := Mod(t, tm);
      }
      NestCtr := Mod(NestCtr + 1, CTR);
    }

    method MeasStop(t: nat)
      requires tm > 0
      modifies this
      ensures View() == Stop(tm, old(View()), t) && Init == old(Init)
      ensures Past == old(Past) + [Exit(t)] && (old(Tracked()) ==> Tracked())
    {
      hide After, History, Mod, Seen;
      OneMore(tm, Init, Past, Exit(t));
      Past := Past + [Exit(t)];
      NestCtr := Mod(NestCtr - 1, CTR);
      if NestCtr == 0 {
        StopCnts := Mod(t, tm);
        var timeIntsDisdCnts := Mod(StopCnts - StartCnts, tm);
        if MaxCurCnts < timeIntsDisdCnts {
          MaxCurCnts := timeIntsDisdCnts;
        }
        if MaxCnts < timeIntsDisdCnts {
          MaxCnts := timeIntsDisdCnts;
        }
      }
    }

    /** Second interrupt-disabled section of CPU_IntDisMeasMaxCurReset(). */
    method MaxCurClr()
      requires tm > 0
      modifies this
      ensures View() == Step(tm, old(View()), ResetCur) && Init == old(Init)
      ensures Past == old(Past) + [ResetCur] && (old(Tracked()) ==> Tracked())
    {
      hide After;
      OneMore(tm, Init, Past, ResetCur);
      Past := Past + [ResetCur];
      MaxCurCnts := 0;
    }

    /** What interrupts and other tasks do while interrupts are enabled. */
    method Meanwhile(es: seq<Event>)
      requires tm > 0
      modifies this
      ensures View() == After(tm, old(View()), es) && Init == old(Init)
      ensures Past == old(Past) + es && (old(Tracked()) ==> Tracked())
    {
      hide Start, Stop;
      for i := 0 to |es|
        invariant View() == After(tm, old(View()), es[..i]) && Init == old(Init)
        invariant Past == old(Past) + es[..i] && (old(Tracked()) ==> Tracked())
      {
        OneMore(tm, old(View()), es[..i], es[i]);
        assert es[..i + 1] == es[..i] + [es[i]];
        match es[i]
        case Enter(t) => MeasStart(t);
        case Exit(t) => MeasStop(t);
        case ResetCur => MaxCurClr();
      }
      assert es[..|es|] == es;
    }

    /** CPU_IntDisMeasMaxCurReset(), with what happens between its two interrupt-disabled sections. It returns the
        maximum at the first and clears at the second; ResetExact says what that misses. */
    method MaxCurReset(between: seq<Event>) returns (timeMaxCnts: nat)
      requires tm > 0
      modifies this
      ensures Excess([old(MaxCurCnts)], old(OvrhdCnts), timeMaxCnts)
      ensures View() == Step(tm, After(tm, old(View()), between), ResetCur)
      ensures Past == old(Past) + between + [ResetCur] && (old(Tracked()) ==> Tracked())
      ensures old(Tracked()) && NestedTo(tm, old(Past), CTR) ==>
        Excess(History(tm, old(Past)).cur, old(OvrhdCnts), timeMaxCnts)
    {
      hide After, History, NestedTo, Excess, Step;
      timeMaxCnts := MaxCurGet();
      Meanwhile(between);
      MaxCurClr();
    }

    /** CPU_IntDisMeasMaxCalc() */
    method MaxCalc(timeTotCnts: nat) returns (timeMaxCnts: nat)
      ensures Excess([timeTotCnts], OvrhdCnts, timeMaxCnts)
    {
      timeMaxCnts := timeTotCnts;
      if timeMaxCnts > OvrhdCnts {
        timeMaxCnts := timeMaxCnts - OvrhdCnts;
      } else {
        timeMaxCnts := 0;
      }
    }

    /** The longest outermost section since the last clearing, less the overhead. */
    method MaxCurGet() returns (timeMaxCnts: nat)
      ensures Excess([MaxCurCnts], OvrhdCnts, timeMaxCnts)
      ensures Tracked() && NestedTo(tm, Past, CTR) ==> Excess(History(tm, Past).cur, OvrhdCnts, timeMaxCnts)
    {
      hide After, History, NestedTo, Excess, MaxOf;
      timeMaxCnts := MaxCalc(MaxCurCnts);
      if Tracked() && NestedTo(tm, Past, CTR) {
        RunAgrees(tm, Init, Past);
        ExcessOfMax(History(tm, Past).cur, OvrhdCnts, timeMaxCnts);
      }
    }

    /** The longest outermost section since initialisation, less the overhead. */
    method MaxGet() returns (timeMaxCnts: nat)
      ensures Excess([MaxCnts], OvrhdCnts, timeMaxCnts)
      ensures Tracked() && NestedTo(tm, Past, CTR) ==> Excess(History(tm, Past).all, OvrhdCnts, timeMaxCnts)
    {
      hide After, History, NestedTo, Excess, MaxOf;
      timeMaxCnts := MaxCalc(MaxCnts);
      if Tracked() && NestedTo(tm, Past, CTR) {
        RunAgrees(tm, Init, Past);
        ExcessOfMax(History(tm, Past).all, OvrhdCnts, timeMaxCnts);
      }
    }
  }

  lemma ReducedZero(m: nat, ticks: seq<nat>)
    requires m > 0
    ensures Mod(OverheadSum(m, ticks, 0), m) == 0
  {}

  lemma ModAdd(x: nat, y: nat, m: nat)
    requires m > 0
    ensures Mod(Mod(x, m) + y, m) == Mod(x + y, m)
  {
    AddReduced(x, y, m);
  }

  /** Adding half the divisor before dividing rounds to nearest, unless something wraps; and if the timer shows more
      values than there are measurements, only then. */
  lemma OverheadExact(sum: nat, n: nat, tm: nat)
    requires n > 0 && tm > 0
    ensures NoOverheadWrap(sum, n, tm) ==> NearestMean(sum, n, RoundedMean(Mod(sum, tm), n, tm))
    ensures n < tm && NearestMean(sum, n, RoundedMean(Mod(sum, tm), n, tm)) ==> NoOverheadWrap(sum, n, tm)
  {
    hide Mod, NearestMean;
    var r, a := Mod(sum, tm), AddWidth(tm);
    var w := Mod(r + n / 2, a);
    ModSmall(sum, tm);
    ModSmall(r + n / 2, a);
    ModAtMost(r + n / 2, a);
    ModAtMost(sum, tm);
    QuotientBelow(w, n, tm);
    if NoOverheadWrap(sum, n, tm) {
      RoundsToNearest(sum, n, w / n);
    } else if n < tm {
      MissesMean(sum, n, if sum >= tm then tm else a, w, w / n);
    }
  }

  lemma ModAtMost(x: nat, m: nat)
    requires m > 0
    ensures Mod(x, m) <= x && (x >= m ==> Mod(x, m) <= x - m)
  {
    assert x == m * (x / m) + x % m;
    if x >= m { assert x / m >= 1; }
  }

  lemma QuotientBelow(w: nat, n: nat, tm: nat)
    requires n > 0 && tm > 0 && w <= tm - 1 + n / 2
    ensures n * (w / n) <= w < n * (w / n) + n
    ensures Mod(w / n, tm) == w / n
  {
    hide Mod;
    var q := w / n;
    assert n * q <= w < n * q + n by { assert w == n * q + w % n; }
    if q >= tm { TooMany(q, n, tm); }
    ModSmall(q, tm);
  }

  lemma TooMany(q: nat, n: nat, tm: nat)
    requires n > 0 && 0 < tm <= q
    ensures n * q > tm - 1 + n / 2
  {
    MulMonotone(tm, q, n);
    MulMonotone(1, tm, n - 1);
    assert n * q == q * n && tm * n == tm * (n - 1) + tm;
  }

  lemma RoundsToNearest(sum: nat, n: nat, q: nat)
    requires n * q <= sum + n / 2 < n * q + n
    ensures NearestMean(sum, n, q)
  {}

  lemma MissesMean(sum: nat, n: nat, m: nat, w: nat, q: nat)
    requires n < m && n * q <= w <= sum + n / 2 - m
    ensures !NearestMean(sum, n, q)
  {}
}
