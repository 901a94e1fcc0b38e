/** The alarm timers of the driver monitor's detection loop: after an alarm of some type has been
    raised, the detection of that type is switched off until the type's interval has passed. */
module AlarmTimer {
  import opened Common

  /** Smoking, phoning and a missing driver have a back-off for repeated alarms. The types without a timer
      and the two of fatigue, whose timers depend on each other, are Other, and nothing is assumed of when
      they are raised. */
  datatype Kind = Plain | Smoke | Phone | NoDriver | Overspeed | Other

  predicate Simple(k: Kind) { k.Plain? || k.Smoke? || k.Phone? }

  predicate Timed(k: Kind) { Simple(k) || k.Overspeed? }

  /** Remaining time, whether an alarm is being counted down, the interval as last set, and whether
      the detection of the type is switched on. */
  datatype Timer = Timer(time: int, alarm: bool, confLast: int, on: bool)

  /** A type's detection interval, negative for never, and whether it has just been changed. */
  datatype Config = Config(interval: int, changed: bool)

  // ---------------------------------------------------------------- one timer in one turn of the loop

  predicate Rearms(t: Timer, c: Config) { c.changed && t.confLast >= 0 }

  function Changed(t: Timer, c: Config): (r: Timer) {
    if !c.changed then t
    else if t.confLast >= 0 then Timer(c.interval, true, c.interval, t.on)
    else t.(confLast := c.interval)
  }

  function Counted(t: Timer, c: Config, step: int): (r: Timer) {
    if c.interval < 0 then t.(on := false)
    else if !t.alarm then t.(on := true)
    else if t.time - step <= 0 then t.(time := c.interval, alarm := false, on := true)
    else t.(time := t.time - step, on := false)
  }

  predicate Speeding(t: Timer, c: Config, k: Kind, speeding: bool) {
    k.Overspeed? && c.interval >= 0 && Changed(t, c).time <= 0 && speeding
  }

  function CountedOverspeed(t: Timer, c: Config, step: int): (r: Timer) {
    if c.interval < 0 then t
    else
      var time := if t.time <= 0 then 0 else t.time;
      if t.alarm then t.(time := time - step, alarm := time - step > 0) else t.(time := time)
  }

  function Passed(t: Timer, c: Config, k: Kind, step: int): (r: Timer) {
    match k
    case Other => Changed(t, c)
    case Overspeed => CountedOverspeed(Changed(t, c), c, step)
    case _ => Counted(Changed(t, c), c, step)
  }

  // ---------------------------------------------------------------- one turn of the loop

  /** What comes of the analysis: it fails or is broken off, it reports no alarm, with or without a face in
      the picture, or it reports one of some type. */
  datatype Report = Failed | Quiet(face: bool) | Reports(kind: nat)

  /** The customers for whom the loop differs. */
  datatype Customer = Shiqi | Vue | Creare | OtherCustomer

  /** A GPS result; without a fix the status is zero. */
  datatype Gps = Gps(status: int, speed: int)

  /** The overspeed limit, the working speeds below which alarms are held back, and whether there are alarms
      without a fix. */
  datatype Speeds = Speeds(limit: int, working: seq<int>, alarmWithoutGps: bool)

  /** What the loop meets in a turn: GPS results may be missing; otherwise they, the clock, the settings
      and the report. */
  datatype Input =
    | GpsFailed
    | Turn(now: int, conf: seq<Config>, gps: Gps, speeds: Speeds, report: Report, overspeedInterval: int,
           noDriverInterval: int)

  predicate TooFast(g: Gps, s: Speeds) { g.status != 0 && g.speed > s.limit }

  /** One customer has a working speed for every type of alarm; for the others there is only one. */
  function WorkSpeed(s: Speeds, customer: Customer, t: nat): (speed: int)
    requires t < |s.working|
  {
    s.working[if customer.Creare? then t else 0]
  }

  predicate Blocked(g: Gps, s: Speeds, customer: Customer, t: nat)
    requires t < |s.working|
  {
    var w := WorkSpeed(s, customer, t);
    w > 0 && if g.status == 0 then !s.alarmWithoutGps else g.speed < w && !customer.Vue?
  }

  /** The settings are there for every type. */
  predicate Fits(e: Input, kinds: seq<Kind>) {
    e.Turn? && |e.conf| == |e.speeds.working| == |kinds|
  }

  /** One arming of a timer: by an alarm, or by a change of its interval. */
  datatype Arming = Arming(at: int, span: int, raised: bool)

  datatype World = World(last: int, timers: seq<Timer>, typeLast: Option<nat>, repeat: nat, logs: seq<seq<Arming>>)

  ghost predicate Shaped(w: World, kinds: seq<Kind>) {
    |w.timers| == |kinds| == |w.logs|
  }

  /** Where the walk over the timers stops: at the first type whose overspeed alarm is due, or at the end. */
  function Stop(timers: seq<Timer>, conf: seq<Config>, kinds: seq<Kind>, speeding: bool, i: nat): (n: nat)
    requires i <= |timers| == |conf| == |kinds|
    ensures i <= n <= |timers|
    decreases |timers| - i
  {
    if i == |timers| || Speeding(timers[i], conf[i], kinds[i], speeding) then i
    else Stop(timers, conf, kinds, speeding, i + 1)
  }

  /** The timers when the walk stops before the n-th; of that one only the interval has been looked at. */
  ghost function Walked(timers: seq<Timer>, conf: seq<Config>, kinds: seq<Kind>, step: int, n: nat): (r: seq<Timer>)
    requires |timers| == |conf| == |kinds|
    ensures |r| == |timers|
  {
    seq(|timers|, j requires 0 <= j < |timers| =>
      if j < n then Passed(timers[j], conf[j], kinds[j], step)
      else if j == n then Changed(timers[j], conf[j]) else timers[j])
  }

  ghost function Logged(timers: seq<Timer>, conf: seq<Config>, logs: seq<seq<Arming>>, last: int,
                        n: nat): (r: seq<seq<Arming>>)
    requires |timers| == |conf| == |logs|
    ensures |r| == |logs|
  {
    seq(|logs|, j requires 0 <= j < |logs| =>
      if j <= n && Rearms(timers[j], conf[j]) then logs[j] + [Arming(last, conf[j].interval, false)] else logs[j])
  }

  ghost function WalkedTo(w: World, now: int, conf: seq<Config>, kinds: seq<Kind>, n: nat): (v: World)
    requires Shaped(w, kinds) && |conf| == |kinds|
    ensures Shaped(v, kinds)
  {
    w.(last := now, timers := Walked(w.timers, conf, kinds, now - w.last, n),
       logs := Logged(w.timers, conf, w.logs, w.last, n))
  }

  /** What the timer of a repeated alarm is set to: for one customer every third alarm in a row silences
      these types for three minutes and every ninth for ten, or for thirty where the driver is missing. */
  function Span(k: Kind, interval: int, repeat: nat, customer: Customer): (span: int) {
    if !customer.Shiqi? || !(k.Smoke? || k.Phone? || k.NoDriver?) || repeat <= 1 then interval
    else if repeat % 9 == 0 then (if k.NoDriver? then 30 else 10) * 60 * 1000
    else if repeat % 3 == 0 then 3 * 60 * 1000
    else interval
  }

  /** A face in a quiet picture ends a series of alarms about a missing driver. */
  ghost function Quieted(w: World, face: bool, kinds: seq<Kind>, noDriverInterval: int): (v: World)
    requires Shaped(w, kinds)
    ensures Shaped(v, kinds)
  {
    if face && w.repeat > 1 && w.typeLast.Some? && w.typeLast.value < |kinds| && kinds[w.typeLast.value].NoDriver? then
      var j := w.typeLast.value;
      w.(timers := w.timers[j := w.timers[j].(time := noDriverInterval)], typeLast := None, repeat := 0)
    else w
  }

  /** The alarm is raised unless the working speed holds it back. */
  ghost function Submitted(w: World, t: nat, conf: seq<Config>, kinds: seq<Kind>, blocked: bool, overspeedInterval: int,
                           customer: Customer): (r: World)
    requires Shaped(w, kinds) && |conf| == |kinds| && t < |kinds|
  {
    var v := if kinds[t].Overspeed? then w.(timers := w.timers[t := w.timers[t].(time := overspeedInterval)]) else w;
    if blocked then v.(typeLast := Some(t))
    else
      var repeat := if w.typeLast == Some(t) then w.repeat + 1 else 1;
      var span := Span(kinds[t], conf[t].interval, repeat, customer);
      v.(timers := v.timers[t := v.timers[t].(time := span, alarm := true)], typeLast := Some(t), repeat := repeat,
         logs := v.logs[t := v.logs[t] + [Arming(w.last, span, true)]])
  }

  /** The type whose due overspeed alarm cuts the walk over the timers short, or the number of types. */
  ghost function CutAt(w: World, e: Input, kinds: seq<Kind>): (n: nat)
    requires Shaped(w, kinds) && Fits(e, kinds)
    ensures n <= |kinds|
  {
    Stop(w.timers, e.conf, kinds, TooFast(e.gps, e.speeds), 0)
  }

  /** What follows when the walk has stopped before the n-th timer or behind the last. */
  ghost function Concluded(w: World, e: Input, n: nat, kinds: seq<Kind>, customer: Customer): (v: World)
    requires Shaped(w, kinds) && Fits(e, kinds) && n <= |kinds|
    ensures Shaped(v, kinds)
  {
    if n < |kinds| then
      Submitted(w, n, e.conf, kinds, Blocked(e.gps, e.speeds, customer, n), e.overspeedInterval, customer)
    else
      match e.report
      case Failed => w
      case Quiet(face) => Quieted(w, face, kinds, e.noDriverInterval)
      case Reports(t) =>
        if t < |kinds| then
          Submitted(w, t, e.conf, kinds, Blocked(e.gps, e.speeds, customer, t), e.overspeedInterval, customer)
        else w
  }

  ghost function Step(w: World, e: Input, kinds: seq<Kind>, customer: Customer): (v: World)
    requires Shaped(w, kinds)
    ensures Shaped(v, kinds)
  {
    match e
    case GpsFailed => w
    case Turn(now, conf, _, _, _, _, _) =>
      if !Fits(e, kinds) then w
      else Concluded(WalkedTo(w, now, conf, kinds, CutAt(w, e, kinds)), e, CutAt(w, e, kinds), kinds, customer)
  }

  ghost predicate Detected(w: World, e: Input, kinds: seq<Kind>, i: nat)
    requires Shaped(w, kinds) && Fits(e, kinds) && i < |kinds|
  {
    Simple(kinds[i]) ==> Passed(w.timers[i], e.conf[i], kinds[i], e.now - w.last).on
  }

  /** The clock does not run back, and the analyser reports no overspeed and of the simple types only those
      whose detection is switched on. */
  ghost predicate Expected(w: World, e: Input, kinds: seq<Kind>)
    requires Shaped(w, kinds)
  {
    e.Turn? ==>
      && w.last <= e.now && Fits(e, kinds)
      && (e.report.Reports? ==>
            e.report.kind < |kinds| && !kinds[e.report.kind].Overspeed? && Detected(w, e, kinds, e.report.kind))
  }

  // ---------------------------------------------------------------- the cool-down of one type

  ghost predicate Elapsed(log: seq<Arming>, now: int) {
    log == [] || now - log[|log| - 1].at >= log[|log| - 1].span
  }

  /** What remains and what has passed make up the span of the last arming. */
  ghost predicate Cooling(t: Timer, log: seq<Arming>, last: int) {
    log == [] ||
    var a := log[|log| - 1];
    a.at <= last && if t.alarm && t.time > 0 then t.time + (last - a.at) >= a.span else Elapsed(log, last)
  }

  ghost predicate Spaced(log: seq<Arming>) {
    forall k :: 0 < k < |log| && log[k].raised ==> log[k].at - log[k - 1].at >= log[k - 1].span
  }

  ghost predicate TypeInv(w: World, i: nat)
    requires i < |w.timers| && i < |w.logs|
  {
    Spaced(w.logs[i]) && Cooling(w.timers[i], w.logs[i], w.last)
  }

  /** The last entry of a log: the timer's arming, if there was one. */
  lemma PassedCools(t: Timer, c: Config, k: Kind, log: seq<Arming>, last: int, now: int)
    requires Timed(k) && last <= now && Cooling(t, log, last)
    ensures var log' := if Rearms(t, c) then log + [Arming(last, c.interval, false)] else log;
      Cooling(Passed(t, c, k, now - last), log', now) && Cooling(Changed(t, c), log', now)
    ensures var log' := if Rearms(t, c) then log + [Arming(last, c.interval, false)] else log;
      (Simple(k) && Passed(t, c, k, now - last).on) || Changed(t, c).time <= 0 ==> Elapsed(log', now)
  {
  }

  lemma SpacedAppend(log: seq<Arming>, a: Arming)
    requires Spaced(log)
    requires a.raised ==> Elapsed(log, a.at)
    ensures Spaced(log + [a])
  {
  }

  lemma {:induction false} StopsAtSpeeding(timers: seq<Timer>, conf: seq<Config>, kinds: seq<Kind>, speeding: bool,
                                           i: nat)
    requires i <= |timers| == |conf| == |kinds|
    ensures var n := Stop(timers, conf, kinds, speeding, i);
      n < |kinds| ==> Speeding(timers[n], conf[n], kinds[n], speeding)
    decreases |timers| - i
  {
    if i < |timers| && !Speeding(timers[i], conf[i], kinds[i], speeding) {
      StopsAtSpeeding(timers, conf, kinds, speeding, i + 1);
    }
  }

  /** Types before i that are no overspeed do not stop the walk. */
  lemma {:induction false} StopSkips(timers: seq<Timer>, conf: seq<Config>, kinds: seq<Kind>, speeding: bool, j: nat,
                                     i: nat)
    requires j <= i <= |timers| == |conf| == |kinds|
    requires forall l :: j <= l < i ==> !kinds[l].Overspeed?
    ensures Stop(timers, conf, kinds, speeding, j) == Stop(timers, conf, kinds, speeding, i)
    decreases i - j
  {
    if j < i { StopSkips(timers, conf, kinds, speeding, j + 1, i); }
  }

  lemma WalkKeepsInv(w: World, now: int, conf: seq<Config>, kinds: seq<Kind>, n: nat, i: nat)
    requires Shaped(w, kinds) && |conf| == |kinds| && w.last <= now
    requires i < |kinds| && Timed(kinds[i]) && TypeInv(w, i)
    requires n == i ==> kinds[i].Overspeed?
    ensures TypeInv(WalkedTo(w, now, conf, kinds, n), i)
    ensures var v := WalkedTo(w, now, conf, kinds, n);
      (i < n && Simple(kinds[i]) && v.timers[i].on) || (i == n && v.timers[i].time <= 0) ==> Elapsed(v.logs[i], now)
  {
    PassedCools(w.timers[i], conf[i], kinds[i], w.logs[i], w.last, now);
    SpacedAppend(w.logs[i], Arming(w.last, conf[i].interval, false));
  }

  lemma SubmitKeepsInv(w: World, t: nat, conf: seq<Config>, kinds: seq<Kind>, blocked: bool, overspeedInterval: int,
                       customer: Customer, i: nat)
    requires Shaped(w, kinds) && |conf| == |kinds| && t < |kinds|
    requires i < |kinds| && Timed(kinds[i]) && TypeInv(w, i)
    requires t == i ==> Elapsed(w.logs[i], w.last)
    ensures TypeInv(Submitted(w, t, conf, kinds, blocked, overspeedInterval, customer), i)
  {
    if t == i && !blocked {
      var v := Submitted(w, t, conf, kinds, blocked, overspeedInterval, customer);
      SpacedAppend(w.logs[i], Arming(w.last, v.timers[i].time, true));
    }
  }

  lemma ConcludedKeepsInv(w: World, e: Input, n: nat, kinds: seq<Kind>, customer: Customer, i: nat)
    requires Shaped(w, kinds) && Fits(e, kinds) && n <= |kinds| && i < |kinds| && Timed(kinds[i]) && TypeInv(w, i)
    requires n == i || (n == |kinds| && e.report == Reports(i)) ==> Elapsed(w.logs[i], w.last)
    ensures TypeInv(Concluded(w, e, n, kinds, customer), i)
  {
    if n < |kinds| {
      SubmitKeepsInv(w, n, e.conf, kinds, Blocked(e.gps, e.speeds, customer, n), e.overspeedInterval, customer, i);
    } else if e.report.Reports? && e.report.kind < |kinds| {
      var t := e.report.kind;
      SubmitKeepsInv(w, t, e.conf, kinds, Blocked(e.gps, e.speeds, customer, t), e.overspeedInterval, customer, i);
    }
  }

  lemma StepKeepsInv(w: World, e: Input, kinds: seq<Kind>, customer: Customer, i: nat)
    requires Shaped(w, kinds) && i < |kinds| && Timed(kinds[i]) && Expected(w, e, kinds) && TypeInv(w, i)
    ensures TypeInv(Step(w, e, kinds, customer), i)
  {
    if e.Turn? {
      var n := CutAt(w, e, kinds);
      StopsAtSpeeding(w.timers, e.conf, kinds, TooFast(e.gps, e.speeds), 0);
      WalkKeepsInv(w, e.now, e.conf, kinds, n, i);
      ConcludedKeepsInv(WalkedTo(w, e.now, e.conf, kinds, n), e, n, kinds, customer, i);
    }
  }

  // ---------------------------------------------------------------- whole runs

  ghost function Fresh(k: Kind, interval: int, on: bool): (r: Timer) {
    Timer(if k.Overspeed? then 0 else interval, false, interval, on)
  }

  ghost function Start(clock: int, intervals: seq<int>, on: seq<bool>, kinds: seq<Kind>): (r: World)
    requires |intervals| == |on| == |kinds|
  {
    World(clock, seq(|on|, i requires 0 <= i < |on| => Fresh(kinds[i], intervals[i], on[i])), None, 0,
          seq(|on|, _ => []))
  }

  ghost function After(events: seq<Input>, start: World, kinds: seq<Kind>, customer: Customer): (w: World)
    requires Shaped(start, kinds)
    ensures Shaped(w, kinds)
  {
    if events == [] then start
    else Step(After(events[..|events| - 1], start, kinds, customer), events[|events| - 1], kinds, customer)
  }

  ghost predicate AllExpected(events: seq<Input>, start: World, kinds: seq<Kind>, customer: Customer)
    requires Shaped(start, kinds)
  {
    events == [] ||
    (var before := events[..|events| - 1];
     AllExpected(before, start, kinds, customer)
     && Expected(After(before, start, kinds, customer), events[|events| - 1], kinds))
  }

  lemma {:induction false} RunKeepsInv(events: seq<Input>, start: World, kinds: seq<Kind>, customer: Customer, i: nat)
    requires Shaped(start, kinds) && AllExpected(events, start, kinds, customer)
    requires i < |kinds| && Timed(kinds[i]) && start.logs[i] == []
    ensures TypeInv(After(events, start, kinds, customer), i)
  {
    if events != [] {
      var before := events[..|events| - 1];
      RunKeepsInv(before, start, kinds, customer, i);
      StepKeepsInv(After(before, start, kinds, customer), events[|events| - 1], kinds, customer, i);
    }
  }

  /** Over every run, an alarm of a simple type or of overspeed is raised no sooner after the last arming of its timer
      than the time the timer was armed with: GPS failures and turns cut short by an overspeed alarm
      lose no clock time that would bring the next alarm forward. */
  lemma Cooldown(events: seq<Input>, clock: int, intervals: seq<int>, on: seq<bool>, kinds: seq<Kind>,
                 customer: Customer, i: nat, k: nat)
    requires |intervals| == |on| == |kinds|
    requires AllExpected(events, Start(clock, intervals, on, kinds), kinds, customer) && i < |kinds| && Timed(kinds[i])
    ensures var log := After(events, Start(clock, intervals, on, kinds), kinds, customer).logs[i];
      0 < k < |log| && log[k].raised ==> log[k].at - log[k - 1].at >= log[k - 1].span
  {
    RunKeepsInv(events, Start(clock, intervals, on, kinds), kinds, customer, i);
  }

  // ---------------------------------------------------------------- runs without a change of the interval

  /** The i-th type keeps the interval c in every turn. */
  ghost predicate Steady(events: seq<Input>, i: nat, c: int) {
    forall e :: e in events && e.Turn? ==> i < |e.conf| && e.conf[i] == Config(c, false)
  }

  ghost predicate OnlyRaised(log: seq<Arming>, c: int) {
    forall k :: 0 <= k < |log| ==> log[k].raised && log[k].span == c
  }

  lemma {:induction false} SteadyLog(events: seq<Input>, start: World, kinds: seq<Kind>, customer: Customer,
                                     i: nat, c: int)
    requires Shaped(start, kinds) && i < |kinds| && start.logs[i] == [] && Steady(events, i, c) && !customer.Shiqi?
    ensures OnlyRaised(After(events, start, kinds, customer).logs[i], c)
  {
    if events != [] {
      var before, e := events[..|events| - 1], events[|events| - 1];
      SteadyLog(before, start, kinds, customer, i, c);
      assert e in events;
      var w := After(before, start, kinds, customer);
      if Fits(e, kinds) { assert WalkedTo(w, e.now, e.conf, kinds, CutAt(w, e, kinds)).logs[i] == w.logs[i]; }
    }
  }

  lemma {:induction false} SpacedRate(log: seq<Arming>, c: nat, j: nat, k: nat)
    requires Spaced(log) && OnlyRaised(log, c) && j <= k < |log|
    ensures log[k].at - log[j].at >= (k - j) * c
  {
    if j < k {
      SpacedRate(log, c, j, k - 1);
      assert (k - j) * c == (k - 1 - j) * c + c;
    }
  }

  /** With an unchanged interval and without back-off, n further alarms of a simple type or of overspeed take
      at least n intervals of clock time. */
  lemma AlarmRate(events: seq<Input>, clock: int, intervals: seq<int>, on: seq<bool>, kinds: seq<Kind>,
                  customer: Customer, i: nat, c: nat, j: nat, k: nat)
    requires |intervals| == |on| == |kinds|
    requires AllExpected(events, Start(clock, intervals, on, kinds), kinds, customer)
    requires i < |kinds| && Timed(kinds[i]) && Steady(events, i, c) && !customer.Shiqi?
    ensures var log := After(events, Start(clock, intervals, on, kinds), kinds, customer).logs[i];
      j <= k < |log| ==> log[j].raised && log[k].raised && log[k].at - log[j].at >= (k - j) * c
  {
    var start := Start(clock, intervals, on, kinds);
    RunKeepsInv(events, start, kinds, customer, i);
    SteadyLog(events, start, kinds, customer, i, c);
    var log := After(events, start, kinds, customer).logs[i];
    if j <= k < |log| { SpacedRate(log, c, j, k); }
  }

  // ---------------------------------------------------------------- the switch comes back in time

  /** No overspeed alarm cuts a turn short before the i-th type. */
  ghost predicate Reached(w: World, e: Input, kinds: seq<Kind>, i: nat)
    requires Shaped(w, kinds)
  {
    Fits(e, kinds) ==> i < CutAt(w, e, kinds)
  }

  ghost predicate AllReached(events: seq<Input>, start: World, kinds: seq<Kind>, customer: Customer, i: nat)
    requires Shaped(start, kinds)
  {
    events == [] ||
    (var before := events[..|events| - 1];
     AllReached(before, start, kinds, customer, i)
     && Reached(After(before, start, kinds, customer), events[|events| - 1], kinds, i))
  }

  predicate Switched(k: Kind) { Simple(k) || k.NoDriver? }

  /** The i-th type is not switched off by its interval, which may change; nor does a face in the picture set the
      timer of a missing driver anew. */
  ghost predicate NeverOff(e: Input, kinds: seq<Kind>, i: nat) {
    e.Turn? ==> i < |e.conf| && e.conf[i].interval >= 0
                && (i < |kinds| && kinds[i].NoDriver? ==> e.report != Quiet(true))
  }

  ghost predicate Exact(t: Timer, log: seq<Arming>, last: int) {
    t.confLast >= 0 &&
    if t.alarm then log != [] && t.time + (last - log[|log| - 1].at) == log[|log| - 1].span else Elapsed(log, last)
  }

  lemma PassedExact(t: Timer, c: Config, k: Kind, log: seq<Arming>, last: int, now: int)
    requires Switched(k) && last <= now && c.interval >= 0 && Exact(t, log, last)
    ensures var log' := if c.changed then log + [Arming(last, c.interval, false)] else log;
      Exact(Passed(t, c, k, now - last), log', now) && (Passed(t, c, k, now - last).on <==> Elapsed(log', now))
  {
  }

  lemma SubmitExact(w: World, t: nat, conf: seq<Config>, kinds: seq<Kind>, blocked: bool, overspeedInterval: int,
                    customer: Customer, i: nat)
    requires Shaped(w, kinds) && |conf| == |kinds| && t < |kinds| && i < |kinds| && Switched(kinds[i])
    requires Exact(w.timers[i], w.logs[i], w.last)
    ensures var v := Submitted(w, t, conf, kinds, blocked, overspeedInterval, customer);
      v.last == w.last && Exact(v.timers[i], v.logs[i], w.last) && v.timers[i].on == w.timers[i].on
  {
  }

  lemma ConcludedExact(w: World, e: Input, n: nat, kinds: seq<Kind>, customer: Customer, i: nat)
    requires Shaped(w, kinds) && Fits(e, kinds) && n <= |kinds| && i < |kinds| && Switched(kinds[i])
    requires NeverOff(e, kinds, i)
    requires Exact(w.timers[i], w.logs[i], w.last)
    ensures var v := Concluded(w, e, n, kinds, customer);
      Exact(v.timers[i], v.logs[i], v.last) && v.timers[i].on == w.timers[i].on
  {
    if n < |kinds| {
      SubmitExact(w, n, e.conf, kinds, Blocked(e.gps, e.speeds, customer, n), e.overspeedInterval, customer, i);
    } else if e.report.Reports? && e.report.kind < |kinds| {
      var t := e.report.kind;
      SubmitExact(w, t, e.conf, kinds, Blocked(e.gps, e.speeds, customer, t), e.overspeedInterval, customer, i);
    }
  }

  lemma StepExact(w: World, e: Input, kinds: seq<Kind>, customer: Customer, i: nat)
    requires Shaped(w, kinds) && i < |kinds| && Switched(kinds[i]) && Expected(w, e, kinds) && Reached(w, e, kinds, i)
    requires NeverOff(e, kinds, i) && Exact(w.timers[i], w.logs[i], w.last)
    ensures var v := Step(w, e, kinds, customer); Exact(v.timers[i], v.logs[i], v.last)
    ensures e.Turn? ==>
      var log := if e.conf[i].changed then w.logs[i] + [Arming(w.last, e.conf[i].interval, false)] else w.logs[i];
      Step(w, e, kinds, customer).timers[i].on <==> log == [] || e.now - log[|log| - 1].at >= log[|log| - 1].span
  {
    if e.Turn? {
      var n := CutAt(w, e, kinds);
      PassedExact(w.timers[i], e.conf[i], kinds[i], w.logs[i], w.last, e.now);
      var v := WalkedTo(w, e.now, e.conf, kinds, n);
      assert v.timers[i] == Passed(w.timers[i], e.conf[i], kinds[i], e.now - w.last);
      ConcludedExact(v, e, n, kinds, customer, i);
    }
  }

  lemma {:induction false} RunExact(events: seq<Input>, start: World, kinds: seq<Kind>, customer: Customer, i: nat)
    requires Shaped(start, kinds) && AllExpected(events, start, kinds, customer)
    requires AllReached(events, start, kinds, customer, i)
    requires i < |kinds| && Switched(kinds[i]) && forall e :: e in events ==> NeverOff(e, kinds, i)
    requires Exact(start.timers[i], start.logs[i], start.last)
    ensures var w := After(events, start, kinds, customer); Exact(w.timers[i], w.logs[i], w.last)
  {
    if events != [] {
      var before, e := events[..|events| - 1], events[|events| - 1];
      assert forall f :: f in before ==> f in events;
      RunExact(before, start, kinds, customer, i);
      assert e in events;
      StepExact(After(before, start, kinds, customer), e, kinds, customer, i);
    }
  }

  lemma ConcludedOn(w: World, e: Input, n: nat, kinds: seq<Kind>, customer: Customer, i: nat)
    requires Shaped(w, kinds) && Fits(e, kinds) && n <= |kinds| && i < |kinds|
    ensures Concluded(w, e, n, kinds, customer).timers[i].on == w.timers[i].on
  {
  }

  /** A turn that reaches a type whose interval is negative leaves its detection switched off. */
  lemma NegativeIsOff(events: seq<Input>, start: World, kinds: seq<Kind>, customer: Customer, i: nat, e: Input)
    requires Shaped(start, kinds) && Fits(e, kinds) && i < |kinds| && Switched(kinds[i]) && e.conf[i].interval < 0
    requires i < CutAt(After(events, start, kinds, customer), e, kinds)
    ensures !After(events + [e], start, kinds, customer).timers[i].on
  {
    var w := After(events, start, kinds, customer);
    assert (events + [e])[..|events|] == events;
    var v := WalkedTo(w, e.now, e.conf, kinds, CutAt(w, e, kinds));
    assert v.timers[i] == Passed(w.timers[i], e.conf[i], kinds[i], e.now - w.last);
    ConcludedOn(v, e, CutAt(w, e, kinds), kinds, customer, i);
  }

  /** However the interval is changed, as long as it does not switch the type off and no overspeed alarm comes
      first, a turn switches the detection on exactly when the span of the last arming has passed, be that by
      an alarm or by a change of the interval: the clock steps of all turns, also across the skipped ones,
      add up to the time that has really passed. */
  lemma SwitchExact(events: seq<Input>, clock: int, intervals: seq<int>, on: seq<bool>, kinds: seq<Kind>,
                    customer: Customer, i: nat, e: Input)
    requires |intervals| == |on| == |kinds| && i < |kinds| && Switched(kinds[i]) && intervals[i] >= 0 && e.Turn?
    requires AllExpected(events + [e], Start(clock, intervals, on, kinds), kinds, customer)
    requires AllReached(events + [e], Start(clock, intervals, on, kinds), kinds, customer, i)
    requires forall d :: d in events + [e] ==> NeverOff(d, kinds, i)
    ensures var w := After(events, Start(clock, intervals, on, kinds), kinds, customer);
      var log := if e.conf[i].changed then w.logs[i] + [Arming(w.last, e.conf[i].interval, false)] else w.logs[i];
      After(events + [e], Start(clock, intervals, on, kinds), kinds, customer).timers[i].on
      <==> log == [] || e.now - log[|log| - 1].at >= log[|log| - 1].span
  {
    var start := Start(clock, intervals, on, kinds);
    assert (events + [e])[..|events|] == events && e in events + [e];
    assert forall d :: d in events ==> d in events + [e];
    RunExact(events, start, kinds, customer, i);
    StepExact(After(events, start, kinds, customer), e, kinds, customer, i);
  }

  // ---------------------------------------------------------------- every alarm reported is raised

  /** No overspeed alarm is due: its detection is off, its time is not over, or the vehicle is not too fast. */
  ghost predicate Uncut(w: World, e: Input, kinds: seq<Kind>)
    requires Shaped(w, kinds) && Fits(e, kinds)
  {
    forall j :: 0 <= j < |kinds| && kinds[j].Overspeed? ==>
      || e.conf[j].interval < 0 || e.gps.status == 0 || e.gps.speed <= e.speeds.limit
      || 0 < if e.conf[j].changed && w.timers[j].confLast >= 0 then e.conf[j].interval else w.timers[j].time
  }

  lemma {:induction false} NoStop(timers: seq<Timer>, conf: seq<Config>, kinds: seq<Kind>, speeding: bool, i: nat)
    requires i <= |timers| == |conf| == |kinds|
    requires forall j :: i <= j < |kinds| ==> !Speeding(timers[j], conf[j], kinds[j], speeding)
    ensures Stop(timers, conf, kinds, speeding, i) == |kinds|
    decreases |timers| - i
  {
    if i < |timers| { NoStop(timers, conf, kinds, speeding, i + 1); }
  }

  lemma UncutRuns(w: World, e: Input, kinds: seq<Kind>)
    requires Shaped(w, kinds) && Fits(e, kinds) && Uncut(w, e, kinds)
    ensures CutAt(w, e, kinds) == |kinds|
  {
    NoStop(w.timers, e.conf, kinds, TooFast(e.gps, e.speeds), 0);
  }

  /** In numbers, what the timer of an alarm is set to that is the `count`-th of its type in a row. */
  lemma SpanIs(k: Kind, interval: int, count: nat, customer: Customer)
    ensures Span(k, interval, count, customer) ==
      if customer == Shiqi && k in {Smoke, Phone, NoDriver} && count > 1 && count % 3 == 0
      then (if count % 9 != 0 then 180_000 else if k == NoDriver then 1_800_000 else 600_000) else interval
  {
  }

  /** There is no working speed, or there is no fix and alarms without one are wanted, or the vehicle is not
      slower than the working speed, or the customer wants alarms below it, too. */
  predicate Wanted(g: Gps, s: Speeds, customer: Customer, t: nat)
    requires t < |s.working|
  {
    var speed := s.working[if customer == Creare then t else 0];
    speed <= 0 || if g.status == 0 then s.alarmWithoutGps else g.speed >= speed || customer == Vue
  }

  lemma UnwantedIsBlocked(g: Gps, s: Speeds, customer: Customer, t: nat)
    requires t < |s.working|
    ensures Blocked(g, s, customer, t) <==> !Wanted(g, s, customer, t)
  {
  }

  lemma ReportedIs(w: World, e: Input, kinds: seq<Kind>, customer: Customer, t: nat)
    requires Shaped(w, kinds) && Fits(e, kinds) && Uncut(w, e, kinds) && t < |kinds| && e.report == Reports(t)
    ensures var quiet := Step(w, e.(report := Failed), kinds, customer);
      && quiet.last == e.now && quiet.typeLast == w.typeLast && quiet.repeat == w.repeat
      && quiet.logs[t] == w.logs[t] + (if e.conf[t].changed && w.timers[t].confLast >= 0
                                       then [Arming(w.last, e.conf[t].interval, false)] else [])
      && Step(w, e, kinds, customer)
         == Submitted(quiet, t, e.conf, kinds, !Wanted(e.gps, e.speeds, customer, t), e.overspeedInterval, customer)
  {
    var f := e.(report := Failed);
    UncutRuns(w, e, kinds);
    UnwantedIsBlocked(e.gps, e.speeds, customer, t);
    assert CutAt(w, f, kinds) == CutAt(w, e, kinds);
  }

  lemma SubmittedIs(w: World, t: nat, conf: seq<Config>, kinds: seq<Kind>, wanted: bool, overspeedInterval: int,
                    customer: Customer)
    requires Shaped(w, kinds) && |conf| == |kinds| && t < |kinds| && !kinds[t].Overspeed?
    ensures var count := if w.typeLast == Some(t) then w.repeat + 1 else 1;
      var span := if customer == Shiqi && kinds[t] in {Smoke, Phone, NoDriver} && count > 1 && count % 3 == 0
                  then (if count % 9 != 0 then 180_000 else if kinds[t] == NoDriver then 1_800_000 else 600_000)
                  else conf[t].interval;
      Submitted(w, t, conf, kinds, !wanted, overspeedInterval, customer) ==
      if wanted then w.(timers := w.timers[t := w.timers[t].(time := span, alarm := true)], typeLast := Some(t),
                        repeat := count, logs := w.logs[t := w.logs[t] + [Arming(w.last, span, true)]])
      else w.(typeLast := Some(t))
  {
    SpanIs(kinds[t], conf[t].interval, if w.typeLast == Some(t) then w.repeat + 1 else 1, customer);
  }

  /** Whatever has happened before, an alarm that is reported in a turn that no overspeed cuts short is raised, and
      its timer set, exactly when it is wanted. Everything else is as if nothing had been reported. */
  lemma ReportExactly(events: seq<Input>, start: World, kinds: seq<Kind>, customer: Customer, e: Input, t: nat)
    requires Shaped(start, kinds) && Fits(e, kinds) && Uncut(After(events, start, kinds, customer), e, kinds)
    requires t < |kinds| && e.report == Reports(t) && !kinds[t].Overspeed?
    ensures var w := After(events, start, kinds, customer);
      var v, quiet := After(events + [e], start, kinds, customer),
                      After(events + [e.(report := Failed)], start, kinds, customer);
      var count := if w.typeLast == Some(t) then w.repeat + 1 else 1;
      var span := if customer == Shiqi && kinds[t] in {Smoke, Phone, NoDriver} && count > 1 && count % 3 == 0
                  then (if count % 9 != 0 then 180_000 else if kinds[t] == NoDriver then 1_800_000 else 600_000)
                  else e.conf[t].interval;
      if Wanted(e.gps, e.speeds, customer, t)
      then v == quiet.(timers := quiet.timers[t := quiet.timers[t].(time := span, alarm := true)],
                       typeLast := Some(t), repeat := count,
                       logs := quiet.logs[t := quiet.logs[t] + [Arming(e.now, span, true)]])
      else v == quiet.(typeLast := Some(t))
    ensures var w := After(events, start, kinds, customer);
      After(events + [e.(report := Failed)], start, kinds, customer).logs[t] ==
        w.logs[t] + if e.conf[t].changed && w.timers[t].confLast >= 0
                    then [Arming(w.last, e.conf[t].interval, false)] else []
  {
    var w, f := After(events, start, kinds, customer), e.(report := Failed);
    assert (events + [e])[..|events|] == events && (events + [f])[..|events|] == events;
    ReportedIs(w, e, kinds, customer, t);
    SubmittedIs(Step(w, f, kinds, customer), t, e.conf, kinds, Wanted(e.gps, e.speeds, customer, t),
                e.overspeedInterval, customer);
  }

  lemma QuietIs(w: World, e: Input, kinds: seq<Kind>, customer: Customer)
    requires Shaped(w, kinds) && Fits(e, kinds) && Uncut(w, e, kinds) && e.report.Quiet?
    ensures var nothing := Step(w, e.(report := Failed), kinds, customer);
      nothing.typeLast == w.typeLast && nothing.repeat == w.repeat
      && Step(w, e, kinds, customer) == Quieted(nothing, e.report.face, kinds, e.noDriverInterval)
  {
    var f := e.(report := Failed);
    UncutRuns(w, e, kinds);
    assert CutAt(w, f, kinds) == CutAt(w, e, kinds);
  }

  /** A quiet turn ends a series of alarms about a missing driver, and sets the timer anew, exactly when there is a
      face and the series has had more than one. */
  lemma QuietExactly(events: seq<Input>, start: World, kinds: seq<Kind>, customer: Customer, e: Input)
    requires Shaped(start, kinds) && Fits(e, kinds) && Uncut(After(events, start, kinds, customer), e, kinds)
    requires e.report.Quiet?
    ensures var w, v := After(events, start, kinds, customer), After(events + [e], start, kinds, customer);
      var nothing := After(events + [e.(report := Failed)], start, kinds, customer);
      if e.report.face && w.repeat > 1 && exists j: nat :: w.typeLast == Some(j) && j < |kinds| && kinds[j] == NoDriver
      then var j := w.typeLast.value;
        v == nothing.(timers := nothing.timers[j := nothing.timers[j].(time := e.noDriverInterval)],
                      typeLast := None, repeat := 0)
      else v == nothing
  {
    var w, f := After(events, start, kinds, customer), e.(report := Failed);
    assert (events + [e])[..|events|] == events && (events + [f])[..|events|] == events;
    QuietIs(w, e, kinds, customer);
  }

  // ---------------------------------------------------------------- the overspeed alarm

  /** Time is left, but nothing counts it down: no overspeed alarm is due. */
  predicate Silent(t: Timer) { t.time > 0 && !t.alarm }

  /** The i-th interval is changed, and the walk gets as far as that. */
  ghost predicate RearmedBy(w: World, e: Input, kinds: seq<Kind>, i: nat)
    requires Shaped(w, kinds) && i < |kinds|
  {
    Fits(e, kinds) && Rearms(w.timers[i], e.conf[i])
    && i <= CutAt(w, e, kinds)
  }

  /** Too fast, and yet below the working speed. */
  predicate Clash(g: Gps, s: Speeds, customer: Customer, t: nat)
    requires t < |s.working|
  {
    g.status != 0 && !customer.Vue? && s.limit < g.speed < WorkSpeed(s, customer, t) && 0 < WorkSpeed(s, customer, t)
  }

  /** That some speed is both, told from the settings. */
  predicate CanClash(s: Speeds, customer: Customer, t: nat)
    requires t < |s.working|
  {
    !customer.Vue? && WorkSpeed(s, customer, t) > 0 && s.limit + 1 < WorkSpeed(s, customer, t)
  }

  /** A speed that is both, never a negative one. */
  function Between(s: Speeds): (g: Gps) { Gps(1, if s.limit < 0 then 0 else s.limit + 1) }

  lemma ClashExactly(g: Gps, s: Speeds, customer: Customer, t: nat)
    requires t < |s.working|
    ensures TooFast(g, s) && Blocked(g, s, customer, t) <==> Clash(g, s, customer, t)
    ensures Clash(g, s, customer, t) ==> CanClash(s, customer, t)
    ensures CanClash(s, customer, t) ==> Clash(Between(s), s, customer, t)
  {
  }

  /** An overspeed alarm is due, the working speed holds it back, and no earlier one is being counted down. */
  ghost predicate HeldBack(w: World, e: Input, kinds: seq<Kind>, customer: Customer, i: nat)
    requires Shaped(w, kinds) && i < |kinds|
  {
    Fits(e, kinds) && CutAt(w, e, kinds) == i && Clash(e.gps, e.speeds, customer, i)
    && e.overspeedInterval > 0 && !Changed(w.timers[i], e.conf[i]).alarm
  }

  lemma PassedSilence(t: Timer, c: Config, step: int)
    ensures Silent(Passed(t, c, Overspeed, step)) <==> Silent(t) && !Rearms(t, c)
  {
  }

  /** When the overspeed alarm falls silent and when it is heard again: holding one back silences it, for
      the code then sets the time but not the flag that has it counted down, and only a change of its
      interval ends that. */
  lemma SilenceExactly(w: World, e: Input, kinds: seq<Kind>, customer: Customer, i: nat)
    requires Shaped(w, kinds) && i < |kinds| && kinds[i].Overspeed? && (e.Turn? ==> e.report != Reports(i))
    ensures var v := Step(w, e, kinds, customer);
      Silent(v.timers[i]) <==>
        if Silent(w.timers[i]) then !RearmedBy(w, e, kinds, i) else HeldBack(w, e, kinds, customer, i)
    ensures Silent(w.timers[i]) && !RearmedBy(w, e, kinds, i) ==> Step(w, e, kinds, customer).logs[i] == w.logs[i]
  {
    if Fits(e, kinds) {
      var n := CutAt(w, e, kinds);
      StopsAtSpeeding(w.timers, e.conf, kinds, TooFast(e.gps, e.speeds), 0);
      PassedSilence(w.timers[i], e.conf[i], e.now - w.last);
      var u := WalkedTo(w, e.now, e.conf, kinds, n);
      assert u.timers[i] == if i < n then Passed(w.timers[i], e.conf[i], Overspeed, e.now - w.last)
                            else if i == n then Changed(w.timers[i], e.conf[i]) else w.timers[i];
    }
  }

  /** Once silenced, the overspeed alarm is not raised again as long as its interval is left alone. */
  lemma {:induction false} StaysSilent(events: seq<Input>, start: World, kinds: seq<Kind>, customer: Customer, i: nat)
    requires Shaped(start, kinds) && i < |kinds| && kinds[i].Overspeed? && Silent(start.timers[i])
    requires forall e :: e in events && e.Turn? ==> e.report != Reports(i) && |e.conf| == |kinds| && !e.conf[i].changed
    ensures var w := After(events, start, kinds, customer); Silent(w.timers[i]) && w.logs[i] == start.logs[i]
  {
    if events != [] {
      var before, e := events[..|events| - 1], events[|events| - 1];
      StaysSilent(before, start, kinds, customer, i);
      assert e in events;
      SilenceExactly(After(before, start, kinds, customer), e, kinds, customer, i);
    }
  }

  predicate FirstOverspeed(kinds: seq<Kind>, i: nat)
    requires i < |kinds|
  {
    kinds[i].Overspeed? && forall j :: 0 <= j < i ==> !kinds[j].Overspeed?
  }

  /** The settings of a turn, and that the analyser itself reports no overspeed. */
  ghost predicate Set(e: Input, kinds: seq<Kind>, i: nat) {
    e.Turn? ==> Fits(e, kinds) && i < |kinds| && e.report != Reports(i)
  }

  /** As long as the settings let no speed be both too fast and below the working speed, the alarm never
      falls silent. */
  lemma {:induction false} NeverSilent(events: seq<Input>, start: World, kinds: seq<Kind>, customer: Customer, i: nat)
    requires Shaped(start, kinds) && i < |kinds| && kinds[i].Overspeed? && !Silent(start.timers[i])
    requires forall e :: e in events ==> Set(e, kinds, i) && (e.Turn? ==> !CanClash(e.speeds, customer, i))
    ensures !Silent(After(events, start, kinds, customer).timers[i])
  {
    if events != [] {
      var before, e := events[..|events| - 1], events[|events| - 1];
      NeverSilent(before, start, kinds, customer, i);
      assert e in events;
      SilenceExactly(After(before, start, kinds, customer), e, kinds, customer, i);
    }
  }

  /** Where they do, any such speed brings it about in the first turn, for the first type of overspeed. */
  lemma SilencedAtOnce(start: World, e: Input, kinds: seq<Kind>, customer: Customer, i: nat)
    requires Shaped(start, kinds) && i < |kinds| && FirstOverspeed(kinds, i)
    requires start.timers[i].time <= 0 && !start.timers[i].alarm
    requires Fits(e, kinds) && Set(e, kinds, i) && e.conf[i].interval >= 0 && !e.conf[i].changed
    requires e.overspeedInterval > 0 && Clash(e.gps, e.speeds, customer, i)
    ensures !Silent(start.timers[i]) && Silent(Step(start, e, kinds, customer).timers[i])
  {
    StopSkips(start.timers, e.conf, kinds, TooFast(e.gps, e.speeds), 0, i);
    SilenceExactly(start, e, kinds, customer, i);
  }

  /** For instance at 25 with a limit of 20 and a working speed of 30. */
  lemma SilencedAt25()
    ensures var speeds := Speeds(20, [30], false);
      var e := Turn(1, [Config(1000, false)], Gps(1, 25), speeds, Failed, 5000, 0);
      Silent(Step(Start(0, [1000], [true], [Overspeed]), e, [Overspeed], OtherCustomer).timers[0])
  {
    var e := Turn(1, [Config(1000, false)], Gps(1, 25), Speeds(20, [30], false), Failed, 5000, 0);
    SilencedAtOnce(Start(0, [1000], [true], [Overspeed]), e, [Overspeed], OtherCustomer, 0);
  }

  /** A run under fixed speed settings at whose end the alarm is silent. */
  ghost predicate FallsSilent(events: seq<Input>, start: World, kinds: seq<Kind>, customer: Customer, speeds: Speeds,
                              i: nat)
    requires Shaped(start, kinds) && i < |kinds|
  {
    (forall e :: e in events ==> Set(e, kinds, i) && (e.Turn? ==> e.speeds == speeds))
    && Silent(After(events, start, kinds, customer).timers[i])
  }

  /** The settings under which the alarm can fall silent at all, both ways. */
  lemma SilenceIff(clock: int, intervals: seq<int>, on: seq<bool>, kinds: seq<Kind>, customer: Customer,
                   speeds: Speeds, i: nat)
    requires |intervals| == |on| == |kinds| == |speeds.working| && i < |kinds| && FirstOverspeed(kinds, i)
    ensures (exists events :: FallsSilent(events, Start(clock, intervals, on, kinds), kinds, customer, speeds, i))
            <==> CanClash(speeds, customer, i)
  {
    var start := Start(clock, intervals, on, kinds);
    if CanClash(speeds, customer, i) {
      var e := Turn(clock, seq(|kinds|, _ => Config(1, false)), Between(speeds), speeds, Failed, 1, 1);
      ClashExactly(e.gps, speeds, customer, i);
      SilencedAtOnce(start, e, kinds, customer, i);
      assert After([], start, kinds, customer) == start && [e][..0] == [];
      assert FallsSilent([e], start, kinds, customer, speeds, i);
    } else {
      forall events | FallsSilent(events, start, kinds, customer, speeds, i) ensures false {
        NeverSilent(events, start, kinds, customer, i);
      }
    }
  }

  // ---------------------------------------------------------------- the overspeed alarm where it never falls silent

  /** A turn with some interval, which may have changed, under settings that let no speed be both. */
  ghost predicate Clear(e: Input, kinds: seq<Kind>, customer: Customer, i: nat) {
    Set(e, kinds, i) && (e.Turn? ==> e.conf[i].interval >= 0 && !CanClash(e.speeds, customer, i))
  }

  /** The armings, with that by a change of the interval in this turn. */
  ghost function WithChange(log: seq<Arming>, c: Config, last: int): (r: seq<Arming>) {
    if c.changed then log + [Arming(last, c.interval, false)] else log
  }

  ghost predicate ExactDue(t: Timer, log: seq<Arming>, last: int) {
    t.confLast >= 0 &&
    if t.alarm then log != [] && t.time >= 0 && t.time + (last - log[|log| - 1].at) == log[|log| - 1].span
    else t.time <= 0 && Elapsed(log, last)
  }

  lemma PassedDue(t: Timer, c: Config, log: seq<Arming>, last: int, now: int)
    requires ExactDue(t, log, last) && last <= now && c.interval >= 0
    ensures ExactDue(Passed(t, c, Overspeed, now - last), WithChange(log, c, last), now) && Changed(t, c).confLast >= 0
    ensures Speeding(t, c, Overspeed, true) <==> Elapsed(WithChange(log, c, last), last)
  {
  }

  lemma ConcludedDue(w: World, e: Input, n: nat, kinds: seq<Kind>, customer: Customer, i: nat)
    requires Shaped(w, kinds) && Fits(e, kinds) && n <= |kinds|
    requires i < |kinds| && kinds[i].Overspeed? && Set(e, kinds, i)
    requires n == i ==>
      !Blocked(e.gps, e.speeds, customer, i) && e.conf[i].interval >= 0 && w.timers[i].confLast >= 0
    ensures var v := Concluded(w, e, n, kinds, customer);
      v.last == w.last && if n == i then ExactDue(v.timers[i], v.logs[i], v.last)
                            && v.logs[i] == w.logs[i] + [Arming(w.last, e.conf[i].interval, true)]
                          else v.timers[i] == w.timers[i] && v.logs[i] == w.logs[i]
  {
  }

  lemma WalkedDue(w: World, e: Input, kinds: seq<Kind>, customer: Customer, i: nat)
    requires Shaped(w, kinds) && i < |kinds| && FirstOverspeed(kinds, i) && Clear(e, kinds, customer, i)
    requires e.Turn? && ExactDue(w.timers[i], w.logs[i], w.last) && w.last <= e.now
    ensures var n, log := CutAt(w, e, kinds), WithChange(w.logs[i], e.conf[i], w.last);
      var v := WalkedTo(w, e.now, e.conf, kinds, n);
      && i <= n && (n == i <==> TooFast(e.gps, e.speeds) && Elapsed(log, w.last))
      && v.last == e.now && v.logs[i] == log && v.timers[i].confLast >= 0
      && (n != i ==> ExactDue(v.timers[i], log, e.now))
  {
    StopSkips(w.timers, e.conf, kinds, TooFast(e.gps, e.speeds), 0, i);
    StopsAtSpeeding(w.timers, e.conf, kinds, TooFast(e.gps, e.speeds), 0);
    PassedDue(w.timers[i], e.conf[i], w.logs[i], w.last, e.now);
  }

  /** Such a turn raises the overspeed alarm exactly when the vehicle is too fast and the span of the last arming
      had passed in the turn before. */
  lemma DueExactly(w: World, e: Input, kinds: seq<Kind>, customer: Customer, i: nat)
    requires Shaped(w, kinds) && i < |kinds| && FirstOverspeed(kinds, i) && Clear(e, kinds, customer, i)
    requires ExactDue(w.timers[i], w.logs[i], w.last) && (e.Turn? ==> w.last <= e.now)
    ensures var v := Step(w, e, kinds, customer); ExactDue(v.timers[i], v.logs[i], v.last)
    ensures Step(w, e, kinds, customer).logs[i] == LogAfter(w.logs[i], e, w.last, i)
  {
    if e.Turn? {
      var n := CutAt(w, e, kinds);
      WalkedDue(w, e, kinds, customer, i);
      ClashExactly(e.gps, e.speeds, customer, i);
      ConcludedDue(WalkedTo(w, e.now, e.conf, kinds, n), e, n, kinds, customer, i);
    }
  }

  /** What becomes of the armings: too fast is above the limit with a fix, and the span of the last arming, be it
      by a change in this very turn, had passed in the turn before. */
  ghost function LogAfter(armings: seq<Arming>, e: Input, last: int, i: nat): (r: seq<Arming>)
    requires e.Turn? ==> i < |e.conf|
  {
    if e.GpsFailed? then armings
    else
      var log := if e.conf[i].changed then armings + [Arming(last, e.conf[i].interval, false)] else armings;
      if e.gps.status != 0 && e.gps.speed > e.speeds.limit
         && (log == [] || last - log[|log| - 1].at >= log[|log| - 1].span)
      then log + [Arming(e.now, e.conf[i].interval, true)] else log
  }

  /** So it is in every turn of every such run. */
  lemma {:induction false} RunDueExactly(events: seq<Input>, clock: int, intervals: seq<int>, on: seq<bool>,
                                         kinds: seq<Kind>, customer: Customer, i: nat, e: Input)
    requires |intervals| == |on| == |kinds| && i < |kinds| && FirstOverspeed(kinds, i) && intervals[i] >= 0
    requires AllExpected(events + [e], Start(clock, intervals, on, kinds), kinds, customer)
    requires forall d :: d in events + [e] ==> Clear(d, kinds, customer, i)
    ensures var w := After(events, Start(clock, intervals, on, kinds), kinds, customer);
      ExactDue(w.timers[i], w.logs[i], w.last)
    ensures var w := After(events, Start(clock, intervals, on, kinds), kinds, customer);
      After(events + [e], Start(clock, intervals, on, kinds), kinds, customer).logs[i]
      == LogAfter(w.logs[i], e, w.last, i)
  {
    var start := Start(clock, intervals, on, kinds);
    assert (events + [e])[..|events|] == events && e in events + [e];
    if events != [] {
      var before, d := events[..|events| - 1], events[|events| - 1];
      assert before + [d] == events;
      assert forall f :: f in events ==> f in events + [e];
      RunDueExactly(before, clock, intervals, on, kinds, customer, i, d);
      DueExactly(After(before, start, kinds, customer), d, kinds, customer, i);
    }
    DueExactly(After(events, start, kinds, customer), e, kinds, customer, i);
  }

  // ---------------------------------------------------------------- the loop's variables

  class Detector {
    const timers: array<Timer>
    const kinds: seq<Kind>
    const customer: Customer
    var tvLast: int
    var typeLast: Option<nat>
    var repeatTime: nat
    ghost var logs: seq<seq<Arming>>

    ghost predicate Valid()
      reads this, timers
    {
      timers.Length == |kinds| == |logs|
    }

    ghost function Now(): (r: World)
      reads this, timers
    {
      World(tvLast, timers[..], typeLast, repeatTime, logs)
    }

    constructor (clock: int, intervals: seq<int>, on: seq<bool>, types: seq<Kind>, buyer: Customer)
      requires |intervals| == |on| == |types|
      ensures Valid() && fresh(timers) && kinds == types && customer == buyer
      ensures Now() == Start(clock, intervals, on, types)
    {
      timers := new Timer[|types|](i requires 0 <= i < |types| =>
        Timer(if types[i].Overspeed? then 0 else intervals[i], false, intervals[i], on[i]));
      kinds, customer, tvLast, typeLast, repeatTime := types, buyer, clock, None, 0;
      logs := seq(|on|, _ => []);
      new;
      assert timers[..] == Start(clock, intervals, on, types).timers;
    }

    /** One timer: a changed interval arms it, then a running alarm is counted down. */
    method PassTimer(i: nat, c: Config, step: int)
      requires Valid() && i < timers.Length
      modifies timers
      ensures timers[i] == Passed(old(timers[i]), c, kinds[i], step)
      ensures forall j :: 0 <= j < timers.Length && j != i ==> timers[j] == old(timers[j])
    {
      if c.changed { ChangeTimer(i, c); }
      match kinds[i] {
        case Other =>
        case Overspeed =>
          if c.interval >= 0 {
            if timers[i].time <= 0 { timers[i] := timers[i].(time := 0); }
            if timers[i].alarm { timers[i] := timers[i].(time := timers[i].time - step); }
            if timers[i].alarm && timers[i].time <= 0 { timers[i] := timers[i].(alarm := false); }
          }
        case _ =>
          if c.interval >= 0 {
            timers[i] := timers[i].(on := true);
            if timers[i].alarm {
              timers[i] := timers[i].(time := timers[i].time - step);
              timers[i] := timers[i].(on := timers[i].time <= 0);
            }
            if timers[i].alarm && timers[i].time <= 0 {
              timers[i] := timers[i].(alarm := false);
              timers[i] := timers[i].(time := c.interval);
            }
          } else {
            timers[i] := timers[i].(on := false);
          }
      }
    }

    method ChangeTimer(i: nat, c: Config)
      requires Valid() && i < timers.Length && c.changed
      modifies timers
      ensures timers[i] == Changed(old(timers[i]), c)
      ensures forall j :: 0 <= j < timers.Length && j != i ==> timers[j] == old(timers[j])
    {
      if timers[i].confLast >= 0 {
        timers[i] := timers[i].(alarm := true, time := c.interval);
      }
      timers[i] := timers[i].(confLast := c.interval);
    }

    /** The walk over all timers, cut short where the overspeed alarm is due. */
    method WalkTimers(conf: seq<Config>, speeding: bool, step: int) returns (n: nat)
      requires Valid() && |conf| == |kinds|
      modifies timers
      ensures n == Stop(old(timers[..]), conf, kinds, speeding, 0)
      ensures timers[..] == Walked(old(timers[..]), conf, kinds, step, n)
    {
      for i := 0 to |kinds|
        invariant Stop(old(timers[..]), conf, kinds, speeding, 0) == Stop(old(timers[..]), conf, kinds, speeding, i)
        invariant forall j :: 0 <= j < i ==> timers[j] == Passed(old(timers[j]), conf[j], kinds[j], step)
        invariant forall j :: i <= j < |kinds| ==> timers[j] == old(timers[j])
      {
        if Speeding(timers[i], conf[i], kinds[i], speeding) {
          if conf[i].changed { ChangeTimer(i, conf[i]); }
          return i;
        }
        PassTimer(i, conf[i], step);
      }
      return |kinds|;
    }

    /** Raises an alarm of type t, unless the working speed holds it back. */
    method SubmitAlarm(t: nat, conf: seq<Config>, gps: Gps, speeds: Speeds, overspeedInterval: int)
      requires Valid() && |conf| == |speeds.working| == |kinds| && t < |kinds|
      modifies this, timers
      ensures Valid() && Now() == Submitted(old(Now()), t, conf, kinds, Blocked(gps, speeds, customer, t),
                                            overspeedInterval, customer)
    {
      if kinds[t].Overspeed? { timers[t] := timers[t].(time := overspeedInterval); }
      var index := if customer.Creare? then t else 0;
      if speeds.working[index] > 0 {
        if gps.status == 0 {
          if !speeds.alarmWithoutGps {
            typeLast := Some(t);
            return;
          }
        } else if gps.speed < speeds.working[index] && !customer.Vue? {
          typeLast := Some(t);
          return;
        }
      }
      timers[t] := timers[t].(alarm := true, time := conf[t].interval);
      if typeLast != Some(t) {
        repeatTime, typeLast := 1, Some(t);
      } else {
        repeatTime := repeatTime + 1;
        if customer.Shiqi? && (kinds[t].NoDriver? || kinds[t].Phone? || kinds[t].Smoke?) {
          if repeatTime % 9 == 0 {
            timers[t] := timers[t].(time := (if kinds[t].NoDriver? then 30 else 10) * 60 * 1000);
          } else if repeatTime % 3 == 0 {
            timers[t] := timers[t].(time := 3 * 60 * 1000);
          }
        }
      }
      logs := logs[t := logs[t] + [Arming(tvLast, timers[t].time, true)]];
    }

    /** What a turn without an alarm does. */
    method EndSeries(face: bool, noDriverInterval: int)
      requires Valid()
      modifies this, timers
      ensures Valid() && Now() == Quieted(old(Now()), face, kinds, noDriverInterval)
    {
      if typeLast.Some? && typeLast.value < |kinds| && kinds[typeLast.value].NoDriver? && repeatTime > 1 && face {
        var j := typeLast.value;
        timers[j] := timers[j].(time := noDriverInterval);
        typeLast, repeatTime := None, 0;
      }
    }

    /** An overspeed alarm that has cut the walk short, or else what the report says. */
    method Conclude(e: Input, n: nat)
      requires Valid() && Fits(e, kinds) && n <= |kinds|
      modifies this, timers
      ensures Valid() && Now() == Concluded(old(Now()), e, n, kinds, customer)
    {
      if n < |kinds| {
        SubmitAlarm(n, e.conf, e.gps, e.speeds, e.overspeedInterval);
      } else if e.report.Quiet? {
        EndSeries(e.report.face, e.noDriverInterval);
      } else if e.report.Reports? && e.report.kind < |kinds| {
        SubmitAlarm(e.report.kind, e.conf, e.gps, e.speeds, e.overspeedInterval);
      }
    }

    method LoopTurn(e: Input)
      requires Valid() && (e.Turn? ==> Fits(e, kinds))
      modifies this, timers
      ensures Valid() && Now() == Step(old(Now()), e, kinds, customer)
    {
      match e {
        case GpsFailed =>
        case Turn(now, conf, gps, speeds, _, _, _) =>
          var step := now - tvLast;
          ghost var last := tvLast;
          tvLast := now;
          var n := WalkTimers(conf, gps.status != 0 && gps.speed > speeds.limit, step);
          logs := Logged(old(timers[..]), conf, logs, last, n);
          Conclude(e, n);
      }
    }
  }
}
