/**
 Alert throttling in the eidolon supervisor: after an alert for a rule, further violations of that rule are silent until
 the rule's cooldown has passed. Times are nanoseconds; the widths of the source's integers are written out.
 */
module Cooldown {
  import opened Wrappers

  /** A rule's id and its cooldown in seconds, a `u64`. */
  datatype Rule = Rule(id: string, cooldownSecs: nat)

  const NANOS: nat := 1_000_000_000
  const I64_BOUND: nat := 0x8000_0000_0000_0000
  const U64_BOUND: nat := 0x1_0000_0000_0000_0000
  /** `Duration::seconds` panics beyond this many seconds: `i64::MAX / 1000`. */
  const MAX_DURATION_SECS: int := 9_223_372_036_854_775
  const DEFAULT_SECS: nat := 60

  predicate ValidRules(rules: seq<Rule>) {
    forall i :: 0 <= i < |rules| ==> rules[i].cooldownSecs < U64_BOUND
  }

  /** The cooldown of the first rule with the id, or the default when no rule has it. */
  function CooldownSecs(rules: seq<Rule>, id: string): (secs: nat)
    ensures ValidRules(rules) ==> secs < U64_BOUND
  {
    if rules == [] then DEFAULT_SECS
    else if rules[0].id == id then rules[0].cooldownSecs
    else CooldownSecs(rules[1..], id)
  }

  /** `as i64`: the upper half of `u64` comes out negative. */
  function AsI64(n: nat): int {
    if n < I64_BOUND then n else n - U64_BOUND
  }

  /** The instants a timestamp can hold. */
  datatype Range = Range(first: int, last: int)

  predicate Within(range: Range, t: int) {
    range.first <= t <= range.last
  }

  /** The end of the cooldown, or nothing when building the duration or adding it panics. */
  function Until(range: Range, now: int, secs: nat): (r: Option<int>)
  {
    var shift := AsI64(secs);
    if -MAX_DURATION_SECS <= shift <= MAX_DURATION_SECS && Within(range, now + shift * NANOS) then
      Some(now + shift * NANOS)
    else None
  }

  /** One violation and the three clock readings around it: the check, the alert, the start of the cooldown. */
  datatype Violation = Violation(rule: string, checked: int, sent: int, started: int)

  datatype Alert = Alert(rule: string, at: int)

  /** Cooldown ends by rule, the alerts sent, and whether the supervisor has died of a panic. */
  datatype Throttle = Throttle(ends: map<string, int>, alerts: seq<Alert>, dead: bool)

  function Step(rules: seq<Rule>, range: Range, t: Throttle, v: Violation): (r: Throttle)
  {
    if t.dead || (v.rule in t.ends && v.checked < t.ends[v.rule]) then t
    else
      var alerts := t.alerts + [Alert(v.rule, v.sent)];
      match Until(range, v.started, CooldownSecs(rules, v.rule))
      case None => Throttle(t.ends, alerts, true)
      case Some(end) => Throttle(t.ends[v.rule := end], alerts, false)
  }

  function Run(rules: seq<Rule>, range: Range, violations: seq<Violation>): (r: Throttle)
  {
    if violations == [] then Throttle(map[], [], false)
    else Step(rules, range, Run(rules, range, violations[..|violations| - 1]), violations[|violations| - 1])
  }

  /** The clock never goes backwards, within a violation or between them, and stays in range. */
  predicate Ordered(range: Range, violations: seq<Violation>) {
    && (forall i :: 0 <= i < |violations| ==>
          violations[i].checked <= violations[i].sent <= violations[i].started
          && Within(range, violations[i].checked) && Within(range, violations[i].started))
    && (forall i, j :: 0 <= i < j < |violations| ==> violations[i].started <= violations[j].checked)
  }

  class Supervisor {
    const rules: seq<Rule>
    const range: Range
    var ends: map<string, int>
    var alerts: seq<Alert>
    var dead: bool

    ghost function Value(): Throttle
      reads this
    {
      Throttle(ends, alerts, dead)
    }

    constructor (rules: seq<Rule>, range: Range)
      ensures this.rules == rules && this.range == range && Value() == Run(rules, range, [])
    {
      this.rules := rules;
      this.range := range;
      this.ends := map[];
      this.alerts := [];
      this.dead := false;
    }

    predicate IsCooledDown(rule: string, now: int)
      reads this
    {
      rule in ends && now < ends[rule]
    }

    method SetCooldown(rule: string, now: int)
      modifies this
      ensures alerts == old(alerts)
      ensures match Until(range, now, CooldownSecs(rules, rule))
        case None => dead && ends == old(ends)
        case Some(end) => dead == old(dead) && ends == old(ends)[rule := end]
    {
      var end := Until(range, now, CooldownSecs(rules, rule));
      if end.Some? {
        ends := ends[rule := end.value];
      } else {
        dead := true;
      }
    }

    /** The body of the violation loop in `run`. */
    method Handle(v: Violation)
      modifies this
      ensures Value() == Step(rules, range, old(Value()), v)
    {
      if dead || IsCooledDown(v.rule, v.checked) {
        return;
      }
      alerts := alerts + [Alert(v.rule, v.sent)];
      SetCooldown(v.rule, v.started);
    }

    /** Every violation in order, several from one entry included. */
    method HandleAll(violations: seq<Violation>)
      requires Value() == Run(rules, range, [])
      modifies this
      ensures Value() == Run(rules, range, violations)
    {
      assert violations[..0] == [];
      for k := 0 to |violations|
        invariant Value() == Run(rules, range, violations[..k])
      {
        assert violations[..k + 1][..k] == violations[..k];
        Handle(violations[k]);
      }
      assert violations[..|violations|] == violations;
    }
  }

  // ----- spacing

  /** Any two alerts for the rule are at least its cooldown apart. */
  predicate Spaced(rules: seq<Rule>, rule: string, alerts: seq<Alert>) {
    forall i, j :: 0 <= i < j < |alerts| && alerts[i].rule == rule && alerts[j].rule == rule ==>
      alerts[i].at + CooldownSecs(rules, rule) * NANOS <= alerts[j].at
  }

  /**
   The cooldown reaches the clock as the positive number it is, or as a shift so large that the supervisor dies on it.
   */
  predicate Honest(rules: seq<Rule>, range: Range, rule: string) {
    var secs := CooldownSecs(rules, rule);
    || secs < I64_BOUND
    || U64_BOUND - secs > MAX_DURATION_SECS
    || (U64_BOUND - secs) * NANOS > range.last - range.first
  }

  /** What every prefix of a run keeps: while alive, each past alert's cooldown is still on record. */
  ghost predicate Inv(rules: seq<Rule>, rule: string, t: Throttle) {
    && Spaced(rules, rule, t.alerts)
    && (!t.dead ==> forall i :: 0 <= i < |t.alerts| && t.alerts[i].rule == rule ==>
          rule in t.ends && t.alerts[i].at + CooldownSecs(rules, rule) * NANOS <= t.ends[rule])
  }

  lemma UntilIsLater(range: Range, now: int, secs: nat)
    requires Within(range, now) && Until(range, now, secs).Some?
    requires || secs < I64_BOUND || U64_BOUND - secs > MAX_DURATION_SECS
             || (U64_BOUND - secs) * NANOS > range.last - range.first
    ensures Until(range, now, secs).value == now + secs * NANOS
  {
  }

  lemma {:induction false} RunInv(rules: seq<Rule>, range: Range, violations: seq<Violation>, rule: string)
    requires Ordered(range, violations) && Honest(rules, range, rule)
    ensures Inv(rules, rule, Run(rules, range, violations))
    ensures forall i :: 0 <= i < |Run(rules, range, violations).alerts| && violations != [] ==>
              Run(rules, range, violations).alerts[i].at <= violations[|violations| - 1].started
  {
    hide Until, CooldownSecs;
    if violations != [] {
      var k := |violations| - 1;
      var front := violations[..k];
      RunInv(rules, range, front, rule);
      var t, v := Run(rules, range, front), violations[k];
      if k > 0 { assert front[k - 1] == violations[k - 1]; assert violations[k - 1].started <= v.checked; }
      if v.rule == rule && Until(range, v.started, CooldownSecs(rules, rule)).Some? {
        UntilIsLater(range, v.started, CooldownSecs(rules, rule));
      }
      SpacedAfter(rules, range, t, v, rule);
    }
  }

  lemma SpacedAfter(rules: seq<Rule>, range: Range, t: Throttle, v: Violation, rule: string)
    requires Inv(rules, rule, t) && v.checked <= v.sent <= v.started
    requires forall i :: 0 <= i < |t.alerts| ==> t.alerts[i].at <= v.checked
    requires v.rule == rule && Until(range, v.started, CooldownSecs(rules, rule)).Some? ==>
               Until(range, v.started, CooldownSecs(rules, rule)).value == v.started + CooldownSecs(rules, rule) * NANOS
    ensures Inv(rules, rule, Step(rules, range, t, v))
  {
    hide Until, CooldownSecs;
    var t' := Step(rules, range, t, v);
    var gap := CooldownSecs(rules, rule) * NANOS;
    assert forall i :: 0 <= i < |t.alerts| ==> t'.alerts[i] == t.alerts[i];
    forall i | 0 <= i < |t.alerts| && t.alerts[i].rule == rule && v.rule == rule && t'.alerts != t.alerts
      ensures t.alerts[i].at + gap <= v.sent
    {
      assert t.alerts[i].at + gap <= t.ends[rule] <= v.checked;
    }
  }

  /** A cooldown that wraps to a small negative shift lets the very same instant alert twice. */
  lemma WrappedCooldownRepeats(rules: seq<Rule>, range: Range, rule: string) returns (violations: seq<Violation>)
    requires ValidRules(rules) && range.first <= range.last && !Honest(rules, range, rule)
    ensures Ordered(range, violations) && !Spaced(rules, rule, Run(rules, range, violations).alerts)
  {
    hide CooldownSecs;
    var v := Violation(rule, range.last, range.last, range.last);
    violations := [v, v];
    assert violations[..1] == [v] && [v][..0] == [];
    var t0 := Run(rules, range, []);
    var t1 := Run(rules, range, [v]);
    assert t1 == Step(rules, range, t0, v);
    assert Until(range, range.last, CooldownSecs(rules, rule)).Some?;
    assert t1.alerts == [Alert(rule, range.last)];
    var t2 := Run(rules, range, violations);
    assert t2 == Step(rules, range, t1, v);
    assert t2.alerts[0] == t2.alerts[1] == Alert(rule, range.last);
  }

  /**
   Cooldown spacing, exactly: alerts for a rule are at least its cooldown apart in every run under a clock that never
   goes back, if and only if the configured number of seconds does not wrap to a negative shift the clock can follow.
   */
  lemma CooldownSpacing(rules: seq<Rule>, range: Range, rule: string)
    requires ValidRules(rules) && range.first <= range.last
    ensures (forall violations :: Ordered(range, violations) ==>
      Spaced(rules, rule, Run(rules, range, violations).alerts))
       <==> Honest(rules, range, rule)
  {
    hide Run, Spaced, Ordered, Honest;
    if Honest(rules, range, rule) {
      forall violations | Ordered(range, violations) ensures Spaced(rules, rule, Run(rules, range, violations).alerts) {
        RunInv(rules, range, violations, rule);
      }
    } else {
      var violations := WrappedCooldownRepeats(rules, range, rule);
      assert !Spaced(rules, rule, Run(rules, range, violations).alerts);
    }
  }

  // ----- silence

  /** The k-th violation of a run was answered with an alert. */
  ghost predicate Alerted(rules: seq<Rule>, range: Range, violations: seq<Violation>, k: nat)
    requires k < |violations|
  {
    |Run(rules, range, violations[..k + 1]).alerts| > |Run(rules, range, violations[..k]).alerts|
  }

  /**
   An earlier alert for the rule started less than its cooldown, as the cast leaves it, before the violation is
   checked.
   */
  ghost predicate CoolingDown(rules: seq<Rule>, range: Range, violations: seq<Violation>, v: Violation) {
    exists k :: 0 <= k < |violations| && violations[k].rule == v.rule && Alerted(rules, range, violations, k)
                && v.checked < violations[k].started + AsI64(CooldownSecs(rules, v.rule)) * NANOS
  }

  /** An alert whose cooldown the source's arithmetic cannot express. */
  ghost predicate Overflows(rules: seq<Rule>, range: Range, violations: seq<Violation>) {
    exists k :: 0 <= k < |violations| && Alerted(rules, range, violations, k)
                && Until(range, violations[k].started, CooldownSecs(rules, violations[k].rule)) == None
  }

  lemma AlertedInPrefix(rules: seq<Rule>, range: Range, violations: seq<Violation>, n: nat)
    requires n <= |violations|
    ensures forall k :: 0 <= k < n ==>
      (Alerted(rules, range, violations[..n], k) <==> Alerted(rules, range, violations, k))
  {
    hide Run;
    forall k | 0 <= k < n
      ensures Alerted(rules, range, violations[..n], k) <==> Alerted(rules, range, violations, k)
    {
      assert violations[..n][..k + 1] == violations[..k + 1] && violations[..n][..k] == violations[..k];
    }
  }

  lemma LastAlerted(rules: seq<Rule>, range: Range, violations: seq<Violation>)
    requires violations != []
    ensures var k := |violations| - 1;
      var t, v := Run(rules, range, violations[..k]), violations[k];
      && Run(rules, range, violations) == Step(rules, range, t, v)
      && (Alerted(rules, range, violations, k) <==> !t.dead && !(v.rule in t.ends && v.checked < t.ends[v.rule]))
  {
    assert violations[..|violations| - 1 + 1] == violations;
  }

  /** The supervisor is dead after a run exactly when an alert of the run had a cooldown that panics. */
  lemma {:induction false} DeadExactly(rules: seq<Rule>, range: Range, violations: seq<Violation>)
    ensures Run(rules, range, violations).dead <==> Overflows(rules, range, violations)
  {
    hide Until, CooldownSecs, Run, Alerted;
    if violations == [] {
      RunOfNothing(rules, range);
    } else {
      var n := |violations| - 1;
      var front := violations[..n];
      DeadExactly(rules, range, front);
      AlertedInPrefix(rules, range, violations, n);
      LastAlerted(rules, range, violations);
      if Overflows(rules, range, front) {
        var k :| 0 <= k < n && Alerted(rules, range, front, k)
                 && Until(range, front[k].started, CooldownSecs(rules, front[k].rule)) == None;
        assert Alerted(rules, range, violations, k) && violations[k] == front[k];
      }
      if Overflows(rules, range, violations) {
        var k :| 0 <= k < |violations| && Alerted(rules, range, violations, k)
                 && Until(range, violations[k].started, CooldownSecs(rules, violations[k].rule)) == None;
        assert k < n ==> Alerted(rules, range, front, k) && violations[k] == front[k];
      }
    }
  }

  lemma RunOfNothing(rules: seq<Rule>, range: Range)
    ensures Run(rules, range, []) == Throttle(map[], [], false)
  {
  }

  /** What is on record for a rule is the end of the cooldown of its last alert, `last`, or nothing when that is -1. */
  ghost predicate OnRecord(rules: seq<Rule>, range: Range, violations: seq<Violation>, rule: string, last: int) {
    && -1 <= last < |violations|
    && (forall k :: last < k < |violations| && violations[k].rule == rule ==> !Alerted(rules, range, violations, k))
    && var ends := Run(rules, range, violations).ends;
       if last == -1 then rule !in ends
       else && violations[last].rule == rule && Alerted(rules, range, violations, last)
            && Until(range, violations[last].started, CooldownSecs(rules, rule)).Some?
            && rule in ends && ends[rule] == Until(range, violations[last].started, CooldownSecs(rules, rule)).value
  }

  lemma {:induction false} LastOnRecord(rules: seq<Rule>, range: Range, violations: seq<Violation>, rule: string)
    returns (last: int)
    requires !Run(rules, range, violations).dead
    ensures OnRecord(rules, range, violations, rule, last)
  {
    hide Until, CooldownSecs, Run, Alerted;
    if violations == [] {
      RunOfNothing(rules, range);
      last := -1;
    } else {
      var n := |violations| - 1;
      AlertedInPrefix(rules, range, violations, n);
      LastAlerted(rules, range, violations);
      last := LastOnRecord(rules, range, violations[..n], rule);
      if violations[n].rule == rule && Alerted(rules, range, violations, n) {
        last := n;
      }
    }
  }

  /** The shift a cooldown that does not panic makes. */
  lemma UntilShifts(range: Range, now: int, secs: nat)
    ensures Until(range, now, secs).Some? ==> Until(range, now, secs).value == now + AsI64(secs) * NANOS
  {
  }

  /**
   Silence, exactly, in every run under a clock that never goes back: once an alert's cooldown could not be expressed
   the supervisor is dead and silent; until then a violation is silent if and only if an alert for its rule started
   less than the cooldown before the check, and otherwise one alert for the rule goes out.
   */
  lemma AlertUnlessCoolingDown(rules: seq<Rule>, range: Range, violations: seq<Violation>, v: Violation)
    requires Ordered(range, violations + [v])
    ensures Run(rules, range, violations + [v]).alerts
         == Run(rules, range, violations).alerts
            + if Overflows(rules, range, violations) || CoolingDown(rules, range, violations, v) then []
              else [Alert(v.rule, v.sent)]
  {
    hide Until, CooldownSecs, Run, Alerted, AsI64;
    var all := violations + [v];
    assert all[..|violations|] == violations;
    LastAlerted(rules, range, all);
    DeadExactly(rules, range, violations);
    if !Run(rules, range, violations).dead {
      var last := LastOnRecord(rules, range, violations, v.rule);
      if last >= 0 {
        UntilShifts(range, violations[last].started, CooldownSecs(rules, v.rule));
        assert all[last] == violations[last];
        forall k | 0 <= k < |violations| && violations[k].rule == v.rule && Alerted(rules, range, violations, k)
          ensures violations[k].started <= violations[last].started
        {
          assert all[k] == violations[k] && k <= last;
          assert k < last ==> all[k].started <= all[last].checked;
        }
      }
    }
  }

  /**
   With a cooldown that reaches the clock as it is, silence lasts exactly the configured seconds after the last alert.
   */
  lemma SilentForCooldown(rules: seq<Rule>, range: Range, violations: seq<Violation>, v: Violation)
    requires Ordered(range, violations + [v]) && !Overflows(rules, range, violations) && Honest(rules, range, v.rule)
    ensures Run(rules, range, violations + [v]).alerts == Run(rules, range, violations).alerts
       <==> exists k :: 0 <= k < |violations| && violations[k].rule == v.rule && Alerted(rules, range, violations, k)
                        && v.checked < violations[k].started + CooldownSecs(rules, v.rule) * NANOS
  {
    hide Until, CooldownSecs, Run, Alerted, AsI64, Overflows, Ordered, Honest;
    AlertUnlessCoolingDown(rules, range, violations, v);
    forall k | 0 <= k < |violations| && violations[k].rule == v.rule && Alerted(rules, range, violations, k)
      ensures AsI64(CooldownSecs(rules, v.rule)) == CooldownSecs(rules, v.rule)
    {
      HonestShift(rules, range, violations, v, k);
    }
  }

  lemma HonestShift(rules: seq<Rule>, range: Range, violations: seq<Violation>, v: Violation, k: nat)
    requires Ordered(range, violations + [v]) && !Overflows(rules, range, violations) && Honest(rules, range, v.rule)
    requires k < |violations| && violations[k].rule == v.rule && Alerted(rules, range, violations, k)
    ensures AsI64(CooldownSecs(rules, v.rule)) == CooldownSecs(rules, v.rule)
  {
    hide CooldownSecs, Run, Alerted;
    assert (violations + [v])[k] == violations[k];
    UntilIsLater(range, violations[k].started, CooldownSecs(rules, v.rule));
    UntilShifts(range, violations[k].started, CooldownSecs(rules, v.rule));
  }

  // ----- the cooldown of a rule, looked up

  /** The first rule with the id. */
  predicate FirstWith(rules: seq<Rule>, rule: string, i: int) {
    0 <= i < |rules| && rules[i].id == rule && forall j :: 0 <= j < i ==> rules[j].id != rule
  }

  /** The seconds configured for a rule: those of the first rule with the id, sixty when there is none. */
  ghost predicate Configured(rules: seq<Rule>, rule: string, secs: nat) {
    || (exists i :: FirstWith(rules, rule, i) && rules[i].cooldownSecs == secs)
    || ((forall i :: 0 <= i < |rules| ==> rules[i].id != rule) && secs == 60)
  }

  lemma {:induction false} ConfiguredSecs(rules: seq<Rule>, rule: string, secs: nat)
    requires Configured(rules, rule, secs)
    ensures CooldownSecs(rules, rule) == secs
  {
    if rules != [] && rules[0].id != rule {
      var rest := rules[1..];
      if i :| FirstWith(rules, rule, i) && rules[i].cooldownSecs == secs {
        assert forall j :: 0 <= j < |rest| ==> rest[j] == rules[j + 1];
        assert FirstWith(rest, rule, i - 1);
      } else {
        assert forall j :: 0 <= j < |rest| ==> rest[j] == rules[j + 1];
      }
      ConfiguredSecs(rest, rule, secs);
    }
  }

  /** As a count of nanoseconds the seconds do not wrap to a shift backwards that the clock can follow. */
  predicate NoWrap(range: Range, secs: nat) {
    || secs < 0x8000_0000_0000_0000
    || 0x1_0000_0000_0000_0000 - secs > 9_223_372_036_854_775
    || (0x1_0000_0000_0000_0000 - secs) * 1_000_000_000 > range.last - range.first
  }

  /** Any two alerts for the rule are at least so many seconds apart. */
  predicate Apart(rule: string, alerts: seq<Alert>, secs: nat) {
    forall i, j :: 0 <= i < j < |alerts| && alerts[i].rule == rule && alerts[j].rule == rule ==>
      alerts[i].at + secs * 1_000_000_000 <= alerts[j].at
  }

  /**
   Spacing in the configured seconds: for the first rule with the id, or sixty seconds without one, alerts are at least
   that far apart in every run under a clock that never goes back, if and only if the seconds do not wrap.
   */
  lemma ConfiguredSpacing(rules: seq<Rule>, range: Range, rule: string, secs: nat)
    requires ValidRules(rules) && range.first <= range.last && Configured(rules, rule, secs)
    ensures (forall violations :: Ordered(range, violations) ==>
      Apart(rule, Run(rules, range, violations).alerts, secs))
       <==> NoWrap(range, secs)
  {
    hide Run, Ordered, CooldownSecs, ValidRules, Configured;
    ConfiguredSecs(rules, rule, secs);
    assert Honest(rules, range, rule) <==> NoWrap(range, secs);
    forall violations ensures var alerts := Run(rules, range, violations).alerts;
      Spaced(rules, rule, alerts) <==> Apart(rule, alerts, secs)
    {
    }
    CooldownSpacing(rules, range, rule);
  }

  /** Silence in the configured seconds: it lasts exactly that long after an alert for the rule started. */
  lemma ConfiguredSilence(rules: seq<Rule>, range: Range, violations: seq<Violation>, v: Violation, secs: nat)
    requires Ordered(range, violations + [v]) && !Overflows(rules, range, violations)
    requires Configured(rules, v.rule, secs) && NoWrap(range, secs)
    ensures Run(rules, range, violations + [v]).alerts == Run(rules, range, violations).alerts
       <==> exists k :: 0 <= k < |violations| && violations[k].rule == v.rule && Alerted(rules, range, violations, k)
                        && v.checked < violations[k].started + secs * 1_000_000_000
  {
    hide Run, Ordered, CooldownSecs, Overflows, Configured, Alerted;
    ConfiguredSecs(rules, v.rule, secs);
    SilentForCooldown(rules, range, violations, v);
  }

  /**
   An alert's cooldown cannot be expressed when it is beyond what a duration holds, or ends outside the clock's range.
   */
  lemma OverflowExactly(rules: seq<Rule>, range: Range, violations: seq<Violation>)
    ensures Run(rules, range, violations).dead
       <==> exists k, secs :: 0 <= k < |violations| && Alerted(rules, range, violations, k)
                              && Configured(rules, violations[k].rule, secs)
                              && !Expressible(range, violations[k].started, secs)
  {
    hide Run, CooldownSecs, Alerted, Configured, Until, Expressible;
    DeadExactly(rules, range, violations);
    forall k, secs | 0 <= k < |violations| && Configured(rules, violations[k].rule, secs)
      ensures Until(range, violations[k].started, CooldownSecs(rules, violations[k].rule)) == None
         <==> !Expressible(range, violations[k].started, secs)
    {
      ConfiguredSecs(rules, violations[k].rule, secs);
      ExpressibleUntil(range, violations[k].started, secs);
    }
    forall k | 0 <= k < |violations|
      ensures Configured(rules, violations[k].rule, CooldownSecs(rules, violations[k].rule))
    {
      SomeConfigured(rules, violations[k].rule);
    }
    if Overflows(rules, range, violations) {
      var k :| 0 <= k < |violations| && Alerted(rules, range, violations, k)
               && Until(range, violations[k].started, CooldownSecs(rules, violations[k].rule)) == None;
      assert Configured(rules, violations[k].rule, CooldownSecs(rules, violations[k].rule));
    }
  }

  /** The seconds, read as a signed 64-bit number, are at most a duration's and lead to an instant of the clock. */
  predicate Expressible(range: Range, now: int, secs: nat) {
    var signed := if secs < 0x8000_0000_0000_0000 then secs else secs - 0x1_0000_0000_0000_0000;
    && -9_223_372_036_854_775 <= signed <= 9_223_372_036_854_775
    && range.first <= now + signed * 1_000_000_000 <= range.last
  }

  lemma ExpressibleUntil(range: Range, now: int, secs: nat)
    ensures Until(range, now, secs).Some? <==> Expressible(range, now, secs)
  {
  }

  lemma {:induction false} SomeConfigured(rules: seq<Rule>, rule: string)
    ensures Configured(rules, rule, CooldownSecs(rules, rule))
  {
    if rules != [] {
      var rest := rules[1..];
      assert forall j :: 0 <= j < |rest| ==> rest[j] == rules[j + 1];
      if rules[0].id == rule {
        assert FirstWith(rules, rule, 0);
      } else {
        SomeConfigured(rest, rule);
        if i :| FirstWith(rest, rule, i) && rest[i].cooldownSecs == CooldownSecs(rest, rule) {
          assert FirstWith(rules, rule, i + 1);
        }
      }
    }
  }
}
