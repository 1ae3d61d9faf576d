/** One iteration of the main loop of fancontrol.py, and runs of iterations, as pure functions of
    the thresholds, the fan state, the status file's contents and the temperatures read. */
module Hysteresis {

  /** The two configured temperatures, in degrees Celsius. */
  datatype Thresholds = Thresholds(on: real, off: real)

  /** `ON_THRESHOLD = 55` and `OFF_THRESHOLD = 45`. */
  const Configured := Thresholds(55.0, 45.0)

  /** The startup check: anything but `OFF_THRESHOLD < ON_THRESHOLD` is refused. */
  predicate Accepted(th: Thresholds) {
    th.off < th.on
  }

  /** The fan (the GPIO line's level) and the contents of the status file. */
  datatype State = State(fanOn: bool, status: string)

  /** What the status file holds for a fan state. */
  function StatusText(fanOn: bool): string {
    if fanOn then "1" else "0"
  }

  /** The status file reports the fan state. */
  predicate Mirrors(s: State) {
    s.status == StatusText(s.fanOn)
  }

  /** The fan and status file as the script leaves them before its first iteration, when the
      GPIO line starts low. */
  const Initial := State(false, StatusText(false))

  /** The effects of an iteration on the world, in the order the script performs them. */
  datatype Effect = WriteStatus(text: string) | Switch(on: bool)

  /** The branch an iteration takes: `if temp > ON_THRESHOLD and not fan.value`, then
      `elif fan.value and temp < OFF_THRESHOLD`, else nothing. */
  datatype Decision = TurnOn | TurnOff | Hold

  function Decide(th: Thresholds, temp: real, fanOn: bool): (d: Decision)
    ensures d == TurnOn <==> !fanOn && temp > th.on
    ensures d == TurnOff <==> fanOn && temp < th.off
  {
    if temp > th.on && !fanOn then TurnOn
    else if fanOn && temp < th.off then TurnOff
    else Hold
  }

  /** The fan and status file after one iteration that read `temp`. */
  function StepState(th: Thresholds, s: State, temp: real): State
  {
    match Decide(th, temp, s.fanOn)
    case TurnOn => State(true, "1")
    case TurnOff => State(false, "0")
    case Hold => s
  }

  /** The effects of that iteration: on a transition the status file is written, then the fan switched. */
  function StepEffects(th: Thresholds, s: State, temp: real): seq<Effect>
  {
    match Decide(th, temp, s.fanOn)
    case TurnOn => [WriteStatus("1"), Switch(true)]
    case TurnOff => [WriteStatus("0"), Switch(false)]
    case Hold => []
  }

  /** The state after iterations that read `temps`, in order. */
  function RunState(th: Thresholds, s: State, temps: seq<real>): State
    decreases |temps|
  {
    if temps == [] then s else RunState(th, StepState(th, s, temps[0]), temps[1..])
  }

  /** The effects of those iterations, in order. */
  function RunEffects(th: Thresholds, s: State, temps: seq<real>): seq<Effect>
    decreases |temps|
  {
    if temps == [] then []
    else StepEffects(th, s, temps[0]) + RunEffects(th, StepState(th, s, temps[0]), temps[1..])
  }

  /** The configured thresholds pass the startup check. */
  lemma ConfiguredAccepted()
    ensures Accepted(Configured)
  {
  }

  /** An iteration either leaves fan and status file alone or flips the fan and writes the
      matching status; afterwards the fan runs exactly when it ran and the temperature is not below
      the off threshold, or it was off and the temperature is above the on threshold. */
  lemma StepCases(th: Thresholds, s: State, temp: real)
    ensures var r := StepState(th, s, temp);
      r == s || r == State(!s.fanOn, StatusText(!s.fanOn))
    ensures StepState(th, s, temp).fanOn <==> (if s.fanOn then temp >= th.off else temp > th.on)
  {
  }

  /** An iteration leaves everything alone exactly when the fan is on and the temperature has not
      dropped below the off threshold, or the fan is off and the temperature has not risen above
      the on threshold. */
  lemma HoldIff(th: Thresholds, s: State, temp: real)
    ensures StepState(th, s, temp) == s && StepEffects(th, s, temp) == []
        <==> (if s.fanOn then temp >= th.off else temp <= th.on)
  {
  }

  /** The thresholds themselves never trigger a transition: an off fan at exactly the on threshold
      stays off, and a running fan at exactly the off threshold keeps running. */
  lemma ThresholdsAreStrict(th: Thresholds, s: State)
    ensures !s.fanOn ==> StepState(th, s, th.on) == s
    ensures s.fanOn ==> StepState(th, s, th.off) == s
  {
  }

  /** Dead band: a temperature in the closed band between the thresholds changes neither the fan
      nor the status file, and causes no effect. */
  lemma DeadBand(th: Thresholds, s: State, temp: real)
    requires th.off <= temp <= th.on
    ensures StepState(th, s, temp) == s && StepEffects(th, s, temp) == []
  {
  }

  /** After any iteration the fan runs when it is hotter than the on threshold and is stopped when
      it is colder than the off threshold. */
  lemma Envelope(th: Thresholds, s: State, temp: real)
    requires Accepted(th)
    ensures temp > th.on ==> StepState(th, s, temp).fanOn
    ensures temp < th.off ==> !StepState(th, s, temp).fanOn
  {
  }

  /** An iteration makes at most one transition; a transition writes the new status and then
      switches the fan to the opposite state; without a transition nothing is written. */
  lemma AtMostOneTransition(th: Thresholds, s: State, temp: real)
    ensures var e := StepEffects(th, s, temp);
      e == [] || e == [WriteStatus(StatusText(!s.fanOn)), Switch(!s.fanOn)]
    ensures StepEffects(th, s, temp) == [] <==> StepState(th, s, temp).fanOn == s.fanOn
  {
  }

  /** An iteration keeps the status file reporting the fan state. */
  lemma StepMirrors(th: Thresholds, s: State, temp: real)
    requires Mirrors(s)
    ensures Mirrors(StepState(th, s, temp))
  {
  }

  /** Any number of iterations keeps the status file reporting the fan state. */
  lemma {:induction false} RunMirrors(th: Thresholds, s: State, temps: seq<real>)
    requires Mirrors(s)
    ensures Mirrors(RunState(th, s, temps))
    decreases |temps|
  {
    if temps != [] {
      StepMirrors(th, s, temps[0]);
      RunMirrors(th, StepState(th, s, temps[0]), temps[1..]);
    }
  }

  /** A run whose temperatures all lie in the dead band changes nothing and has no effect. */
  lemma {:induction false} RunDeadBand(th: Thresholds, s: State, temps: seq<real>)
    requires forall k :: 0 <= k < |temps| ==> th.off <= temps[k] <= th.on
    ensures RunState(th, s, temps) == s && RunEffects(th, s, temps) == []
    decreases |temps|
  {
    if temps != [] {
      DeadBand(th, s, temps[0]);
      RunDeadBand(th, s, temps[1..]);
    }
  }

  /** Effects that come in pairs, each writing the status of the opposite fan state and then
      switching the fan to it, starting from a fan in state `fanOn`. */
  ghost predicate Alternating(e: seq<Effect>, fanOn: bool)
    decreases |e|
  {
    e == [] ||
    (|e| >= 2 && e[0] == WriteStatus(StatusText(!fanOn)) && e[1] == Switch(!fanOn)
      && Alternating(e[2..], !fanOn))
  }

  /** Over a run, the status file is written exactly once per transition and just before it,
      transitions alternate between on and off, and the fan ends in its starting state exactly when
      the number of transitions is even. */
  lemma {:induction false} RunAlternates(th: Thresholds, s: State, temps: seq<real>)
    ensures Alternating(RunEffects(th, s, temps), s.fanOn)
    ensures |RunEffects(th, s, temps)| % 2 == 0
    ensures |RunEffects(th, s, temps)| % 4 == 0 <==> RunState(th, s, temps).fanOn == s.fanOn
    decreases |temps|
  {
    if temps != [] {
      var s' := StepState(th, s, temps[0]);
      var head := StepEffects(th, s, temps[0]);
      var tail := RunEffects(th, s', temps[1..]);
      RunAlternates(th, s', temps[1..]);
      AtMostOneTransition(th, s, temps[0]);
      assert RunEffects(th, s, temps) == head + tail;
      assert RunState(th, s, temps) == RunState(th, s', temps[1..]);
      if head != [] {
        assert s'.fanOn == !s.fanOn;
        assert (head + tail)[2..] == tail;
        var n := |tail|;
        assert |head + tail| == n + 2;
        assert (n + 2) % 4 == 0 <==> n % 4 != 0 by {
          assert n % 4 == 0 || n % 4 == 2;
        }
      } else {
        assert head + tail == tail;
      }
    }
  }

  /** Running one more iteration after a run. */
  lemma {:induction false} RunSnoc(th: Thresholds, s: State, temps: seq<real>, temp: real)
    ensures RunState(th, s, temps + [temp]) == StepState(th, RunState(th, s, temps), temp)
    ensures RunEffects(th, s, temps + [temp])
         == RunEffects(th, s, temps) + StepEffects(th, RunState(th, s, temps), temp)
    decreases |temps|
  {
    if temps == [] {
      assert temps + [temp] == [temp];
    } else {
      var s' := StepState(th, s, temps[0]);
      assert (temps + [temp])[1..] == temps[1..] + [temp];
      RunSnoc(th, s', temps[1..], temp);
      assert RunEffects(th, s, temps + [temp])
          == StepEffects(th, s, temps[0]) + RunEffects(th, s', temps[1..] + [temp]);
    }
  }

  /** Running one more iteration after a prefix of the temperatures. */
  lemma RunPrefix(th: Thresholds, s: State, temps: seq<real>, k: nat)
    requires k < |temps|
    ensures RunState(th, s, temps[..k + 1]) == StepState(th, RunState(th, s, temps[..k]), temps[k])
    ensures RunEffects(th, s, temps[..k + 1])
         == RunEffects(th, s, temps[..k]) + StepEffects(th, RunState(th, s, temps[..k]), temps[k])
  {
    assert temps[..k + 1] == temps[..k] + [temps[k]];
    RunSnoc(th, s, temps[..k], temps[k]);
  }

  /** A sample run: with the configured thresholds 55 and 45 and the fan starting
      off, the readings 30, 50, 56, 58, 50, 44, 46, 40 leave the status file reading
      0, 0, 1, 1, 1, 0, 0, 0 after each iteration. */
  lemma {:induction false} ScenarioStatuses(temps: seq<real>)
    requires temps == [30.0, 50.0, 56.0, 58.0, 50.0, 44.0, 46.0, 40.0]
    ensures forall k :: 0 <= k < 8 ==>
      RunState(Configured, Initial, temps[..k + 1]).status == ["0", "0", "1", "1", "1", "0", "0", "0"][k]
  {
    var on := State(true, "1");
    assert temps[..0] == [];
    RunPrefix(Configured, Initial, temps, 0);
    RunPrefix(Configured, Initial, temps, 1);
    RunPrefix(Configured, Initial, temps, 2);
    RunPrefix(Configured, Initial, temps, 3);
    RunPrefix(Configured, Initial, temps, 4);
    RunPrefix(Configured, Initial, temps, 5);
    RunPrefix(Configured, Initial, temps, 6);
    RunPrefix(Configured, Initial, temps, 7);
    assert RunState(Configured, Initial, temps[..1]) == Initial;
    assert RunState(Configured, Initial, temps[..2]) == Initial;
    assert RunState(Configured, Initial, temps[..3]) == on;
    assert RunState(Configured, Initial, temps[..4]) == on;
    assert RunState(Configured, Initial, temps[..5]) == on;
    assert RunState(Configured, Initial, temps[..6]) == Initial;
    assert RunState(Configured, Initial, temps[..7]) == Initial;
    assert RunState(Configured, Initial, temps[..8]) == Initial;
  }

  /** In the same scenario the only effects are switching the fan on at 56 and off at 44, each
      preceded by its status write, and the fan ends off. */
  lemma {:induction false} ScenarioEffects(temps: seq<real>)
    requires temps == [30.0, 50.0, 56.0, 58.0, 50.0, 44.0, 46.0, 40.0]
    ensures RunEffects(Configured, Initial, temps)
         == [WriteStatus("1"), Switch(true), WriteStatus("0"), Switch(false)]
    ensures RunState(Configured, Initial, temps) == Initial
  {
    var on := State(true, "1");
    var e := [WriteStatus("1"), Switch(true)];
    assert temps[..0] == [];
    RunPrefix(Configured, Initial, temps, 0);
    RunPrefix(Configured, Initial, temps, 1);
    RunPrefix(Configured, Initial, temps, 2);
    RunPrefix(Configured, Initial, temps, 3);
    RunPrefix(Configured, Initial, temps, 4);
    RunPrefix(Configured, Initial, temps, 5);
    RunPrefix(Configured, Initial, temps, 6);
    RunPrefix(Configured, Initial, temps, 7);
    assert RunState(Configured, Initial, temps[..2]) == Initial;
    assert RunEffects(Configured, Initial, temps[..2]) == [];
    assert RunState(Configured, Initial, temps[..5]) == on;
    assert RunEffects(Configured, Initial, temps[..5]) == e;
    assert RunState(Configured, Initial, temps[..8]) == Initial;
    assert RunEffects(Configured, Initial, temps[..8]) == e + [WriteStatus("0"), Switch(false)];
    assert temps[..8] == temps;
  }
}
