/** The `__main__` block of fancontrol.py: threshold validation, startup, and the polling loop that
    drives the fan and the status file. The GPIO line is the field `fanOn`, the status file the
    field `status`; `trace` records every status write and fan switch in the order they happen. */
module FanControl {
  import opened Wrappers
  import opened Temperature
  import opened Hysteresis

  /** `RuntimeError('OFF_THRESHOLD must be less than ON_THRESHOLD')`. */
  datatype StartupError = OffNotBelowOn

  /** Offsets an index found in a suffix that starts at `offset`. */
  function Shift(k: Option<nat>, offset: nat): Option<nat> {
    match k
    case None => None
    case Some(j) => Some(j + offset)
  }

  /** What `get_temp` returns for each output of the temperature command, in order. */
  function Readings(outputs: seq<string>): (readings: seq<Result<real, ParseError>>)
    ensures |readings| == |outputs|
    decreases |outputs|
  {
    if outputs == [] then [] else [GetTemp(outputs[0])] + Readings(outputs[1..])
  }

  /** The position of the first reading that failed, where the loop dies with the parse error. */
  function FirstFailure(readings: seq<Result<real, ParseError>>): (k: Option<nat>)
    ensures k.Some? ==> k.value < |readings| && readings[k.value].Failure?
    decreases |readings|
  {
    if readings == [] then None
    else if readings[0].Failure? then Some(0)
    else Shift(FirstFailure(readings[1..]), 1)
  }

  /** The fan and status file after the loop has gone through `readings`, up to the first failure. */
  function Monitored(th: Thresholds, s: State, readings: seq<Result<real, ParseError>>): State
    decreases |readings|
  {
    if readings == [] then s
    else match readings[0]
      case Failure(_) => s
      case Success(temp) => Monitored(th, StepState(th, s, temp), readings[1..])
  }

  /** The effects of the loop over the same readings. */
  function MonitoredEffects(th: Thresholds, s: State, readings: seq<Result<real, ParseError>>): seq<Effect>
    decreases |readings|
  {
    if readings == [] then []
    else match readings[0]
      case Failure(_) => []
      case Success(temp) =>
        StepEffects(th, s, temp) + MonitoredEffects(th, StepState(th, s, temp), readings[1..])
  }

  /** The first failure is a failure and every reading before it succeeded; with no failure, every
      reading succeeded. */
  lemma {:induction false} FirstFailureIsFirst(readings: seq<Result<real, ParseError>>)
    ensures match FirstFailure(readings)
      case Some(k) =>
        k < |readings| && readings[k].Failure?
        && forall j :: 0 <= j < k ==> readings[j].Success?
      case None => forall j :: 0 <= j < |readings| ==> readings[j].Success?
    decreases |readings|
  {
    if readings != [] && readings[0].Success? {
      FirstFailureIsFirst(readings[1..]);
      assert forall j :: 1 <= j < |readings| ==> readings[j] == readings[1..][j - 1];
    }
  }

  /** When every reading succeeds, the loop does what a run over the temperatures read does. */
  lemma {:induction false} MonitoredIsRun(th: Thresholds, s: State, readings: seq<Result<real, ParseError>>, temps: seq<real>)
    requires |temps| == |readings|
    requires forall k :: 0 <= k < |readings| ==> readings[k] == Success(temps[k])
    ensures FirstFailure(readings) == None
    ensures Monitored(th, s, readings) == RunState(th, s, temps)
    ensures MonitoredEffects(th, s, readings) == RunEffects(th, s, temps)
    decreases |readings|
  {
    if readings != [] {
      assert forall k :: 0 <= k < |readings| - 1 ==> readings[1..][k] == readings[k + 1] && temps[1..][k] == temps[k + 1];
      MonitoredIsRun(th, StepState(th, s, temps[0]), readings[1..], temps[1..]);
    }
  }

  /** A failed reading ends the loop: what comes after it is never looked at. */
  lemma {:induction false} MonitoredStopsAtFailure(th: Thresholds, s: State, readings: seq<Result<real, ParseError>>, k: nat)
    requires FirstFailure(readings) == Some(k)
    ensures k < |readings|
    ensures Monitored(th, s, readings) == Monitored(th, s, readings[..k])
    ensures MonitoredEffects(th, s, readings) == MonitoredEffects(th, s, readings[..k])
    decreases |readings|
  {
    if readings[0].Success? {
      var t := readings[0].value;
      assert FirstFailure(readings[1..]) == Some(k - 1);
      MonitoredStopsAtFailure(th, StepState(th, s, t), readings[1..], k - 1);
      assert readings[..k][1..] == readings[1..][..k - 1];
    }
  }

  /** The loop's outcome, from the temperatures it read before it stopped: it stops at the end of
      the readings or at the first failure, having run over every temperature before that. */
  lemma MonitoredUpTo(th: Thresholds, s: State, readings: seq<Result<real, ParseError>>, temps: seq<real>)
    requires |temps| <= |readings|
    requires forall j :: 0 <= j < |temps| ==> readings[j] == Success(temps[j])
    requires |temps| < |readings| ==> readings[|temps|].Failure?
    ensures FirstFailure(readings) == if |temps| < |readings| then Some(|temps|) else None
    ensures Monitored(th, s, readings) == RunState(th, s, temps)
    ensures MonitoredEffects(th, s, readings) == RunEffects(th, s, temps)
  {
    var i := |temps|;
    FirstFailureAt(readings, i);
    if i == |readings| {
      MonitoredIsRun(th, s, readings, temps);
    } else {
      MonitoredStopsAtFailure(th, s, readings, i);
      MonitoredIsRun(th, s, readings[..i], temps);
    }
  }

  /** Conversely, the first failure is found where the readings that all succeeded end. */
  lemma FirstFailureAt(readings: seq<Result<real, ParseError>>, i: nat)
    requires i <= |readings|
    requires forall j :: 0 <= j < i ==> readings[j].Success?
    requires i < |readings| ==> readings[i].Failure?
    ensures FirstFailure(readings) == if i < |readings| then Some(i) else None
  {
    FirstFailureIsFirst(readings);
  }

  /** One reading per output, each what `get_temp` makes of that output. */
  lemma {:induction false} ReadingsAt(outputs: seq<string>)
    ensures |Readings(outputs)| == |outputs|
    ensures forall i :: 0 <= i < |outputs| ==> Readings(outputs)[i] == GetTemp(outputs[i])
    decreases |outputs|
  {
    if outputs != [] {
      ReadingsAt(outputs[1..]);
      assert forall i :: 1 <= i < |outputs| ==> outputs[1..][i - 1] == outputs[i];
    }
  }

  /** Fed the outputs of the temperature command, the loop stops at the first output `get_temp`
      cannot parse, after every output before it parsed; it stops nowhere only if all parse. */
  lemma FirstUnparsable(outputs: seq<string>)
    ensures match FirstFailure(Readings(outputs))
      case Some(k) =>
        k < |outputs| && GetTemp(outputs[k]).Failure?
        && forall j :: 0 <= j < k ==> GetTemp(outputs[j]).Success?
      case None => forall j :: 0 <= j < |outputs| ==> GetTemp(outputs[j]).Success?
  {
    ReadingsAt(outputs);
    FirstFailureIsFirst(Readings(outputs));
  }

  class Controller {
    const thresholds: Thresholds
    var fanOn: bool
    var status: string
    ghost var trace: seq<Effect>

    /** The thresholds passed the startup check and the status file reports the fan state. */
    ghost predicate Valid()
      reads this
    {
      Accepted(thresholds) && Mirrors(Snapshot())
    }

    function Snapshot(): State
      reads this
    {
      State(fanOn, status)
    }

    /** `fan = OutputDevice(GPIO_PIN)`: the line starts low, and the status file still holds
        whatever an earlier run left in it. `Valid()` is deliberately not promised here: the
        status file reports the fan only once startup has written `"0"` to it, which `Launch`
        does next. */
    constructor (th: Thresholds, prior: string)
      ensures thresholds == th && !fanOn && status == prior && trace == []
    {
      thresholds := th;
      fanOn := false;
      status := prior;
      trace := [];
    }

    /** Overwrites the status file with `text`. */
    method Persist(text: string)
      modifies this
      ensures status == text && fanOn == old(fanOn)
      ensures trace == old(trace) + [WriteStatus(text)]
    {
      status := text;
      trace := trace + [WriteStatus(text)];
    }

    /** `fan.on()`. */
    method SwitchOn()
      modifies this
      ensures fanOn && status == old(status)
      ensures trace == old(trace) + [Switch(true)]
    {
      fanOn := true;
      trace := trace + [Switch(true)];
    }

    /** `fan.off()`. */
    method SwitchOff()
      modifies this
      ensures !fanOn && status == old(status)
      ensures trace == old(trace) + [Switch(false)]
    {
      fanOn := false;
      trace := trace + [Switch(false)];
    }

    /** One iteration of the loop, after the temperature has been read. */
    method Step(temp: real)
      requires Valid()
      modifies this
      ensures Valid()
      ensures Snapshot() == StepState(thresholds, old(Snapshot()), temp)
      ensures trace == old(trace) + StepEffects(thresholds, old(Snapshot()), temp)
    {
      if temp > thresholds.on && !fanOn {
        Persist("1");
        SwitchOn();
      } else if fanOn && temp < thresholds.off {
        Persist("0");
        SwitchOff();
      }
    }

    /** Iterations reading `temps` in turn: the unbounded loop cut to a finite sequence. */
    method Run(temps: seq<real>)
      requires Valid()
      modifies this
      ensures Valid()
      ensures Snapshot() == RunState(thresholds, old(Snapshot()), temps)
      ensures trace == old(trace) + RunEffects(thresholds, old(Snapshot()), temps)
    {
      ghost var start := Snapshot();
      var i := 0;
      while i < |temps|
        invariant 0 <= i <= |temps|
        invariant Valid()
        invariant Snapshot() == RunState(thresholds, start, temps[..i])
        invariant trace == old(trace) + RunEffects(thresholds, start, temps[..i])
      {
        RunSnoc(thresholds, start, temps[..i], temps[i]);
        assert temps[..i + 1] == temps[..i] + [temps[i]];
        Step(temps[i]);
        i := i + 1;
      }
      assert temps[..i] == temps;
    }

    /** The loop as the script runs it: iteration `i` gets the `i`-th result of `get_temp` (for the
        outputs of the temperature command these are `Readings(outputs)`) and steps on the
        temperature; the first result that is the parse error ends the loop, whose position is
        returned. */
    method Monitor(readings: seq<Result<real, ParseError>>) returns (failedAt: Option<nat>)
      requires Valid()
      modifies this
      ensures Valid()
      ensures failedAt == FirstFailure(readings)
      ensures Snapshot() == Monitored(thresholds, old(Snapshot()), readings)
      ensures trace == old(trace) + MonitoredEffects(thresholds, old(Snapshot()), readings)
    {
      ghost var start := Snapshot();
      ghost var temps: seq<real> := [];
      failedAt := None;
      var i := 0;
      while i < |readings|
        invariant 0 <= i <= |readings|
        invariant Valid()
        invariant |temps| == i && forall j :: 0 <= j < i ==> readings[j] == Success(temps[j])
        invariant Snapshot() == RunState(thresholds, start, temps)
        invariant trace == old(trace) + RunEffects(thresholds, start, temps)
      {
        var reading := readings[i];
        if reading.Failure? {
          failedAt := Some(i);
          break;
        }
        RunSnoc(thresholds, start, temps, reading.value);
        Step(reading.value);
        temps := temps + [reading.value];
        i := i + 1;
      }
      MonitoredUpTo(thresholds, start, readings, temps);
    }
  }

  /** Startup: the thresholds are checked before anything else, then the GPIO line is claimed and
      the status file is forced to `"0"`, whatever it held before. */
  method Launch(th: Thresholds, prior: string) returns (r: Result<Controller, StartupError>)
    ensures r.Failure? <==> !Accepted(th)
    ensures r.Failure? ==> r.error == OffNotBelowOn
    ensures r.Success? ==> fresh(r.value) && r.value.Valid() && r.value.thresholds == th
    ensures r.Success? ==> r.value.Snapshot() == Initial && r.value.trace == [WriteStatus("0")]
  {
    if th.off >= th.on {
      return Failure(OffNotBelowOn);
    }
    var c := new Controller(th, prior);
    c.Persist("0");
    return Success(c);
  }
}
