/** The PID controller of arm_math.h, with its floats idealised as reals. */
module Pid {
  /** The instance structure: the derived gains, and the last two inputs and the last output. */
  datatype Instance = Instance(a0: real, a1: real, a2: real, x1: real, x2: real, y1: real)

  /** The documented gains, from zero state. */
  function Init(kp: real, ki: real, kd: real): Instance {
    Instance(kp + ki + kd, -kp - 2.0 * kd, kd, 0.0, 0.0, 0.0)
  }

  function Process(s: Instance, x: real): Instance {
    s.(x1 := x, x2 := s.x1, y1 := s.a0 * x + s.a1 * s.x1 + s.a2 * s.x2 + s.y1)
  }

  function ProcessAll(s: Instance, xs: seq<real>): Instance {
    if xs == [] then s else Process(ProcessAll(s, xs[..|xs| - 1]), xs[|xs| - 1])
  }

  function Sum(xs: seq<real>): real {
    if xs == [] then 0.0 else Sum(xs[..|xs| - 1]) + xs[|xs| - 1]
  }

  /** Input `i` before the last one, zero before the first. */
  function Recent(xs: seq<real>, i: nat): real { if i < |xs| then xs[|xs| - 1 - i] else 0.0 }

  /** The textbook controller: proportional to the error, its sum and its difference. */
  function Positional(kp: real, ki: real, kd: real, xs: seq<real>): real {
    kp * Recent(xs, 0) + ki * Sum(xs) + kd * (Recent(xs, 0) - Recent(xs, 1))
  }

  lemma Increment(kp: real, ki: real, kd: real, sum: real, x: real, x1: real, x2: real)
    ensures (kp + ki + kd) * x + (-kp - 2.0 * kd) * x1 + kd * x2 + (kp * x1 + ki * sum + kd * (x1 - x2))
         == kp * x + ki * (sum + x) + kd * (x - x1)
  {
  }

  /** The incremental form computes the positional one, over every sequence of inputs. */
  lemma {:induction false} IncrementalIsPositional(kp: real, ki: real, kd: real, xs: seq<real>)
    ensures var s := ProcessAll(Init(kp, ki, kd), xs);
      && s == Init(kp, ki, kd).(x1 := Recent(xs, 0), x2 := Recent(xs, 1), y1 := s.y1)
      && s.y1 == Positional(kp, ki, kd, xs)
    decreases |xs|
  {
    if xs == [] {
    } else {
      var ys, x := xs[..|xs| - 1], xs[|xs| - 1];
      IncrementalIsPositional(kp, ki, kd, ys);
      Increment(kp, ki, kd, Sum(ys), x, Recent(ys, 0), Recent(ys, 1));
    }
  }

  /** arm_pid_f32 over the state array it updates. */
  class PidF32 {
    const a0: real
    const a1: real
    const a2: real
    const state: array<real>

    ghost predicate Valid() { state.Length == 3 }

    ghost function View(): Instance
      requires Valid()
      reads state
    {
      Instance(a0, a1, a2, state[0], state[1], state[2])
    }

    constructor (kp: real, ki: real, kd: real)
      ensures Valid() && fresh(state) && View() == Init(kp, ki, kd)
    {
      a0, a1, a2 := kp + ki + kd, -kp - 2.0 * kd, kd;
      state := new real[3](_ => 0.0);
    }

    method Pid(x: real) returns (out: real)
      requires Valid()
      modifies state
      ensures View() == Process(old(View()), x) && out == View().y1
    {
      out := a0 * x + a1 * state[0] + a2 * state[1] + state[2];
      state[1] := state[0];
      state[0] := x;
      state[2] := out;
    }
  }
}
