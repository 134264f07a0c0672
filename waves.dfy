/** The waveform generator: the two oscillators, the key-to-frequency mapping
    and the batch renderer that fills one note's sample buffer.

    Floating point is modelled by exact reals. The C maths library functions
    the oscillators call (`sin` and `powf(2, .)`) are not defined here; they
    are handed in as a `MathLib` value, so every statement below holds for any
    implementation of them (and, where said, for any `sin` bounded by 1). */
module Waves {

  /** The maths library functions the generator calls: `sin` and `p |-> powf(2, p)`. */
  datatype MathLib = MathLib(sin: real -> real, exp2: real -> real)

  /** What the model assumes of `sin` where a bound is claimed: it stays in [-1, 1]. */
  ghost predicate SinBounded(lib: MathLib)
  {
    forall x: real :: -1.0 <= lib.sin(x) <= 1.0
  }

  /** The two wave kinds of the source's enum. */
  const WaveSine: int := 0
  const WaveSaw: int := 1

  /** Frequency of piano key `n`: 440 Hz times 2 to the power (n - 49) / 12. */
  function KeyToFrequency(lib: MathLib, n: int): (f: real)
    ensures lib.exp2(0.0) == 1.0 && n == 49 ==> f == 440.0
    ensures n == 49 ==> f == 440.0 * lib.exp2(0.0)
    ensures n == 61 ==> f == 440.0 * lib.exp2(1.0)
  {
    var p := (n as real - 49.0) / 12.0;
    440.0 * lib.exp2(p)
  }

  /** What the model assumes of `powf(2, .)` where an octave is claimed: one
      more in the exponent doubles the result. */
  ghost predicate Exp2Doubles(lib: MathLib)
  {
    forall p: real :: lib.exp2(p + 1.0) == 2.0 * lib.exp2(p)
  }

  /** Twelve keys up is one octave up: the frequency doubles. */
  lemma KeyOctave(lib: MathLib, n: int)
    requires Exp2Doubles(lib)
    ensures KeyToFrequency(lib, n + 12) == 2.0 * KeyToFrequency(lib, n)
  {
    var p := (n as real - 49.0) / 12.0;
    assert ((n + 12) as real - 49.0) / 12.0 == p + 1.0;
    assert lib.exp2(p + 1.0) == 2.0 * lib.exp2(p);
  }

  /** Sawtooth: the fractional part of t * f, shifted down by one half. */
  function Saw(t: real, f: real): (v: real)
    ensures -0.5 <= v < 0.5
  {
    var x := t * f;
    x - x.Floor as real - 0.5
  }

  /** The sawtooth repeats after one period 1 / f. */
  lemma SawPeriodic(t: real, f: real)
    requires f != 0.0
    ensures Saw(t + 1.0 / f, f) == Saw(t, f)
  {
    var x := t * f;
    assert (t + 1.0 / f) * f == x + 1.0;
    assert (x + 1.0).Floor == x.Floor + 1;
  }

  /** Sine oscillator with a DC offset: 0.5 * (1 + sin(f * t)); frequency
      multiplies time directly, without 2 * pi. */
  function Sine(lib: MathLib, t: real, f: real): (v: real)
    ensures SinBounded(lib) ==> 0.0 <= v <= 1.0
  {
    0.5 * (1.0 + lib.sin(f * t))
  }

  /** The `switch` of generate_samples: the sine for WaveSine, the sawtooth
      for WaveSaw and for every other kind. */
  function Wave(lib: MathLib, kind: int, t: real, f: real): (v: real)
    ensures SinBounded(lib) ==> -0.5 <= v <= 1.0
  {
    if kind == WaveSine then Sine(lib, t, f) else Saw(t, f)
  }

  /** Absolute time of sample `i` of a buffer that starts at `t`: t + (1 / rate) * i. */
  function SampleTime(t: real, rate: nat, i: nat): (st: real)
    requires rate > 0
    ensures (st - t) * rate as real == i as real
  {
    t + (1.0 / rate as real) * i as real
  }

  /** Scaling a wave value in [-0.5, 1] by a non-negative amplitude. */
  lemma ScaledWaveBound(a: real, v: real)
    requires 0.0 <= a && -0.5 <= v <= 1.0
    ensures -0.5 * a <= a * v <= a
  {
    assert a * (v + 0.5) >= 0.0;
    assert a * (1.0 - v) >= 0.0;
  }

  /** The `s` samples generate_samples writes: sample i is the wave of kind
      `kind` at SampleTime(t, rate, i) and frequency f, scaled by a. */
  function Samples(lib: MathLib, kind: int, t: real, f: real, a: real, rate: nat, s: nat): (o: seq<real>)
    requires s > 0 ==> rate > 0
    ensures |o| == s
    ensures SinBounded(lib) && 0.0 <= a ==> forall i :: 0 <= i < s ==> -0.5 * a <= o[i] <= a
  {
    var o := seq(s, i requires 0 <= i < s => a * Wave(lib, kind, SampleTime(t, rate, i), f));
    assert SinBounded(lib) && 0.0 <= a ==> forall i :: 0 <= i < s ==> -0.5 * a <= o[i] <= a by {
      if SinBounded(lib) && 0.0 <= a {
        forall i | 0 <= i < s
          ensures -0.5 * a <= o[i] <= a
        {
          var v := Wave(lib, kind, SampleTime(t, rate, i), f);
          assert o[i] == a * v;
          ScaledWaveBound(a, v);
        }
      }
    }
    o
  }

  /** generate_samples: fills o[0 .. s-1] with the note's samples and leaves
      the rest of `o` alone. */
  method GenerateSamples(o: array<real>, lib: MathLib, kind: int, t: real, f: real, a: real, rate: nat, s: nat)
    requires s <= o.Length
    requires s > 0 ==> rate > 0
    modifies o
    ensures o[..s] == Samples(lib, kind, t, f, a, rate, s)
    ensures forall i :: 0 <= i < s ==> o[i] == a * Wave(lib, kind, SampleTime(t, rate, i), f)
    ensures o[s..] == old(o[s..])
  {
    ghost var want := Samples(lib, kind, t, f, a, rate, s);
    for i := 0 to s
      invariant forall j :: 0 <= j < i ==> o[j] == want[j]
      invariant o[i..] == old(o[i..])
    {
      var rt := SampleTime(t, rate, i);
      var x: real;
      if kind == WaveSine {
        x := Sine(lib, rt, f);
      } else {
        x := Saw(rt, f);
      }
      x := x * a;
      o[i] := x;
    }
  }
}
