/** The FFTW wrapper of the calibration tool: a forward real-to-complex transform that
    returns the N/2+1 non-redundant coefficients, an inverse transform normalised by N,
    the coefficient magnitudes, and a low-pass filter that zeroes every coefficient from
    the cutoff index on. FFTW's own numerics stay abstract: a plan is modelled by the
    value it writes at each index of its output buffer. */
module Spectrum {

  datatype Complex = Complex(re: real, im: real)

  const Zero := Complex(0.0, 0.0)

  /** Coefficient `k` that an r2c plan writes for the samples in its input buffer. */
  type R2CPlan = (seq<real>, nat) -> Complex

  /** Sample `j` that a c2r plan writes, before normalisation, for its input buffer. */
  type C2RPlan = (seq<Complex>, nat) -> real

  function Zeros(n: nat): (r: seq<Complex>)
    ensures |r| == n && forall i :: 0 <= i < n ==> r[i] == Zero
  {
    seq(n, _ => Zero)
  }

  /** The effect of filling `input | std::views::drop(cutoff)` with zero: the first
      `cutoff` coefficients are kept and the rest are dropped-to-zero. */
  function LowPass(v: seq<Complex>, cutoff: nat): (r: seq<Complex>)
    ensures |r| == |v|
    ensures forall i :: 0 <= i < |v| ==> r[i] == (if i < cutoff then v[i] else Zero)
  {
    if cutoff >= |v| then v else v[..cutoff] + Zeros(|v| - cutoff)
  }

  /** A cutoff at or past the end keeps the whole spectrum. */
  lemma LowPassBeyondEnd(v: seq<Complex>, cutoff: nat)
    requires cutoff >= |v|
    ensures LowPass(v, cutoff) == v
  {
  }

  /** A zero cutoff clears every coefficient. */
  lemma LowPassZeroCutoff(v: seq<Complex>)
    ensures LowPass(v, 0) == Zeros(|v|)
  {
    assert forall i :: 0 <= i < |v| ==> LowPass(v, 0)[i] == Zeros(|v|)[i];
  }

  /** Filtering twice with the same cutoff is filtering once. */
  lemma LowPassIdempotent(v: seq<Complex>, cutoff: nat)
    ensures LowPass(LowPass(v, cutoff), cutoff) == LowPass(v, cutoff)
  {
    var once := LowPass(v, cutoff);
    assert forall i :: 0 <= i < |v| ==> LowPass(once, cutoff)[i] == once[i];
  }

  /** Two filters in a row act as one filter with the smaller cutoff. */
  lemma LowPassCompose(v: seq<Complex>, c1: nat, c2: nat)
    ensures LowPass(LowPass(v, c1), c2) == LowPass(v, if c1 <= c2 then c1 else c2)
  {
    var m := if c1 <= c2 then c1 else c2;
    assert forall i :: 0 <= i < |v| ==> LowPass(LowPass(v, c1), c2)[i] == LowPass(v, m)[i];
  }

  /** The magnitude of every coefficient, in order. */
  function Magnitudes(s: seq<Complex>, magnitude: Complex -> real): seq<real> {
    seq(|s|, i requires 0 <= i < |s| => magnitude(s[i]))
  }

  /** The half spectrum a forward plan of length `n` yields for `x`. */
  function Forward(n: nat, plan: R2CPlan, x: seq<real>): seq<Complex> {
    seq(n / 2 + 1, (k: int) requires 0 <= k => plan(x, k))
  }

  /** The `n` normalised samples an inverse plan yields; only the first n/2+1
      coefficients of `spectrum` are given to the plan. */
  function Inverse(n: nat, plan: C2RPlan, spectrum: seq<Complex>): seq<real>
    requires |spectrum| >= n / 2 + 1
  {
    seq(n, j requires 0 <= j < n => plan(spectrum[..n / 2 + 1], j) / (n as real))
  }

  /** Coefficients past the first n/2+1 never reach the inverse plan. */
  lemma InverseIgnoresTail(n: nat, plan: C2RPlan, s: seq<Complex>, t: seq<Complex>)
    requires |s| >= n / 2 + 1 && |t| >= n / 2 + 1
    requires s[..n / 2 + 1] == t[..n / 2 + 1]
    ensures Inverse(n, plan, s) == Inverse(n, plan, t)
  {
  }

  class FFT {
    const N: nat
    const plan: R2CPlan
    const inBuf: array<real>
    const outBuf: array<Complex>

    ghost predicate Valid() {
      inBuf.Length == N && outBuf.Length == N / 2 + 1
    }

    /** FFT(n): allocates the n-sample input buffer and the n/2+1-coefficient output
        buffer the plan works on. */
    constructor (n: nat, plan: R2CPlan)
      ensures Valid() && N == n && this.plan == plan
      ensures fresh(inBuf) && fresh(outBuf)
    {
      N := n;
      this.plan := plan;
      inBuf := new real[n];
      outBuf := new Complex[n / 2 + 1];
    }

    /** fftw_execute: the plan overwrites the output buffer with the transform of the
        input buffer. */
    method Execute()
      requires Valid()
      modifies outBuf
      ensures forall k :: 0 <= k < outBuf.Length ==> outBuf[k] == plan(inBuf[..], k)
    {
      var input := inBuf[..];
      for k := 0 to outBuf.Length
        invariant forall j :: 0 <= j < k ==> outBuf[j] == plan(input, j)
      {
        outBuf[k] := plan(input, k);
      }
    }

    /** Copies the N samples into the plan's input, runs it and copies the N/2+1
        output coefficients, in index order, into a new vector. */
    method Transform(input: seq<real>) returns (output: seq<Complex>)
      requires Valid() && |input| == N
      modifies inBuf, outBuf
      ensures |output| == N / 2 + 1
      ensures forall k :: 0 <= k < |output| ==> output[k] == plan(input, k)
      ensures output == Forward(N, plan, input)
    {
      for i := 0 to N
        invariant forall j :: 0 <= j < i ==> inBuf[j] == input[j]
      {
        inBuf[i] := input[i];
      }
      assert inBuf[..] == input;
      Execute();
      var spectrum := outBuf[..];
      assert forall k :: 0 <= k < |spectrum| ==> spectrum[k] == plan(input, k);
      var result := new Complex[N / 2 + 1];
      for k := 0 to N / 2 + 1
        invariant forall j :: 0 <= j < k ==> result[j] == spectrum[j]
      {
        result[k] := Complex(spectrum[k].re, spectrum[k].im);
      }
      output := result[..];
      assert forall k :: 0 <= k < |output| ==> output[k] == spectrum[k];
    }

    /** The magnitude of every coefficient, in order; `magnitude` stands for std::abs. */
    static method GetAbs(input: seq<Complex>, magnitude: Complex -> real) returns (r: seq<real>)
      ensures |r| == |input|
      ensures forall i :: 0 <= i < |input| ==> r[i] == magnitude(input[i])
      ensures r == Magnitudes(input, magnitude)
    {
      r := [];
      for i := 0 to |input|
        invariant |r| == i
        invariant forall j :: 0 <= j < i ==> r[j] == magnitude(input[j])
      {
        r := r + [magnitude(input[i])];
      }
    }

    /** Zeroes, in place, every coefficient from index `cutoff` on. */
    static method ApplyLowPassFilter(v: array<Complex>, cutoff: nat)
      modifies v
      ensures v[..] == LowPass(old(v[..]), cutoff)
    {
      var i := cutoff;
      while i < v.Length
        invariant cutoff <= i || v.Length <= cutoff
        invariant forall j :: 0 <= j < v.Length ==>
          v[j] == (if cutoff <= j < i then Zero else old(v[j]))
      {
        v[i] := Zero;
        i := i + 1;
      }
    }
  }

  class IFFT {
    const N: nat
    const plan: C2RPlan
    const inBuf: array<Complex>
    const outBuf: array<real>

    ghost predicate Valid() {
      inBuf.Length == N / 2 + 1 && outBuf.Length == N
    }

    /** IFFT(n): allocates the n/2+1-coefficient input buffer and the n-sample output
        buffer the plan works on. */
    constructor (n: nat, plan: C2RPlan)
      ensures Valid() && N == n && this.plan == plan
      ensures fresh(inBuf) && fresh(outBuf)
    {
      N := n;
      this.plan := plan;
      inBuf := new Complex[n / 2 + 1];
      outBuf := new real[n];
    }

    /** fftw_execute: the plan overwrites the output buffer with the unnormalised
        inverse of the input buffer. A complex-to-real plan may destroy its input
        (FFTW's default for this kind), so the input buffer is in the frame and
        promised nothing afterwards. */
    method Execute()
      requires Valid()
      modifies inBuf, outBuf
      ensures forall j :: 0 <= j < outBuf.Length ==> outBuf[j] == plan(old(inBuf[..]), j)
    {
      var input := inBuf[..];
      for j := 0 to outBuf.Length
        modifies outBuf
        invariant forall i :: 0 <= i < j ==> outBuf[i] == plan(input, i)
      {
        outBuf[j] := plan(input, j);
      }
    }

    /** Copies the first N/2+1 coefficients into the plan's input, runs it and returns
        the N output samples, each divided by N. */
    method Transform(input: seq<Complex>) returns (output: seq<real>)
      requires Valid() && |input| >= N / 2 + 1
      modifies inBuf, outBuf
      ensures |output| == N
      ensures forall j :: 0 <= j < N ==> output[j] == plan(input[..N / 2 + 1], j) / (N as real)
      ensures output == Inverse(N, plan, input)
    {
      for i := 0 to N / 2 + 1
        invariant forall j :: 0 <= j < i ==> inBuf[j] == input[j]
      {
        inBuf[i] := Complex(input[i].re, input[i].im);
      }
      ghost var given := input[..N / 2 + 1];
      assert inBuf[..] == given;
      Execute();
      var raw := outBuf[..];
      assert forall j :: 0 <= j < |raw| ==> raw[j] == plan(given, j);
      var result := new real[N];
      for j := 0 to N
        invariant forall i :: 0 <= i < j ==> result[i] == raw[i] / (N as real)
      {
        result[j] := raw[j] / (N as real);
      }
      output := result[..];
      assert forall j :: 0 <= j < N ==> output[j] == raw[j] / (N as real);
    }
  }
}
