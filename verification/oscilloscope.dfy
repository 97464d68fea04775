/** `Oscilloscope`: a beat counter at a fixed frequency per second. Each beat numbers itself from
    one up to the frequency and then starts at one again, and waits until its scheduled time
    `baseTime + iteration * timeStep` when called early. The clock is a parameter and the wait
    is returned as a duration in nanoseconds. */
module Oscilloscope {
  import opened Results

  /** Nanoseconds per second. */
  const Second: int := 1_000_000_000

  const Two31: int := 0x8000_0000
  const Two32: int := 0x1_0000_0000

  function Abs(i: int): (a: nat)
    ensures a == i || a == -i
  {
    if i < 0 then -i else i
  }

  /** Java's `/` on integers: the quotient rounded toward zero. */
  function JavaDiv(a: int, b: int): (q: int)
    requires b != 0
    ensures Abs(q) == Abs(a) / Abs(b)
    ensures q < 0 ==> (a < 0) != (b < 0)
  {
    var m := Abs(a) / Abs(b);
    DivNonNegative(Abs(a), Abs(b));
    if (a < 0) != (b < 0) then -m else m
  }

  lemma DivNonNegative(x: nat, y: nat)
    requires y > 0
    ensures x / y >= 0
  {
  }

  /** Java's `%` on integers: the remainder takes the sign of the dividend. */
  function JavaRem(a: int, b: int): (r: int)
    requires b != 0
    ensures a >= 0 ==> 0 <= r < Abs(b)
    ensures a < 0 ==> -(Abs(b) as int) < r <= 0
  {
    var m := Abs(a) % Abs(b);
    if a < 0 then -m else m
  }

  /** The two agree as section 15.17.3 of the Java Language Specification requires:
      `(a / b) * b + a % b == a`. */
  lemma JavaDivRem(a: int, b: int)
    requires b != 0
    ensures JavaDiv(a, b) * b + JavaRem(a, b) == a
  {
    var m, r := Abs(a) / Abs(b), Abs(a) % Abs(b);
    assert Abs(a) == m * Abs(b) + r;
    var q := if (a < 0) != (b < 0) then -m else m;
    assert JavaDiv(a, b) == q;
    assert JavaRem(a, b) == if a < 0 then -r else r;
    if b < 0 {
      MulNeg(m, b);
    }
    if a < 0 {
      assert -a == m * Abs(b) + r;
    }
  }

  lemma MulNeg(m: int, b: int)
    ensures m * -b == -(m * b) && -m * b == -(m * b)
  {
  }

  /** For a non-negative dividend Java's remainder is the mathematical one. */
  lemma JavaRemNonNegative(a: nat, b: int)
    requires b != 0
    ensures JavaRem(a, b) == a % Abs(b)
  {
  }

  /** The remainder of a successor: one more, or zero after the last value of the cycle. */
  lemma ModSucc(n: nat, f: int)
    requires f > 0
    ensures (n + 1) % f == if n % f == f - 1 then 0 else n % f + 1
  {
    var q, r := n / f, n % f;
    assert n == q * f + r;
    if r == f - 1 {
      assert n + 1 == (q + 1) * f + 0;
      ModUnique(n + 1, f, q + 1, 0);
    } else {
      assert n + 1 == q * f + (r + 1);
      ModUnique(n + 1, f, q, r + 1);
    }
  }

  /** A quotient and remainder in range are the ones `/` and `%` give. */
  lemma ModUnique(a: nat, f: int, q: int, r: int)
    requires f > 0 && 0 <= r < f && a == q * f + r
    ensures a % f == r
  {
    var q', r' := a / f, a % f;
    assert a == q' * f + r';
    if q > q' {
      MulAtLeast(q - q', f);
    } else if q < q' {
      MulAtLeast(q' - q, f);
    }
  }

  lemma MulAtLeast(d: int, f: int)
    requires d >= 1 && f > 0
    ensures d * f >= f
  {
    assert d * f == (d - 1) * f + f;
  }

  predicate IsInt32(i: int) {
    -Two31 <= i < Two31
  }

  /** A Java `int` result: the value modulo 2^32, read back as a signed number. */
  function Wrap32(i: int): (w: int)
    ensures IsInt32(w) && (w - i) % Two32 == 0
    ensures IsInt32(i) ==> w == i
  {
    (i + Two31) % Two32 - Two31
  }

  /** The state: frequency, nanoseconds between beats, beats given since the start, start time. */
  datatype Scope = Scope(frequency: int, timeStep: int, iteration: int, baseTime: int)

  /** The states the constructor and the operations can reach. */
  predicate Valid(o: Scope) {
    o.frequency != 0 && o.timeStep == JavaDiv(Second, o.frequency) && o.iteration >= 0
  }

  /** `new Oscilloscope(frequency)` at time `now`; a frequency of zero fails on the division. */
  function Create(frequency: int, now: int): (r: Option<Scope>)
    ensures r.Some? <==> frequency != 0
    ensures r.Some? ==> Valid(r.value) && r.value.iteration == 0 && r.value.baseTime == now
    ensures r.Some? ==> r.value.frequency == frequency
    ensures frequency > 0 && r.Some? ==> r.value.timeStep == Second / frequency
  {
    if frequency == 0 then None
    else Some(Scope(frequency, JavaDiv(Second, frequency), 0, now))
  }

  /** `reset()`: the count starts again at time `now`. */
  function Reset(o: Scope, now: int): (r: Scope)
    requires Valid(o)
    ensures Valid(r) && r.iteration == 0 && r.baseTime == now
    ensures r.frequency == o.frequency && r.timeStep == o.timeStep
  {
    o.(iteration := 0, baseTime := now)
  }

  /** `willRestart()`: the next beat is number one. */
  predicate WillRestart(o: Scope)
    requires o.frequency != 0
  {
    JavaRem(o.iteration, o.frequency) == 0
  }

  /** The time at which the next beat is due. */
  function NextSend(o: Scope): int {
    o.baseTime + o.iteration * o.timeStep
  }

  /** `beat()` at time `now`: the beat number, the next state and the time slept (zero when the
      beat is already due). */
  function Beat(o: Scope, now: int): (out: (int, Scope, int))
    requires Valid(o)
    ensures 1 <= out.0 <= Abs(o.frequency)
    ensures out.0 - 1 == o.iteration % Abs(o.frequency)
    ensures Valid(out.1) && out.1 == o.(iteration := o.iteration + 1)
    ensures out.2 >= 0 && (out.2 > 0 <==> now < NextSend(o))
    ensures out.2 > 0 ==> now + out.2 == NextSend(o)
  {
    var nextSend := NextSend(o);
    var sleep := if now < nextSend then nextSend - now else 0;
    JavaRemNonNegative(o.iteration, o.frequency);
    (JavaRem(o.iteration, o.frequency) + 1, o.(iteration := o.iteration + 1), sleep)
  }

  /** The next beat is number one exactly when the oscilloscope will restart, and the beat after
      the last number of a cycle restarts. */
  lemma WillRestartIsBeatOne(o: Scope, now: int)
    requires Valid(o)
    ensures WillRestart(o) <==> Beat(o, now).0 == 1
    ensures Beat(o, now).0 == Abs(o.frequency) ==> WillRestart(Beat(o, now).1)
  {
    JavaRemNonNegative(o.iteration, o.frequency);
    JavaRemNonNegative(o.iteration + 1, o.frequency);
    ModSucc(o.iteration, Abs(o.frequency));
  }

  /** A fresh or reset oscilloscope will restart. */
  lemma FreshWillRestart(frequency: int, now: int, o: Scope)
    requires frequency != 0 && Valid(o)
    ensures WillRestart(Create(frequency, now).value)
    ensures WillRestart(Reset(o, now))
  {
    JavaRemNonNegative(0, frequency);
    JavaRemNonNegative(0, o.frequency);
  }

  /** The beat numbers of successive beats at the given times, and the state after them. */
  function Beats(o: Scope, times: seq<int>): (r: (seq<int>, Scope))
    requires Valid(o)
    ensures |r.0| == |times| && Valid(r.1)
    ensures r.1 == o.(iteration := o.iteration + |times|)
    decreases |times|
  {
    if |times| == 0 then ([], o)
    else
      var (n, o', _) := Beat(o, times[0]);
      var (rest, last) := Beats(o', times[1..]);
      ([n] + rest, last)
  }

  /** Successive beats count up to the frequency and start at one again. */
  lemma {:induction false} BeatsCycle(o: Scope, times: seq<int>)
    requires Valid(o)
    ensures forall k :: 0 <= k < |times| ==> Beats(o, times).0[k] == (o.iteration + k) % Abs(o.frequency) + 1
    decreases |times|
  {
    if |times| > 0 {
      var (n, o', _) := Beat(o, times[0]);
      BeatsCycle(o', times[1..]);
      var r := Beats(o, times).0;
      assert r == [n] + Beats(o', times[1..]).0;
      forall k | 0 <= k < |times|
        ensures r[k] == (o.iteration + k) % Abs(o.frequency) + 1
      {
        if k > 0 {
          assert r[k] == Beats(o', times[1..]).0[k - 1];
        }
      }
    }
  }

  /** From construction, the beats are 1, 2, …, frequency, 1, 2, … for positive frequencies. */
  lemma FreshBeats(frequency: int, now: int, times: seq<int>)
    requires frequency > 0
    ensures forall k :: 0 <= k < |times| ==> Beats(Create(frequency, now).value, times).0[k] == k % frequency + 1
  {
    BeatsCycle(Create(frequency, now).value, times);
  }

  /** `beat()` as the source writes it: `iteration` is a Java `int`, so `iteration++` wraps to
      -2^31 after 2^31 - 1, and the remainder of a negative count is negative. */
  function BeatAsWritten(o: Scope, now: int): (out: (int, Scope, int))
    requires o.frequency != 0 && IsInt32(o.iteration)
    ensures IsInt32(out.1.iteration) && out.1 == o.(iteration := Wrap32(o.iteration + 1))
    ensures out.0 == JavaRem(o.iteration, o.frequency) + 1
  {
    var nextSend := NextSend(o);
    var sleep := if now < nextSend then nextSend - now else 0;
    (JavaRem(o.iteration, o.frequency) + 1, o.(iteration := Wrap32(o.iteration + 1)), sleep)
  }

  /** Until the count reaches 2^31 - 1 the source and the corrected beat agree. */
  lemma AsWrittenAgrees(o: Scope, now: int)
    requires Valid(o) && o.iteration + 1 < Two31
    ensures BeatAsWritten(o, now) == Beat(o, now)
  {
  }

  /** At 1000 beats per second, the beat after the 2^31-th is numbered -647: the count wrapped to
      -2^31 and -2^31 % 1000 is -648 in Java. */
  lemma WrappedBeatIsNegative(now: int)
    ensures var o := Scope(1000, JavaDiv(Second, 1000), Two31 - 1, 0);
      var (n1, o1, _) := BeatAsWritten(o, now);
      n1 == 648 && o1.iteration == -Two31 && BeatAsWritten(o1, now).0 == -647
  {
    assert (Two31 - 1) % 1000 == 647;
    assert Two31 % 1000 == 648;
  }
}
