/**
 * MovingAverage<T, SIZE> (Source/MovingAverage.h): a ring buffer of the
 * last SIZE samples with a running sum, used for frame timings. Samples
 * are exact reals standing for the source's doubles.
 */
module MovingAverages {

  function Sum(s: seq<real>): real
  {
    if |s| == 0 then 0.0 else s[0] + Sum(s[1..])
  }

  lemma {:induction false} SumConcat(a: seq<real>, b: seq<real>)
    ensures Sum(a + b) == Sum(a) + Sum(b)
  {
    if |a| == 0 {
      assert a + b == b;
    } else {
      assert (a + b)[1..] == a[1..] + b;
      SumConcat(a[1..], b);
    }
  }

  /** Overwriting one sample changes the sum by the difference. */
  lemma SumUpdate(s: seq<real>, i: nat, v: real)
    requires i < |s|
    ensures Sum(s[i := v]) == Sum(s) - s[i] + v
  {
    assert s == s[..i] + ([s[i]] + s[i + 1..]);
    assert s[i := v] == s[..i] + ([v] + s[i + 1..]);
    SumConcat(s[..i], [s[i]] + s[i + 1..]);
    SumConcat([s[i]], s[i + 1..]);
    SumConcat(s[..i], [v] + s[i + 1..]);
    SumConcat([v], s[i + 1..]);
  }

  function Zeros(n: nat): (z: seq<real>)
    ensures |z| == n && forall i :: 0 <= i < n ==> z[i] == 0.0
  {
    seq(n, _ => 0.0)
  }

  lemma {:induction false} SumZeros(n: nat)
    ensures Sum(Zeros(n)) == 0.0
  {
    if n > 0 {
      assert Zeros(n)[1..] == Zeros(n - 1);
      SumZeros(n - 1);
    }
  }

  /**
   * The last `size` samples of `history`, oldest first, with zeros in
   * front while fewer than `size` samples have been added.
   */
  function Window(history: seq<real>, size: nat): (w: seq<real>)
    ensures |w| == size
  {
    (Zeros(size) + history)[|history|..]
  }

  /** Adding a sample drops the oldest entry of the window and appends the sample. */
  lemma WindowSnoc(history: seq<real>, v: real, size: nat)
    requires size > 0
    ensures Window(history + [v], size) == Window(history, size)[1..] + [v]
  {
    assert Zeros(size) + (history + [v]) == (Zeros(size) + history) + [v];
  }

  /**
   * The window as laid out in the ring: the slot `idx` to be overwritten
   * next holds the oldest sample, the slots after it the next oldest,
   * wrapping round to the newest just before `idx`.
   */
  function Rotated(w: seq<real>, idx: nat): (r: seq<real>)
    requires idx <= |w|
    ensures |r| == |w|
  {
    w[|w| - idx..] + w[..|w| - idx]
  }

  lemma RotatedSum(w: seq<real>, idx: nat)
    requires idx <= |w|
    ensures Sum(Rotated(w, idx)) == Sum(w)
  {
    var front, back := w[..|w| - idx], w[|w| - idx..];
    assert w == front + back;
    assert Rotated(w, idx) == back + front;
    SumConcat(back, front);
    SumConcat(front, back);
  }

  /**
   * Overwriting the oldest slot with a new sample and advancing the index
   * lays out the next window.
   */
  lemma RotatedStep(w: seq<real>, idx: nat, v: real)
    requires idx < |w|
    ensures Rotated(w, idx)[idx := v] == Rotated(w[1..] + [v], (idx + 1) % |w|)
  {
    var n := |w|;
    if idx + 1 < n {
      DivModUnique(idx + 1, n, 0, idx + 1);
      RotatedStepInside(w, idx, v);
    } else {
      DivModUnique(idx + 1, n, 1, 0);
      RotatedStepWrap(w, v);
    }
  }

  /** The overwritten slot is not the last one: the index moves one slot on. */
  lemma RotatedStepInside(w: seq<real>, idx: nat, v: real)
    requires idx + 1 < |w|
    ensures Rotated(w, idx)[idx := v] == Rotated(w[1..] + [v], idx + 1)
  {
    var n := |w|;
    var w' := w[1..] + [v];
    var newest, rest := w[n - idx..], w[1..n - idx];
    assert Rotated(w, idx) == newest + ([w[0]] + rest);
    assert Rotated(w, idx)[idx := v] == newest + ([v] + rest);
    assert w'[n - (idx + 1)..] == newest + [v];
    assert w'[..n - (idx + 1)] == rest;
  }

  /** The overwritten slot is the last one: the index wraps round to 0. */
  lemma RotatedStepWrap(w: seq<real>, v: real)
    requires |w| > 0
    ensures Rotated(w, |w| - 1)[|w| - 1 := v] == Rotated(w[1..] + [v], 0)
  {
    var w' := w[1..] + [v];
    assert Rotated(w, |w| - 1) == w[1..] + [w[0]];
    assert Rotated(w', 0) == w';
  }


  lemma ModSucc(a: nat, n: nat)
    requires n > 0
    ensures (a % n + 1) % n == (a + 1) % n
  {
    var q, r := a / n, a % n;
    assert a == q * n + r;
    if r + 1 < n {
      DivModUnique(a + 1, n, q, r + 1);
      DivModUnique(r + 1, n, 0, r + 1);
    } else {
      assert a + 1 == (q + 1) * n + 0;
      DivModUnique(a + 1, n, q + 1, 0);
      DivModUnique(r + 1, n, 1, 0);
    }
  }

  /** Quotient and remainder are unique: a remainder in 0..n-1 is a % n. */
  lemma DivModUnique(a: int, n: int, q: int, r: int)
    requires n > 0 && 0 <= r < n && a == q * n + r
    ensures a % n == r
  {
    var q', r' := a / n, a % n;
    assert a == q' * n + r' && 0 <= r' < n;
    var d := q - q';
    assert d * n == q * n - q' * n;
    assert d * n == r' - r;
    if d > 0 {
      MulAtLeast(d, n);
    } else if d < 0 {
      MulAtLeast(-d, n);
    }
  }

  lemma {:induction false} MulAtLeast(x: nat, n: nat)
    requires x >= 1
    ensures x * n >= n
    decreases x
  {
    if x > 1 {
      MulAtLeast(x - 1, n);
      assert x * n == (x - 1) * n + n;
    }
  }

  class MovingAverage {
    /** SIZE, the number of samples averaged. */
    const size: nat
    /** buf[SIZE]: the ring of samples; its identity never changes. */
    const buf: array<real>
    /** The next slot to overwrite. */
    var idx: nat
    /** The running sum of the ring. */
    var sum: real
    /** Every sample added since the last reset, oldest first. */
    ghost var history: seq<real>

    /**
     * The index is a slot and counts the samples added since the reset
     * modulo SIZE; the running sum is the sum of the ring; the ring holds
     * the last SIZE samples, the oldest at `idx`.
     */
    ghost predicate Valid()
      reads this, buf
    {
      && 0 < size && buf.Length == size && idx < size
      && idx == |history| % size
      && sum == Sum(buf[..])
      && buf[..] == Rotated(Window(history, size), idx)
    }

    /** MovingAverage(): allocates the ring and resets it. */
    constructor (size: nat)
      requires size > 0
      ensures Valid() && this.size == size && history == []
      ensures idx == 0 && sum == 0.0 && buf[..] == Zeros(size)
    {
      this.size := size;
      buf := new real[size];
      new;
      Reset();
    }

    /** reset: index and sum to zero, every slot to zero, no samples remembered. */
    method Reset()
      requires 0 < size && buf.Length == size
      modifies this, buf
      ensures Valid() && history == []
      ensures idx == 0 && sum == 0.0 && buf[..] == Zeros(size)
    {
      var i := 0;
      while i < size
        invariant i <= size
        invariant forall k :: 0 <= k < i ==> buf[k] == 0.0
      {
        buf[i] := 0.0;
        i := i + 1;
      }
      idx := 0;
      sum := 0.0;
      history := [];
      ghost var zeros := Zeros(size);
      assert buf[..] == zeros;
      SumZeros(size);
      DivModUnique(0, size, 0, 0);
      assert Window([], size) == zeros;
      assert Rotated(zeros, 0) == zeros;
    }

    /**
     * add: the running sum gains v and loses the overwritten sample, slot
     * `idx` alone takes v, and the index advances by one modulo SIZE.
     */
    method Add(v: real)
      requires Valid()
      modifies this, buf
      ensures Valid() && history == old(history) + [v]
      ensures buf[..] == old(buf[..])[old(idx) := v]
      ensures idx == (old(idx) + 1) % size
      ensures sum == old(sum) + v - old(buf[idx])
    {
      ghost var w := Window(history, size);
      SumUpdate(buf[..], idx, v);
      RotatedStep(w, idx, v);
      WindowSnoc(history, v, size);
      ModSucc(|history|, size);
      sum := sum + v;
      sum := sum - buf[idx];
      buf[idx] := v;
      idx := (idx + 1) % size;
      history := history + [v];
    }

    /**
     * get: the running sum divided by SIZE, which is the mean of the last
     * SIZE samples, counting missing samples as zero.
     */
    method Get() returns (r: real)
      requires Valid()
      ensures r == sum / (size as real)
      ensures r == Sum(Window(history, size)) / (size as real)
    {
      RotatedSum(Window(history, size), idx);
      r := sum / (size as real);
    }
  }
}
