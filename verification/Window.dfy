/** The sliding window in an oversized buffer: src/modemstuff/window.c.

    The window moves to the right through the buffer and is copied back to its beginning when it reaches the
    end.  The copy takes the size - 1 samples that stay in the window; the slot after them, which the code
    copies too, is overwritten at once. */
module Window {
  function Zeros(n: nat): (r: seq<real>)
    ensures |r| == n
  {
    seq(n, i => 0.0)
  }

  /** The reference: the last `size` values of zeros followed by everything pushed. */
  function LastValues(history: seq<real>, size: nat): (r: seq<real>)
    ensures |r| == size
  {
    (Zeros(size) + history)[|history|..]
  }

  /** Once enough has been pushed, these are the last values pushed. */
  lemma LastValuesPushed(history: seq<real>, size: nat)
    requires |history| >= size
    ensures LastValues(history, size) == history[|history| - size..]
  {
  }

  lemma LastValuesMove(history: seq<real>, size: nat, x: real)
    requires size >= 1
    ensures LastValues(history + [x], size) == LastValues(history, size)[1..] + [x]
  {
    assert Zeros(size) + (history + [x]) == (Zeros(size) + history) + [x];
  }

  /** After so many pushes the window is back at the beginning of the buffer. */
  function Period(size: nat, oversizing: nat): nat
    requires oversizing >= 1
  {
    size * (oversizing - 1) + 2
  }

  lemma TimesMonotone(a: nat, b: nat, d: nat)
    ensures a <= b ==> a * d <= b * d
  {
  }

  lemma QuotientIs(n: nat, k: nat, d: nat, r: nat)
    requires n == k * d + r && r < d
    ensures n / d == k && n % d == r
  {
    TimesMonotone(n / d + 1, k, d);
    TimesMonotone(k + 1, n / d, d);
  }

  class Window {
    const buf: array<real>
    const bufSize: nat
    const size: nat
    var head: int
    var tail: int

    /** Everything pushed, the number of copies made, and how many values were copied in all. */
    ghost const oversizing: nat
    ghost var history: seq<real>
    ghost var wraps: nat
    ghost var copied: nat

    ghost predicate Shape()
      reads this
    {
      && size >= 1 && oversizing >= 2 && bufSize == size * oversizing + 1 == buf.Length
      && 0 <= head < Period(size, oversizing) && tail == head + size
      && |history| == wraps * Period(size, oversizing) + head
      && copied == wraps * (size - 1)
    }

    lemma Bounds()
      requires Shape()
      ensures Period(size, oversizing) == bufSize - size + 1 && bufSize >= 2 * size + 1 && tail <= bufSize
    {
      assert size * oversizing == size * (oversizing - 1) + size;
      assert size * (oversizing - 1) >= size * 1;
    }

    ghost predicate Valid()
      reads this, buf
    {
      Shape() && tail <= bufSize && buf[head..tail] == LastValues(history, size)
    }

    /** Where the window is, and what it has cost so far: values are copied at most once for each
        `oversizing` - 1 pushes. */
    lemma Position()
      requires Valid()
      ensures var n := |history|;
        && head == n % (size * (oversizing - 1) + 2) && wraps == n / (size * (oversizing - 1) + 2)
        && tail == head + size
        && size * wraps <= n / (oversizing - 1)
        && copied <= n / (oversizing - 1)
      ensures |history| >= size ==> buf[head..tail] == history[|history| - size..]
    {
      if |history| >= size {
        LastValuesPushed(history, size);
      }
      var n, p, k := |history|, Period(size, oversizing), oversizing - 1;
      QuotientIs(n, wraps, p, head);
      WrapBound(n, wraps, size, k);
      assert wraps * (size - 1) <= size * wraps;
    }

    /** ms_window_init; only the first window of the buffer is cleared. */
    constructor (size: nat, oversizing: nat)
      requires size >= 1 && oversizing >= 2
      ensures Valid() && fresh(buf) && history == [] && this.size == size && this.oversizing == oversizing
      ensures head == 0 && tail == size && forall k | 0 <= k < size :: buf[k] == 0.0
    {
      var total := size * oversizing + 1;
      assert total >= size * 2 + 1;
      this.bufSize := total;
      var b := ClearedBuffer(total, size);
      this.buf := b;
      this.size := size;
      this.head := 0;
      this.tail := size;
      this.oversizing := oversizing;
      this.history := [];
      this.wraps := 0;
      this.copied := 0;
      new;
      StartsValid();
    }

    lemma StartsValid()
      requires size >= 1 && oversizing >= 2 && bufSize == size * oversizing + 1 == buf.Length
      requires head == 0 && tail == size <= bufSize && history == [] && wraps == 0 && copied == 0
      requires forall k | 0 <= k < size :: buf[k] == 0.0
      ensures Valid()
    {
      assert LastValues([], size) == Zeros(size);
    }

    static method ClearedBuffer(total: nat, size: nat) returns (b: array<real>)
      requires size <= total
      ensures fresh(b) && b.Length == total && forall k | 0 <= k < size :: b[k] == 0.0
    {
      b := new real[total];
      for i := 0 to size
        invariant forall k | 0 <= k < i :: b[k] == 0.0
      {
        b[i] := 0.0;
      }
    }

    /** The memcpy of a wrap: the values that stay in the window go to the beginning of the buffer. */
    method CopyToBeginning(from: nat)
      requires size - 1 <= from && size >= 1 && from + size - 1 <= buf.Length
      modifies buf
      ensures buf[..size - 1] == old(buf[from..from + size - 1])
    {
      for i := 0 to size - 1
        invariant buf[..i] == old(buf[from..from + i])
        invariant forall k | from <= k < buf.Length :: buf[k] == old(buf[k])
      {
        buf[i] := buf[from + i];
      }
    }

    /** The window has come to the end of the buffer; there is room before its first place again. */
    method WrapAround(ghost kept: seq<real>)
      requires Shape() && head == bufSize - size && tail <= bufSize && kept == buf[head..tail][1..]
      modifies this`head, this`tail, this`wraps, this`copied, buf
      ensures head == -1 && tail == size - 1 && buf[..tail] == kept
      ensures |history| + 1 == wraps * Period(size, oversizing) && copied == wraps * (size - 1)
    {
      Bounds();
      CopyToBeginning(head + 1);
      head := -1;
      tail := size - 1;
      wraps := wraps + 1;
      copied := copied + (size - 1);
      OneMoreTime(wraps - 1, Period(size, oversizing));
      OneMoreTime(wraps - 1, size - 1);
    }

    /** ms_window_push: the window is the last `size` values again. */
    method Push(sample: real)
      requires Valid()
      modifies this, buf
      ensures Valid() && history == old(history) + [sample]
      ensures buf[head..tail] == old(buf[head..tail])[1..] + [sample]
    {
      Bounds();
      LastValuesMove(history, size, sample);
      ghost var kept := buf[head..tail][1..];
      if head == bufSize - size {
        WrapAround(kept);
      }
      assert buf[head + 1..tail] == kept;
      head := head + 1;
      buf[tail] := sample;
      tail := tail + 1;
      history := history + [sample];
      assert buf[head..tail] == kept + [sample];
    }
  }

  lemma OneMoreTime(k: nat, n: nat)
    ensures (k + 1) * n == k * n + n
  {
  }

  lemma WrapBound(n: nat, wraps: nat, size: nat, k: nat)
    requires k >= 1 && wraps * (size * k + 2) <= n
    ensures size * wraps <= n / k
  {
    assert wraps * (size * k + 2) == (size * wraps) * k + 2 * wraps;
    assert (size * wraps) * k <= n;
    QuotientBound(n, size * wraps, k);
  }

  lemma QuotientBound(n: nat, q: nat, k: nat)
    requires k >= 1 && q * k <= n
    ensures q <= n / k
  {
    TimesMonotone(n / k + 1, q, k);
  }
}
