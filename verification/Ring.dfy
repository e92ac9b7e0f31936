/** The bounded buffer of src/buffer/ring.go: two 64-bit counters over a fixed array. Read and
    Write are the bodies between taking and releasing the lock; waiting is in RingMonitor.dfy. */
module RingBuffer {
  import opened Bytes
  import opened Arith

  /** Where the element with number k is stored: the counter wraps at 2^64 before the remainder. */
  function Slot(k: nat, size: nat): (s: nat)
    requires size >= 1
    ensures s < size
  {
    Rem(k % TWO64, size)
  }

  lemma SlotIndex(k: nat, size: nat)
    requires size >= 1
    ensures Slot(k, size) == Wrap64(k) % size
  {
    RemIsMod(k % TWO64, size);
  }

  /** Within one turn of the counter wrapped numbers keep their distance. */
  lemma SameTurn(k: nat, g: nat)
    requires k <= g && g - k <= g % TWO64
    ensures k % TWO64 == g % TWO64 - (g - k)
  {
    var q := g / TWO64;
    assert g == q * TWO64 + g % TWO64;
    ModUnique(k, TWO64, q, g % TWO64 - (g - k));
  }

  lemma TurnBefore(k: nat, g: nat)
    requires g % TWO64 < g - k < TWO64 && k <= g
    ensures k % TWO64 == TWO64 + g % TWO64 - (g - k)
  {
    var q := g / TWO64;
    assert g == q * TWO64 + g % TWO64;
    MulSucc(q - 1, TWO64);
    ModUnique(k, TWO64, q - 1, TWO64 + g % TWO64 - (g - k));
  }

  /** Wrapped counters keep their distance and count on. */
  lemma Counters(w: nat, t: nat)
    requires t <= w < t + TWO64
    ensures Wrap64(Wrap64(w) - Wrap64(t)) == w - t
    ensures Wrap64(Wrap64(w) + 1) == Wrap64(w + 1)
    ensures Wrap64(Wrap64(t) + 1) == Wrap64(t + 1)
  {
    ModSum(w, 1, TWO64);
    ModSum(t, 1, TWO64);
    if w - t <= w % TWO64 {
      SameTurn(t, w);
    } else {
      TurnBefore(t, w);
    }
  }

  /** The elements with numbers l+1 to f, oldest first. */
  function Live<T>(buf: seq<T>, l: nat, f: nat): (s: seq<T>)
    requires |buf| >= 1 && l <= f
    ensures |s| == f - l
  {
    seq(f - l, i requires 0 <= i < f - l => buf[Slot(l + 1 + i, |buf|)])
  }

  /** Reading is taking the head. */
  lemma LiveTail<T>(buf: seq<T>, l: nat, f: nat)
    requires |buf| >= 1 && l < f
    ensures Live(buf, l, f)[0] == buf[Slot(l + 1, |buf|)]
    ensures Live(buf, l + 1, f) == Live(buf, l, f)[1..]
  {
  }

  // ---- What a write does to the queue ----

  /** The place an element is stored at has been passed by the counter d numbers ago: d is less
      than the size, so the counter has wrapped in between. */
  lemma SharedSlot(k: nat, f: nat, size: nat)
    requires 1 <= k <= f < k + size - 1 && size < TWO64
    ensures Slot(k, size) == Slot(f + 1, size) <==> (f + 1) % TWO64 < f + 1 - k == TWO64 % size
  {
    var (x, d) := ((f + 1) % TWO64, f + 1 - k);
    if d <= x {
      SameTurn(k, f + 1);
      DistinctInWindow(x - d, x, size);
    } else {
      TurnBefore(k, f + 1);
      hide Rem;
      AcrossWrap(x, d, size);
    }
  }

  /** Numbers d apart on either side of the wrap share a slot when d is what 2^64 leaves over. */
  lemma AcrossWrap(x: nat, d: nat, size: nat)
    requires x < d < size < TWO64
    ensures Rem(TWO64 + x - d, size) == Rem(x, size) <==> d == TWO64 % size
  {
    var (q, r) := (TWO64 / size, TWO64 % size);
    assert TWO64 == q * size + r;
    RemIsMod(TWO64 + x - d, size);
    RemIsMod(x, size);
    ModUnique(x, size, 0, x);
    var y := r + x - d;
    if y >= 0 {
      ModUnique(TWO64 + x - d, size, q, y);
    } else {
      MulSucc(q - 1, size);
      ModUnique(TWO64 + x - d, size, q - 1, y + size);
    }
  }

  /** The counter has wrapped, and the slot of its next value still holds a live element. */
  predicate Clash(first: uint64, live: nat, size: nat)
    requires size >= 1
  {
    first < TWO64 % size <= live
  }

  /** A queue after the write that takes the counter to first: the element is appended, and in a clash
      also takes the place of the live one in its slot. */
  function Joined<T>(q: seq<T>, first: uint64, size: nat, t: T): (r: seq<T>)
    requires size >= 1
    ensures |r| == |q| + 1
  {
    (if Clash(first, |q|, size) then q[|q| - TWO64 % size := t] else q) + [t]
  }

  /** Storing the next element, at every value of the counters. */
  lemma StoreJoins<T>(buf: seq<T>, l: nat, f: nat, t: T)
    requires 1 <= |buf| < TWO64 && l <= f < l + |buf|
    ensures Live(buf[Slot(f + 1, |buf|) := t], l, f + 1) ==
      Joined(Live(buf, l, f), (f + 1) % TWO64, |buf|, t)
  {
    var n := |buf|;
    var (q, s) := (Live(buf, l, f), Live(buf[Slot(f + 1, n) := t], l, f + 1));
    var joined := Joined(q, (f + 1) % TWO64, n, t);
    hide Slot;
    forall i | 0 <= i < f - l ensures s[i] == joined[i] {
      if f + 1 - (l + 1 + i) < n { SharedSlot(l + 1 + i, f, n); }
    }
    assert s == joined;
  }

  /** Storing over the oldest element of a full buffer drops it and joins the rest. */
  lemma StoreReplaces<T>(buf: seq<T>, l: nat, f: nat, t: T)
    requires 1 <= |buf| < TWO64 && f == l + |buf|
    ensures Live(buf[Slot(f + 1, |buf|) := t], l + 1, f + 1) ==
      Joined(Live(buf, l, f)[1..], (f + 1) % TWO64, |buf|, t)
  {
    LiveTail(buf, l, f);
    StoreJoins(buf, l + 1, f, t);
  }

  ghost predicate Appends<T>(buf: seq<T>, l: nat, f: nat, t: T)
    requires |buf| >= 1 && l <= f
  {
    Live(buf[Slot(f + 1, |buf|) := t], l, f + 1) == Live(buf, l, f) + [t]
  }

  /** A write appends, for every content, exactly when there is no clash: at every value of the
      counters, before, at and after every wrap. */
  lemma WrapExact(l: nat, f: nat, size: nat)
    requires l <= f < l + size && size < TWO64
    ensures (forall buf: seq<bool>, t :: |buf| == size ==> Appends(buf, l, f, t))
      <==> !Clash((f + 1) % TWO64, f - l, size)
  {
    hide Slot, Live;
    forall buf: seq<bool>, t | |buf| == size && !Clash((f + 1) % TWO64, f - l, size) ensures Appends(buf, l, f, t) {
      StoreJoins(buf, l, f, t);
    }
    if Clash((f + 1) % TWO64, f - l, size) {
      var buf := seq(size, _ => false);
      StoreJoins(buf, l, f, true);
      var i := f - l - TWO64 % size;
      AllFalse(buf, l, f, i);
      assert Joined(Live(buf, l, f), (f + 1) % TWO64, size, true)[i] == true;
      assert (Live(buf, l, f) + [true])[i] == false;
      assert !Appends(buf, l, f, true);
    }
  }

  lemma AllFalse(buf: seq<bool>, l: nat, f: nat, i: nat)
    requires |buf| >= 1 && i < f - l && forall k :: 0 <= k < |buf| ==> !buf[k]
    ensures !Live(buf, l, f)[i]
  {
    assert Live(buf, l, f)[i] == buf[Slot(l + 1 + i, |buf|)];
  }

  /** So before the counter wraps, and always where the size divides 2^64, a write appends. */
  lemma PlainWrite<T>(buf: seq<T>, l: nat, f: nat, t: T)
    requires 1 <= |buf| < TWO64 && l <= f < l + |buf|
    requires f + 1 < TWO64 || TWO64 % |buf| == 0
    ensures Appends(buf, l, f, t)
  {
    hide Slot, Live;
    StoreJoins(buf, l, f, t);
  }

  datatype ReadOutcome<T> = Got(item: T) | Nothing | ReaderWaits
  datatype WriteOutcome = Stored | Overwrote | WriterWaits

  /** What a read finds in the queue, and what it leaves. */
  function ReadOf<T>(q: seq<T>, wait: bool): (ReadOutcome<T>, seq<T>) {
    if q == [] then (if wait then ReaderWaits else Nothing, q) else (Got(q[0]), q[1..])
  }

  /** What a write that takes the counter to first makes of the queue. */
  function WriteOf<T>(q: seq<T>, first: uint64, size: nat, overwrite: bool, t: T): (WriteOutcome, seq<T>)
    requires size >= 1
  {
    if |q| != size then (Stored, Joined(q, first, size, t))
    else if overwrite then (Overwrote, Joined(q[1..], first, size, t))
    else (WriterWaits, q)
  }

  class Ring<T> {
    var buf: array<T>
    var first: uint64
    var last: uint64
    const size: uint64
    /** The counters as they would be without wrapping. */
    ghost var written: nat
    ghost var taken: nat

    ghost predicate Valid()
      reads this
    {
      && size >= 1 && buf.Length == size
      && taken <= written <= taken + size
      && first == Wrap64(written) && last == Wrap64(taken)
    }

    /** The queue the ring stands for. */
    ghost function Contents(): seq<T>
      reads this, buf
      requires Valid()
    {
      Live(buf[..], taken, written)
    }

    /** NewRing, with first elements of the buffer taken as already written. */
    constructor (initial: uint64, buffer: array<T>)
      requires 1 <= buffer.Length < TWO64 && initial <= buffer.Length
      ensures Valid() && buf == buffer && size == buffer.Length && |Contents()| == initial
      ensures written == initial
    {
      buf := buffer;
      first, last := initial, 0;
      size := buffer.Length;
      written, taken := initial, 0;
    }

    /** The oldest element; on an empty ring the caller waits or goes without. */
    method Read(wait: bool) returns (r: ReadOutcome<T>)
      requires Valid()
      modifies this`last, this`taken
      ensures Valid()
      ensures old(Contents()) == [] ==>
        r == (if wait then ReaderWaits else Nothing) && Contents() == [] && last == old(last)
      ensures old(Contents()) != [] ==>
        r == Got(old(Contents())[0]) && Contents() == old(Contents())[1..]
      ensures written == old(written)
      ensures (r, Contents()) == ReadOf(old(Contents()), wait)
    {
      Counters(written, taken);
      if Wrap64(first - last) == 0 {
        if !wait {
          return Nothing;
        } else {
          return ReaderWaits;
        }
      }
      LiveTail(buf[..], taken, written);
      SlotIndex(taken + 1, size);
      hide Wrap64, Slot, Live;
      last := Wrap64(last + 1);
      taken := taken + 1;
      r := Got(buf[last % size]);
    }

    /** Joins the queue; on a full ring the caller waits or drops the oldest element. */
    method Write(overwrite: bool, t: T) returns (r: WriteOutcome)
      requires Valid()
      modifies this, buf
      ensures Valid() && buf == old(buf)
      ensures |old(Contents())| < size ==> r == Stored && Contents() == Joined(old(Contents()), first, size, t)
      ensures |old(Contents())| == size && overwrite ==>
        r == Overwrote && Contents() == Joined(old(Contents())[1..], first, size, t)
      ensures |old(Contents())| == size && !overwrite ==>
        r == WriterWaits && Contents() == old(Contents()) && written == old(written)
      ensures r != WriterWaits ==> written == old(written) + 1 && first == Wrap64(old(first) + 1)
      ensures (r, Contents()) == WriteOf(old(Contents()), Wrap64(old(first) + 1), size, overwrite, t)
    {
      Counters(written, taken);
      if Wrap64(first - last) == size {
        if overwrite {
          Replace(t);
          return Overwrote;
        } else {
          return WriterWaits;
        }
      }
      Append(t);
      return Stored;
    }

    /** The newest element goes to the slot of its number. */
    method Store(t: T)
      requires size >= 1 && buf.Length == size && first == Wrap64(written)
      modifies buf
      ensures buf[..] == old(buf[..])[Slot(written, size) := t]
    {
      SlotIndex(written, size);
      buf[first % size] := t;
    }

    method Append(t: T)
      requires Valid() && written < taken + size
      modifies this, buf
      ensures Valid() && buf == old(buf)
      ensures written == old(written) + 1 && first == Wrap64(old(first) + 1)
      ensures Contents() == Joined(old(Contents()), first, size, t)
    {
      Counters(written, taken);
      StoreJoins(buf[..], taken, written, t);
      assert Wrap64(written + 1) == (written + 1) % TWO64;
      hide Wrap64, Slot, Live, Joined;
      first := Wrap64(first + 1);
      written := written + 1;
      Store(t);
    }

    method Replace(t: T)
      requires Valid() && written == taken + size
      modifies this, buf
      ensures Valid() && buf == old(buf)
      ensures written == old(written) + 1 && first == Wrap64(old(first) + 1)
      ensures Contents() == Joined(old(Contents())[1..], first, size, t)
    {
      Counters(written, taken);
      StoreReplaces(buf[..], taken, written, t);
      assert Wrap64(written + 1) == (written + 1) % TWO64;
      hide Wrap64, Slot, Live, Joined;
      first := Wrap64(first + 1);
      last := Wrap64(last + 1);
      written, taken := written + 1, taken + 1;
      Store(t);
    }
  }
}
