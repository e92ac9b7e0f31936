/** What a call under the lock of src/buffer/ring.go does: the steps of the monitor against the reads
    and writes of the ring, and the items of all calls. */
module RingCalls {
  import opened Lists
  import opened Bytes
  import opened RingMonitor
  import RingBuffer

  // ---- A step is a read or a write of the ring ----

  /** Whether the step's call waits on an empty ring; one that has been woken does. */
  function Waits<T>(e: Event<T>): bool
    requires e.ReadCall? || e.ReadResume?
  {
    e.ReadResume? || e.wait
  }

  /** Only the threads of the call and of the sleeper it wakes change. */
  ghost predicate Others<T>(ts: seq<Thread<T>>, ts': seq<Thread<T>>, id: nat, woken: Option<nat>) {
    |ts'| == |ts| &&
    forall i :: 0 <= i < |ts| && i != id && woken != Some(i) ==> ts'[i] == ts[i]
  }

  /** A read does what the ring does with the same contents; its thread then sleeps exactly if the ring
      says to wait, and a sleeping writer is woken exactly if an item was taken and one sleeps. */
  lemma ReadsAsRing<T>(m: Monitor<T>, e: Event<T>)
    requires Enabled(m, e) && (e.ReadCall? || e.ReadResume?)
    ensures var m' := Next(m, e);
      var (r, q) := RingBuffer.ReadOf(m.items, Waits(e));
      var woken := if r.Got? then e.wake else None;
      && m'.items == q && m'.accepted == m.accepted && m'.size == m.size
      && m'.out == m.out + (if r.Got? then [r.item] else [])
      && Others(m.threads, m'.threads, e.id, woken)
      && m'.threads[e.id] == (if r.ReaderWaits? then ReaderAsleep else Away)
      && (woken.Some? ==> m.threads[woken.value].WriterAsleep? && woken.value != e.id)
      && (woken.Some? ==> m'.threads[woken.value] == WriterWoken(m.threads[woken.value].item))
      && (r.Got? && woken.None? ==> forall i :: 0 <= i < |m.threads| ==> !m'.threads[i].WriterAsleep?)
  {
  }

  /** The item a write brings; a woken writer still has its own. */
  function Brings<T>(m: Monitor<T>, e: Event<T>): T
    requires Enabled(m, e) && (e.WriteCall? || e.WriteResume?)
  {
    if e.WriteCall? then e.item else m.threads[e.id].item
  }

  /** A write does what the ring does with the same contents, as long as the ring's counter does not
      clash; its thread then sleeps with its item exactly if the ring says to wait, and a sleeping
      reader is woken exactly if an item was added, not exchanged, and one sleeps. */
  lemma WritesAsRing<T>(m: Monitor<T>, e: Event<T>, first: uint64)
    requires Enabled(m, e) && (e.WriteCall? || e.WriteResume?)
    requires 1 <= m.size && |m.items| <= m.size && !RingBuffer.Clash(first, Min(|m.items|, m.size - 1), m.size)
    ensures var m' := Next(m, e);
      var item := Brings(m, e);
      var (r, q) := RingBuffer.WriteOf(m.items, first, m.size, e.WriteCall? && e.overwrite, item);
      var woken := if r.Stored? then e.wake else None;
      && m'.items == q && m'.size == m.size
      && m'.accepted == m.accepted + (if r.WriterWaits? then [] else [item])
      && m'.out == m.out + (if r.Overwrote? then [m.items[0]] else [])
      && Others(m.threads, m'.threads, e.id, woken)
      && m'.threads[e.id] == (if r.WriterWaits? then WriterAsleep(item) else Away)
      && (woken.Some? ==> m.threads[woken.value].ReaderAsleep? && woken.value != e.id)
      && (woken.Some? ==> m'.threads[woken.value] == ReaderWoken)
      && (r.Stored? && woken.None? ==> forall i :: 0 <= i < |m.threads| ==> !m'.threads[i].ReaderAsleep?)
  {
  }

  /** A read sleeps if and only if it waits on an empty ring, a write if and only if it does not
      overwrite on a full one. */
  lemma SleepsExactly<T>(m: Monitor<T>, e: Event<T>)
    requires Enabled(m, e) && 1 <= m.size && |m.items| <= m.size
    ensures e.ReadCall? ==> (Next(m, e).threads[e.id].ReaderAsleep? <==> e.wait && m.items == [])
    ensures e.ReadResume? ==> (Next(m, e).threads[e.id].ReaderAsleep? <==> m.items == [])
    ensures e.WriteCall? ==>
      (Next(m, e).threads[e.id] == WriterAsleep(e.item) <==> !e.overwrite && |m.items| == m.size)
    ensures e.WriteResume? ==> (Next(m, e).threads[e.id].WriterAsleep? <==> |m.items| == m.size)
  {
  }

  /** A thread that is away may call at any time, in any mode and with any item, one that has been woken
      may go on at any time, and one that sleeps does nothing. */
  lemma MayStep<T(!new)>(m: Monitor<T>, id: nat, flag: bool, item: T)
      returns (reader: Option<nat>, writer: Option<nat>)
    requires id < |m.threads|
    ensures Enabled(m, ReadCall(id, flag, writer)) <==> m.threads[id].Away?
    ensures Enabled(m, WriteCall(id, flag, item, reader)) <==> m.threads[id].Away?
    ensures Enabled(m, ReadResume(id, writer)) <==> m.threads[id].ReaderWoken?
    ensures Enabled(m, WriteResume(id, reader)) <==> m.threads[id].WriterWoken?
    ensures m.threads[id].ReaderAsleep? || m.threads[id].WriterAsleep? ==>
      forall e: Event<T> :: e.id == id ==> !Enabled(m, e)
  {
    var ts := m.threads[id := Away];
    reader, writer := None, None;
    if ReaderSleeps(ts) {
      var j: nat :| j < |ts| && ts[j].ReaderAsleep?;
      reader := Some(j);
    }
    if WriterSleeps(ts) {
      var j: nat :| j < |ts| && ts[j].WriterAsleep?;
      writer := Some(j);
    }
  }

  // ---- No item is lost ----

  function ItemOf<T>(t: Thread<T>): seq<T> {
    if t.WriterAsleep? || t.WriterWoken? then [t.item] else []
  }

  /** The items of the writers that are asleep or on their way. */
  function Waiting<T>(ts: seq<Thread<T>>): seq<T> {
    if ts == [] then [] else Waiting(Front(ts)) + ItemOf(Last(ts))
  }

  /** The items handed to writes. */
  function Handed<T>(es: seq<Event<T>>): seq<T> {
    if es == [] then [] else Handed(Front(es)) + HandedBy(Last(es))
  }

  function HandedBy<T>(e: Event<T>): seq<T> { if e.WriteCall? then [e.item] else [] }

  /** How often an item occurs in a list. */
  ghost function Times<T>(s: seq<T>, x: T): nat {
    if s == [] then 0 else Times(Front(s), x) + if Last(s) == x then 1 else 0
  }

  lemma {:induction false} TimesAppend<T>(a: seq<T>, b: seq<T>, x: T)
    ensures Times(a + b, x) == Times(a, x) + Times(b, x)
  {
    if b == [] {
      assert a + b == a;
    } else {
      assert Front(a + b) == a + Front(b);
      TimesAppend(a, Front(b), x);
    }
  }

  lemma {:induction false} TimesMultiset<T>(s: seq<T>, x: T)
    ensures multiset(s)[x] == Times(s, x)
  {
    if s != [] {
      TimesMultiset(Front(s), x);
      assert s == Front(s) + [Last(s)];
    }
  }

  lemma {:induction false} WaitingUpdate<T>(ts: seq<Thread<T>>, i: nat, t: Thread<T>, x: T)
    requires i < |ts|
    ensures Times(Waiting(ts[i := t]), x) ==
      Times(Waiting(ts), x) - Times(ItemOf(ts[i]), x) + Times(ItemOf(t), x)
  {
    var ts' := ts[i := t];
    TimesAppend(Waiting(Front(ts)), ItemOf(Last(ts)), x);
    TimesAppend(Waiting(Front(ts')), ItemOf(Last(ts')), x);
    hide ItemOf, Times;
    if i < |ts| - 1 {
      assert Front(ts') == Front(ts)[i := t];
      WaitingUpdate(Front(ts), i, t, x);
    } else {
      assert Front(ts') == Front(ts);
    }
  }

  lemma {:induction false} NoneWaiting<T>(ts: seq<Thread<T>>)
    requires forall i :: 0 <= i < |ts| ==> ts[i].Away?
    ensures Waiting(ts) == []
  {
    if ts != [] { NoneWaiting(Front(ts)); }
  }

  /** How often an item has got into the queue or is waiting to. */
  ghost function Known<T>(m: Monitor<T>, x: T): nat { Times(m.accepted, x) + Times(Waiting(m.threads), x) }

  lemma ItemTimes<T>(item: T, x: T)
    ensures Times(ItemOf<T>(Away), x) == Times(ItemOf<T>(ReaderAsleep), x) == Times(ItemOf<T>(ReaderWoken), x) == 0
    ensures Times(ItemOf(WriterAsleep(item)), x) == Times(ItemOf(WriterWoken(item)), x) == Times([item], x)
  {
  }

  /** Waking someone loses nothing. */
  lemma WakingKeeps<T>(ts: seq<Thread<T>>, wake: Option<nat>, x: T)
    ensures Times(Waiting(WakeWriter(ts, wake)), x) == Times(Waiting(ts), x)
    ensures Times(Waiting(WakeReader(ts, wake)), x) == Times(Waiting(ts), x)
  {
    hide Waiting, Times, ItemOf;
    if wake.Some? && wake.value < |ts| {
      var j := wake.value;
      match ts[j]
      case WriterAsleep(item) =>
        WaitingUpdate(ts, j, WriterWoken(item), x);
        ItemTimes(item, x);
      case ReaderAsleep =>
        WaitingUpdate(ts, j, ReaderWoken, x);
        ItemTimes(x, x);
      case _ =>
    }
  }

  lemma ReadKeeps<T>(m: Monitor<T>, id: nat, wait: bool, wake: Option<nat>, x: T)
    requires id < |m.threads| && (m.threads[id].Away? || m.threads[id].ReaderWoken?)
    ensures Known(Reading(m, id, wait, wake), x) == Known(m, x)
  {
    var ts := m.threads[id := Away];
    hide Waiting, WakeWriter;
    WaitingUpdate(m.threads, id, Away, x);
    WaitingUpdate(ts, id, ReaderAsleep, x);
    WakingKeeps(ts, wake, x);
  }

  lemma WriteKeeps<T>(m: Monitor<T>, id: nat, overwrite: bool, item: T, wake: Option<nat>, x: T)
    requires id < |m.threads|
    ensures Known(Writing(m, id, overwrite, item, wake), x) ==
      Known(m, x) - Times(ItemOf(m.threads[id]), x) + Times([item], x)
  {
    var ts := m.threads[id := Away];
    hide Waiting, WakeReader, ItemOf, Times;
    WaitingUpdate(m.threads, id, Away, x);
    WaitingUpdate(ts, id, WriterAsleep(item), x);
    ItemTimes(item, x);
    WakingKeeps(ts, wake, x);
    TimesAppend(m.accepted, [item], x);
  }

  /** What a step adds is the item handed to it, if any. */
  lemma StepKeeps<T>(m: Monitor<T>, e: Event<T>, x: T)
    requires Enabled(m, e)
    ensures Known(Next(m, e), x) == Known(m, x) + Times(HandedBy(e), x)
  {
    match e
    case ReadCall(id, wait, wake) => ReadKeeps(m, id, wait, wake, x);
    case ReadResume(id, wake) => ReadKeeps(m, id, true, wake, x);
    case WriteCall(id, overwrite, item, wake) => WriteKeeps(m, id, overwrite, item, wake, x);
    case WriteResume(id, wake) => WriteKeeps(m, id, false, m.threads[id].item, wake, x);
  }

  lemma {:induction false} RunKeeps<T(!new)>(m: Monitor<T>, es: seq<Event<T>>, m': Monitor<T>, x: T)
    requires Initial(m) && Reaches(m, es, m')
    ensures Known(m', x) == Times(Handed(es), x)
  {
    if es == [] {
      NoneWaiting(m.threads);
    } else {
      var (e, mid) := (Last(es), MidOf(m, es, m'));
      RunKeeps(m, Front(es), mid, x);
      StepKeeps(mid, e, x);
      TimesAppend(Handed(Front(es)), HandedBy(e), x);
    }
  }

  /** In every reachable state the items handed to writes are those that got into the queue and those
      of the writers still waiting: none is lost and none is made up. */
  lemma ItemsKept<T(!new)>(m: Monitor<T>, es: seq<Event<T>>, m': Monitor<T>)
    requires Initial(m) && Reaches(m, es, m')
    ensures multiset(Handed(es)) == multiset(m'.accepted) + multiset(Waiting(m'.threads))
  {
    var (a, b, c) := (multiset(Handed(es)), multiset(m'.accepted), multiset(Waiting(m'.threads)));
    forall x ensures a[x] == (b + c)[x] {
      RunKeeps(m, es, m', x);
      TimesMultiset(Handed(es), x);
      TimesMultiset(m'.accepted, x);
      TimesMultiset(Waiting(m'.threads), x);
    }
  }
}
