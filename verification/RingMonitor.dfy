/** The waiting protocol of src/buffer/ring.go: any number of threads calling Read and Write
    under one lock, with the condition variables newWrite (readers wait) and newRead (writers wait).
    A step is one stay inside the lock: from taking it to releasing it or to Wait. */
module RingMonitor {
  import opened Lists

  /** A woken thread has been signalled but has not yet got the lock back. */
  datatype Thread<T> = Away | ReaderAsleep | ReaderWoken | WriterAsleep(item: T) | WriterWoken(item: T)

  /** items is the queue; accepted everything that got into it and out everything that left it,
      read or overwritten, in order. */
  datatype Monitor<T> =
    Monitor(size: nat, items: seq<T>, accepted: seq<T>, out: seq<T>, threads: seq<Thread<T>>)

  /** wake is the sleeper that a Signal picks; None where no one sleeps on that condition. */
  datatype Event<T> =
    | ReadCall(id: nat, wait: bool, wake: Option<nat>)
    | ReadResume(id: nat, wake: Option<nat>)
    | WriteCall(id: nat, overwrite: bool, item: T, wake: Option<nat>)
    | WriteResume(id: nat, wake: Option<nat>)

  ghost predicate ReaderSleeps<T>(ts: seq<Thread<T>>) {
    exists i :: 0 <= i < |ts| && ts[i].ReaderAsleep?
  }

  ghost predicate WriterSleeps<T>(ts: seq<Thread<T>>) {
    exists i :: 0 <= i < |ts| && ts[i].WriterAsleep?
  }

  function WokenReaders<T>(ts: seq<Thread<T>>): nat
  {
    if ts == [] then 0 else WokenReaders(Front(ts)) + if Last(ts).ReaderWoken? then 1 else 0
  }

  function WokenWriters<T>(ts: seq<Thread<T>>): nat
  {
    if ts == [] then 0 else WokenWriters(Front(ts)) + if Last(ts).WriterWoken? then 1 else 0
  }

  /** newRead.Signal(): wakes one sleeping writer, if there is one. */
  ghost predicate PicksWriter<T>(ts: seq<Thread<T>>, wake: Option<nat>) {
    match wake
    case None => !WriterSleeps(ts)
    case Some(j) => j < |ts| && ts[j].WriterAsleep?
  }

  /** newWrite.Signal(): wakes one sleeping reader, if there is one. */
  ghost predicate PicksReader<T>(ts: seq<Thread<T>>, wake: Option<nat>) {
    match wake
    case None => !ReaderSleeps(ts)
    case Some(j) => j < |ts| && ts[j].ReaderAsleep?
  }

  function WakeWriter<T>(ts: seq<Thread<T>>, wake: Option<nat>): (r: seq<Thread<T>>)
    ensures |r| == |ts|
  {
    if wake.Some? && wake.value < |ts| && ts[wake.value].WriterAsleep?
    then ts[wake.value := WriterWoken(ts[wake.value].item)] else ts
  }

  function WakeReader<T>(ts: seq<Thread<T>>, wake: Option<nat>): (r: seq<Thread<T>>)
    ensures |r| == |ts|
  {
    if wake.Some? && wake.value < |ts| && ts[wake.value].ReaderAsleep?
    then ts[wake.value := ReaderWoken] else ts
  }

  ghost predicate Enabled<T>(m: Monitor<T>, e: Event<T>) {
    && e.id < |m.threads|
    && var t := m.threads[e.id];
       var ts := m.threads[e.id := Away];
       match e
       case ReadCall(_, _, wake) => t.Away? && PicksWriter(ts, wake)
       case ReadResume(_, wake) => t.ReaderWoken? && PicksWriter(ts, wake)
       case WriteCall(_, _, _, wake) => t.Away? && PicksReader(ts, wake)
       case WriteResume(_, wake) => t.WriterWoken? && PicksReader(ts, wake)
  }

  /** A read that has the lock: sleep or return on an empty ring, else take the oldest item and signal. */
  function Reading<T>(m: Monitor<T>, id: nat, wait: bool, wake: Option<nat>): Monitor<T>
    requires id < |m.threads|
  {
    var ts := m.threads[id := Away];
    if m.items == [] then m.(threads := if wait then ts[id := ReaderAsleep] else ts)
    else m.(items := m.items[1..], out := m.out + [m.items[0]], threads := WakeWriter(ts, wake))
  }

  /** A write that has the lock: on a full ring sleep or drop the oldest item, without a signal;
      else append and signal. */
  function Writing<T>(m: Monitor<T>, id: nat, overwrite: bool, item: T, wake: Option<nat>): Monitor<T>
    requires id < |m.threads|
  {
    var ts := m.threads[id := Away];
    if |m.items| == m.size then
      if overwrite && m.items != [] then
        m.(items := m.items[1..] + [item], accepted := m.accepted + [item], out := m.out + [m.items[0]], threads := ts)
      else m.(threads := ts[id := WriterAsleep(item)])
    else m.(items := m.items + [item], accepted := m.accepted + [item], threads := WakeReader(ts, wake))
  }

  function Next<T>(m: Monitor<T>, e: Event<T>): Monitor<T>
    requires e.id < |m.threads|
    requires e.WriteResume? ==> m.threads[e.id].WriterWoken?
  {
    match e
    case ReadCall(id, wait, wake) => Reading(m, id, wait, wake)
    case ReadResume(id, wake) => Reading(m, id, true, wake)
    case WriteCall(id, overwrite, item, wake) => Writing(m, id, overwrite, item, wake)
    case WriteResume(id, wake) => Writing(m, id, false, m.threads[id].item, wake)
  }

  /** m' is reached from m by the events, each enabled in turn. */
  ghost predicate Reaches<T(!new)>(m: Monitor<T>, es: seq<Event<T>>, m': Monitor<T>)
  {
    if es == [] then m' == m
    else exists mid :: Reaches(m, Front(es), mid) && Enabled(mid, Last(es)) && m' == Next(mid, Last(es))
  }

  // ---- No lost wake-up ----

  /** A sleeping reader means no more items than readers already on their way; dually for writers
      and free slots. */
  ghost predicate NoLostWakeup<T>(m: Monitor<T>) {
    && m.size >= 1 && |m.items| <= m.size
    && (ReaderSleeps(m.threads) ==> |m.items| <= WokenReaders(m.threads))
    && (WriterSleeps(m.threads) ==> m.size - |m.items| <= WokenWriters(m.threads))
  }

  function ReaderOne<T>(t: Thread<T>): nat { if t.ReaderWoken? then 1 else 0 }
  function WriterOne<T>(t: Thread<T>): nat { if t.WriterWoken? then 1 else 0 }

  lemma {:induction false} WokenUpdate<T>(ts: seq<Thread<T>>, i: nat, t: Thread<T>)
    requires i < |ts|
    ensures WokenReaders(ts[i := t]) == WokenReaders(ts) - ReaderOne(ts[i]) + ReaderOne(t)
    ensures WokenWriters(ts[i := t]) == WokenWriters(ts) - WriterOne(ts[i]) + WriterOne(t)
  {
    if i < |ts| - 1 {
      assert Front(ts[i := t]) == Front(ts)[i := t];
      WokenUpdate(Front(ts), i, t);
    } else {
      assert Front(ts[i := t]) == Front(ts);
    }
  }

  lemma ReadingKeeps<T>(m: Monitor<T>, id: nat, wait: bool, wake: Option<nat>)
    requires NoLostWakeup(m) && id < |m.threads|
    requires m.threads[id].Away? || (m.threads[id].ReaderWoken? && wait)
    requires PicksWriter(m.threads[id := Away], wake)
    ensures NoLostWakeup(Reading(m, id, wait, wake))
  {
    var ts := m.threads[id := Away];
    var m' := Reading(m, id, wait, wake);
    WokenUpdate(m.threads, id, Away);
    if m.items == [] {
      WokenUpdate(ts, id, ReaderAsleep);
      forall i | 0 <= i < |ts| && m'.threads[i].WriterAsleep? ensures m.threads[i].WriterAsleep? { }
    } else {
      if wake.Some? {
        WokenUpdate(ts, wake.value, WriterWoken(ts[wake.value].item));
      }
      forall i | 0 <= i < |ts| && m'.threads[i].ReaderAsleep? ensures m.threads[i].ReaderAsleep? { }
      forall i | 0 <= i < |ts| && m'.threads[i].WriterAsleep?
        ensures ts[i].WriterAsleep? && m.threads[i].WriterAsleep? { }
    }
  }

  lemma WritingKeeps<T>(m: Monitor<T>, id: nat, overwrite: bool, item: T, wake: Option<nat>)
    requires NoLostWakeup(m) && id < |m.threads|
    requires m.threads[id].Away? || (m.threads[id].WriterWoken? && !overwrite)
    requires PicksReader(m.threads[id := Away], wake)
    ensures NoLostWakeup(Writing(m, id, overwrite, item, wake))
  {
    var ts := m.threads[id := Away];
    var m' := Writing(m, id, overwrite, item, wake);
    WokenUpdate(m.threads, id, Away);
    WokenUpdate(ts, id, WriterAsleep(item));
    if |m.items| < m.size && wake.Some? {
      WokenUpdate(ts, wake.value, ReaderWoken);
    }
    forall i | 0 <= i < |ts| && m'.threads[i].ReaderAsleep?
      ensures ts[i].ReaderAsleep? && m.threads[i].ReaderAsleep? { }
    if |m.items| < m.size || overwrite {
      forall i | 0 <= i < |ts| && m'.threads[i].WriterAsleep? ensures m.threads[i].WriterAsleep? { }
    }
  }

  lemma NextKeeps<T>(m: Monitor<T>, e: Event<T>)
    requires NoLostWakeup(m) && Enabled(m, e)
    ensures NoLostWakeup(Next(m, e))
  {
    match e
    case ReadCall(id, wait, wake) => ReadingKeeps(m, id, wait, wake);
    case ReadResume(id, wake) => ReadingKeeps(m, id, true, wake);
    case WriteCall(id, overwrite, item, wake) => WritingKeeps(m, id, overwrite, item, wake);
    case WriteResume(id, wake) => WritingKeeps(m, id, false, m.threads[id].item, wake);
  }

  ghost predicate Initial<T>(m: Monitor<T>) {
    && m.size >= 1 && |m.items| <= m.size && m.out == m.accepted == []
    && forall i :: 0 <= i < |m.threads| ==> m.threads[i].Away?
  }

  /** No wake-up is lost in any reachable state, whoever is signalled and whoever barges in. */
  lemma {:induction false} WakeupsKept<T(!new)>(m: Monitor<T>, es: seq<Event<T>>, m': Monitor<T>)
    requires Initial(m) && Reaches(m, es, m')
    ensures NoLostWakeup(m') && m'.size == m.size
  {
    if es != [] {
      var mid := MidOf(m, es, m');
      WakeupsKept(m, Front(es), mid);
      NextKeeps(mid, Last(es));
    }
  }

  lemma {:induction false} SomeWoken<T>(ts: seq<Thread<T>>)
    ensures WokenReaders(ts) > 0 ==> exists i :: 0 <= i < |ts| && ts[i].ReaderWoken?
    ensures WokenWriters(ts) > 0 ==> exists i :: 0 <= i < |ts| && ts[i].WriterWoken?
  {
    if ts != [] {
      SomeWoken(Front(ts));
      if WokenReaders(Front(ts)) > 0 {
        var i :| 0 <= i < |Front(ts)| && Front(ts)[i].ReaderWoken?;
        assert ts[i].ReaderWoken?;
      }
      if WokenWriters(Front(ts)) > 0 {
        var i :| 0 <= i < |Front(ts)| && Front(ts)[i].WriterWoken?;
        assert ts[i].WriterWoken?;
      }
    }
  }

  /** When no one is on the way, sleeping readers mean an empty ring and sleeping writers a full
      one; so readers and writers never all sleep at once. */
  lemma NoDeadlock<T>(m: Monitor<T>)
    requires NoLostWakeup(m)
    requires forall i :: 0 <= i < |m.threads| ==> !m.threads[i].ReaderWoken? && !m.threads[i].WriterWoken?
    ensures ReaderSleeps(m.threads) ==> m.items == []
    ensures WriterSleeps(m.threads) ==> |m.items| == m.size
    ensures !(ReaderSleeps(m.threads) && WriterSleeps(m.threads))
  {
    SomeWoken(m.threads);
  }

  /** Steps that only readers already on their way take. */
  ghost predicate Resumes<T(!new)>(m: Monitor<T>, m': Monitor<T>, n: nat)
    decreases n
  {
    if n == 0 then m' == m
    else exists id: nat, wake ::
      Enabled(m, ReadResume(id, wake)) && m.items != [] && Resumes(Next(m, ReadResume(id, wake)), m', n - 1)
  }

  lemma ResumesFirst<T(!new)>(m: Monitor<T>, m': Monitor<T>, n: nat, id: nat, wake: Option<nat>)
    requires n > 0 && m.items != [] && Enabled(m, ReadResume(id, wake))
    requires Resumes(Next(m, ReadResume(id, wake)), m', n - 1)
    ensures Resumes(m, m', n)
  {
  }

  lemma ResumeOne<T>(m: Monitor<T>) returns (id: nat, wake: Option<nat>)
    requires NoLostWakeup(m) && ReaderSleeps(m.threads) && m.items != []
    ensures Enabled(m, ReadResume(id, wake))
    ensures var mid := Next(m, ReadResume(id, wake));
      && NoLostWakeup(mid) && ReaderSleeps(mid.threads)
      && mid.items == m.items[1..] && mid.out == m.out + [m.items[0]]
  {
    SomeWoken(m.threads);
    id :| id < |m.threads| && m.threads[id].ReaderWoken?;
    var ts := m.threads[id := Away];
    wake := None;
    if WriterSleeps(ts) {
      var j: nat :| j < |ts| && ts[j].WriterAsleep?;
      wake := Some(j);
    }
    NextKeeps(m, ReadResume(id, wake));
    var i :| 0 <= i < |m.threads| && m.threads[i].ReaderAsleep?;
    assert Next(m, ReadResume(id, wake)).threads[i].ReaderAsleep?;
  }

  /** Beside a sleeping reader, the readers on their way are enough to take every item: the sleeper
      is not needed, so it does not sleep beside work that no one will do. */
  lemma {:induction false} WorkIsTaken<T(!new)>(m: Monitor<T>) returns (m': Monitor<T>)
    requires NoLostWakeup(m) && ReaderSleeps(m.threads)
    ensures Resumes(m, m', |m.items|) && m'.items == [] && m'.out == m.out + m.items
    decreases |m.items|
  {
    if m.items == [] {
      m' := m;
      assert m.out + [] == m.out;
    } else {
      var id, wake := ResumeOne(m);
      m' := WorkIsTaken(Next(m, ReadResume(id, wake)));
      ResumesFirst(m, m', |m.items|, id, wake);
      HeadFirst(m.out, m.items);
    }
  }

  lemma HeadFirst<T>(out: seq<T>, items: seq<T>)
    requires items != []
    ensures (out + [items[0]]) + items[1..] == out + items
  {
  }

  /** Steps that only writers already on their way take, each of which stores its item. */
  ghost predicate WriteResumes<T(!new)>(m: Monitor<T>, m': Monitor<T>, n: nat)
    decreases n
  {
    if n == 0 then m' == m
    else exists id: nat, wake ::
      Enabled(m, WriteResume(id, wake)) && |m.items| < m.size && WriteResumes(Next(m, WriteResume(id, wake)), m', n - 1)
  }

  lemma WriteResumesFirst<T(!new)>(m: Monitor<T>, m': Monitor<T>, n: nat, id: nat, wake: Option<nat>)
    requires n > 0 && |m.items| < m.size && Enabled(m, WriteResume(id, wake))
    requires WriteResumes(Next(m, WriteResume(id, wake)), m', n - 1)
    ensures WriteResumes(m, m', n)
  {
  }

  lemma WriteResumeOne<T>(m: Monitor<T>) returns (id: nat, wake: Option<nat>)
    requires NoLostWakeup(m) && WriterSleeps(m.threads) && |m.items| < m.size
    ensures Enabled(m, WriteResume(id, wake)) && m.threads[id].WriterWoken?
    ensures var mid := Next(m, WriteResume(id, wake));
      && NoLostWakeup(mid) && WriterSleeps(mid.threads) && mid.size == m.size
      && mid.items == m.items + [m.threads[id].item] && mid.out == m.out
  {
    SomeWoken(m.threads);
    id :| id < |m.threads| && m.threads[id].WriterWoken?;
    var ts := m.threads[id := Away];
    wake := None;
    if ReaderSleeps(ts) {
      var j: nat :| j < |ts| && ts[j].ReaderAsleep?;
      wake := Some(j);
    }
    NextKeeps(m, WriteResume(id, wake));
    var i :| 0 <= i < |m.threads| && m.threads[i].WriterAsleep?;
    assert Next(m, WriteResume(id, wake)).threads[i].WriterAsleep?;
  }

  /** The ring has been filled by writers on their way. */
  ghost predicate FilledUp<T(!new)>(m: Monitor<T>, m': Monitor<T>) {
    && |m.items| <= m.size && WriteResumes(m, m', m.size - |m.items|)
    && |m'.items| == m'.size == m.size && m.items <= m'.items && m'.out == m.out
  }

  lemma FillsOn<T(!new)>(m: Monitor<T>, mid: Monitor<T>, m': Monitor<T>, id: nat, wake: Option<nat>)
    requires |m.items| < m.size && Enabled(m, WriteResume(id, wake)) && mid == Next(m, WriteResume(id, wake))
    requires mid.size == m.size && mid.out == m.out && |mid.items| == |m.items| + 1 && m.items <= mid.items
    requires FilledUp(mid, m')
    ensures FilledUp(m, m')
  {
    hide Next, Enabled;
    WriteResumesFirst(m, m', m.size - |m.items|, id, wake);
    PrefixTrans(m.items, mid.items, m'.items);
  }

  /** Beside a sleeping writer, the writers on their way are enough to fill every free slot, taking
      nothing out. */
  lemma {:induction false} SlotsAreFilled<T(!new)>(m: Monitor<T>) returns (m': Monitor<T>)
    requires NoLostWakeup(m) && WriterSleeps(m.threads)
    ensures FilledUp(m, m')
    decreases m.size - |m.items|
  {
    if |m.items| == m.size {
      m' := m;
    } else {
      var id, wake := WriteResumeOne(m);
      hide Next, Enabled, WriterSleeps, WriteResumes;
      var mid := Next(m, WriteResume(id, wake));
      m' := SlotsAreFilled(mid);
      FillsOn(m, mid, m', id, wake);
    }
  }

  // ---- First in, first out ----

  /** What a step lets in. */
  function NewlyIn<T>(m: Monitor<T>, m': Monitor<T>): seq<T>
  {
    if |m.accepted| <= |m'.accepted| then m'.accepted[|m.accepted|..] else []
  }

  ghost predicate InOrder<T>(m: Monitor<T>, m': Monitor<T>) {
    m'.accepted == m.accepted + NewlyIn(m, m') && m'.out + m'.items == (m.out + m.items) + NewlyIn(m, m')
  }

  lemma ReadingInOrder<T>(m: Monitor<T>, id: nat, wait: bool, wake: Option<nat>)
    requires id < |m.threads|
    ensures InOrder(m, Reading(m, id, wait, wake))
  {
    if m.items != [] { assert m.items == [m.items[0]] + m.items[1..]; }
  }

  lemma WritingInOrder<T>(m: Monitor<T>, id: nat, overwrite: bool, item: T, wake: Option<nat>)
    requires id < |m.threads|
    ensures InOrder(m, Writing(m, id, overwrite, item, wake))
  {
    if m.items != [] { assert m.items == [m.items[0]] + m.items[1..]; }
  }

  lemma NextInOrder<T>(m: Monitor<T>, e: Event<T>)
    requires Enabled(m, e)
    ensures InOrder(m, Next(m, e))
  {
    match e
    case ReadCall(id, wait, wake) => ReadingInOrder(m, id, wait, wake);
    case ReadResume(id, wake) => ReadingInOrder(m, id, true, wake);
    case WriteCall(id, overwrite, item, wake) => WritingInOrder(m, id, overwrite, item, wake);
    case WriteResume(id, wake) => WritingInOrder(m, id, false, m.threads[id].item, wake);
  }

  /** In every reachable state what left the queue followed by what is in it is what was there
      followed by what got in, in order: reads and overwrites only ever take the oldest item. */
  lemma {:induction false} FirstInFirstOut<T(!new)>(m: Monitor<T>, es: seq<Event<T>>, m': Monitor<T>)
    requires Initial(m) && Reaches(m, es, m')
    ensures m'.out + m'.items == m.items + m'.accepted
  {
    if es != [] {
      var (e, mid) := (Last(es), MidOf(m, es, m'));
      FirstInFirstOut(m, Front(es), mid);
      NextInOrder(mid, e);
      assert (m.items + mid.accepted) + NewlyIn(mid, m') == m.items + (mid.accepted + NewlyIn(mid, m'));
    }
  }

  ghost function MidOf<T(!new)>(m: Monitor<T>, es: seq<Event<T>>, m': Monitor<T>): (mid: Monitor<T>)
    requires es != [] && Reaches(m, es, m')
    ensures Reaches(m, Front(es), mid) && Enabled(mid, Last(es)) && m' == Next(mid, Last(es))
  {
    var mid :| Reaches(m, Front(es), mid) && Enabled(mid, Last(es)) && m' == Next(mid, Last(es));
    mid
  }
}
