/** Goroutines in a row, joined by bounded FIFO channels: Encoder.Encode (src/codec/encoder.go:204-215)
    and Decoder.Decode (src/codec/decoder.go:378-391). A stage receives one message, computes, and
    sends what it produced one message at a time, each when there is room. */
module Pipeline {
  import opened Lists
  import Machines

  datatype Stage<!S, !M> = Stage(init: S, step: Machines.Step<S, M, M>)

  /** A goroutine: its local state and what it still has to send before it receives again. */
  datatype Proc<S, M> = Proc(state: S, pending: seq<M>)

  /** Channel k leads into stage k, and the last one is the result channel. A channel is all that
      was ever sent on it and how much of that has been received; its buffer is the difference. */
  datatype Net<S, M> = Net(procs: seq<Proc<S, M>>, sent: seq<seq<M>>, taken: seq<nat>)

  datatype Action<M> = Feed(m: M) | Fetch | Receive(k: nat) | Send(k: nat)

  ghost predicate Shaped<S, M>(stages: seq<Stage<S, M>>, caps: seq<nat>, net: Net<S, M>) {
    && |net.procs| == |stages| && |net.sent| == |net.taken| == |caps| == |stages| + 1
    && (forall i :: 0 <= i <= |stages| ==> net.taken[i] <= |net.sent[i]| && caps[i] >= 1)
  }

  ghost predicate HasRoom<S, M>(caps: seq<nat>, net: Net<S, M>, i: nat)
    requires i < |caps| && |net.sent| == |net.taken| == |caps|
  {
    |net.sent[i]| - net.taken[i] < caps[i]
  }

  ghost predicate HasMessage<S, M>(net: Net<S, M>, i: nat)
    requires i < |net.sent| && |net.sent| == |net.taken|
  {
    net.taken[i] < |net.sent[i]|
  }

  ghost predicate Enabled<S, M>(stages: seq<Stage<S, M>>, caps: seq<nat>, net: Net<S, M>, a: Action<M>)
    requires Shaped(stages, caps, net)
  {
    match a
    case Feed(_) => HasRoom(caps, net, 0)
    case Fetch => HasMessage(net, |stages|)
    case Receive(k) => k < |stages| && net.procs[k].pending == [] && HasMessage(net, k)
    case Send(k) => k < |stages| && net.procs[k].pending != [] && HasRoom(caps, net, k + 1)
  }

  function Apply<S, M>(stages: seq<Stage<S, M>>, caps: seq<nat>, net: Net<S, M>, a: Action<M>): (r: Net<S, M>)
    requires Shaped(stages, caps, net) && Enabled(stages, caps, net, a)
    ensures Shaped(stages, caps, r)
  {
    match a
    case Feed(m) => net.(sent := net.sent[0 := net.sent[0] + [m]])
    case Fetch => net.(taken := net.taken[|stages| := net.taken[|stages|] + 1])
    case Receive(k) =>
      var (state, out) := stages[k].step(net.procs[k].state, net.sent[k][net.taken[k]]);
      net.(procs := net.procs[k := Proc(state, out)], taken := net.taken[k := net.taken[k] + 1])
    case Send(k) =>
      var p := net.procs[k];
      net.(procs := net.procs[k := Proc(p.state, p.pending[1..])],
           sent := net.sent[k + 1 := net.sent[k + 1] + [p.pending[0]]])
  }

  function Start<S, M>(stages: seq<Stage<S, M>>): Net<S, M>
  {
    Net(seq(|stages|, k requires 0 <= k < |stages| => Proc(stages[k].init, [])),
        seq(|stages| + 1, _ => []), seq(|stages| + 1, _ => 0))
  }

  /** net' is reached by a schedule: any choice of enabled actions, one after the other. */
  ghost predicate Reaches<S(!new), M(!new)>(
      stages: seq<Stage<S, M>>, caps: seq<nat>, acts: seq<Action<M>>, net': Net<S, M>)
  {
    if acts == [] then net' == Start(stages) && Shaped(stages, caps, net')
    else exists net ::
      Reaches(stages, caps, Front(acts), net) && Shaped(stages, caps, net) &&
      Enabled(stages, caps, net, Last(acts)) && net' == Apply(stages, caps, net, Last(acts))
  }

  // ---- Bounded channels ----

  /** A goroutine with something to send waits exactly while the channel is full, and one without waits
      exactly while its channel is empty; so do the callers at both ends. */
  lemma WaitsExactly<S, M>(stages: seq<Stage<S, M>>, caps: seq<nat>, net: Net<S, M>, k: nat, m: M)
    requires Shaped(stages, caps, net) && k < |stages|
    ensures net.procs[k].pending != [] ==>
      !Enabled(stages, caps, net, Receive(k)) &&
      (Enabled(stages, caps, net, Send(k)) <==> |net.sent[k + 1]| - net.taken[k + 1] < caps[k + 1])
    ensures net.procs[k].pending == [] ==>
      !Enabled(stages, caps, net, Send(k)) &&
      (Enabled(stages, caps, net, Receive(k)) <==> |net.sent[k]| - net.taken[k] > 0)
    ensures Enabled(stages, caps, net, Feed(m)) <==> |net.sent[0]| - net.taken[0] < caps[0]
    ensures Enabled(stages, caps, net, Fetch) <==> |net.sent[|stages|]| - net.taken[|stages|] > 0
  {
  }

  ghost predicate WithinBounds<S, M>(caps: seq<nat>, net: Net<S, M>) {
    && |net.sent| == |net.taken| == |caps|
    && forall i :: 0 <= i < |caps| ==> 0 <= |net.sent[i]| - net.taken[i] <= caps[i]
  }

  lemma ApplyBounded<S, M>(stages: seq<Stage<S, M>>, caps: seq<nat>, net: Net<S, M>, a: Action<M>)
    requires Shaped(stages, caps, net) && WithinBounds(caps, net) && Enabled(stages, caps, net, a)
    ensures WithinBounds(caps, Apply(stages, caps, net, a))
  {
  }

  /** In every reachable state of every schedule no channel holds more than its capacity. */
  lemma {:induction false} Bounded<S(!new), M(!new)>(
      stages: seq<Stage<S, M>>, caps: seq<nat>, acts: seq<Action<M>>, net': Net<S, M>)
    requires Reaches(stages, caps, acts, net')
    ensures Shaped(stages, caps, net') && WithinBounds(caps, net')
  {
    if acts != [] {
      var net :| Reaches(stages, caps, Front(acts), net) && Shaped(stages, caps, net) &&
        Enabled(stages, caps, net, Last(acts)) && net' == Apply(stages, caps, net, Last(acts));
      Bounded(stages, caps, Front(acts), net);
      ApplyBounded(stages, caps, net, Last(acts));
    }
  }

  // ---- What a stage has done is a function of what it has received ----

  function RunStage<S, M>(stage: Stage<S, M>, h: seq<M>): (S, seq<M>)
  {
    Machines.Run(stage.step, stage.init, h)
  }

  ghost predicate StageInv<S, M>(stages: seq<Stage<S, M>>, net: Net<S, M>, k: nat)
    requires k < |stages| && |net.procs| == |stages| && |net.sent| == |net.taken| == |stages| + 1
  {
    net.taken[k] <= |net.sent[k]| &&
    var r := RunStage(stages[k], net.sent[k][..net.taken[k]]);
    net.procs[k].state == r.0 && net.sent[k + 1] + net.procs[k].pending == r.1
  }

  ghost predicate Inv<S, M>(stages: seq<Stage<S, M>>, caps: seq<nat>, net: Net<S, M>) {
    Shaped(stages, caps, net) && forall k :: 0 <= k < |stages| ==> StageInv(stages, net, k)
  }

  lemma ApplyInv<S, M>(stages: seq<Stage<S, M>>, caps: seq<nat>, net: Net<S, M>, a: Action<M>)
    requires Inv(stages, caps, net) && Enabled(stages, caps, net, a)
    ensures Inv(stages, caps, Apply(stages, caps, net, a))
  {
    var net' := Apply(stages, caps, net, a);
    forall k | 0 <= k < |stages| ensures StageInv(stages, net', k) {
      assert StageInv(stages, net, k);
      match a
      case Feed(m) =>
        assert net'.sent[k][..net'.taken[k]] == net.sent[k][..net.taken[k]];
      case Fetch =>
      case Receive(j) =>
        if j == k {
          var h := net.sent[k][..net.taken[k]];
          var x := net.sent[k][net.taken[k]];
          assert net'.sent[k][..net'.taken[k]] == h + [x];
          Machines.RunSnoc(stages[k].step, stages[k].init, h, x);
          assert net.sent[k + 1] + [] == net.sent[k + 1];
        }
      case Send(j) =>
        assert net'.sent[k][..net'.taken[k]] == net.sent[k][..net.taken[k]];
        if j == k {
          var p := net.procs[k].pending;
          assert (net.sent[k + 1] + [p[0]]) + p[1..] == net.sent[k + 1] + p;
        }
    }
  }

  lemma StartInv<S, M>(stages: seq<Stage<S, M>>, caps: seq<nat>)
    requires Shaped(stages, caps, Start(stages))
    ensures Inv(stages, caps, Start(stages))
  {
  }

  lemma {:induction false} ReachesInv<S(!new), M(!new)>(
      stages: seq<Stage<S, M>>, caps: seq<nat>, acts: seq<Action<M>>, net': Net<S, M>)
    requires Reaches(stages, caps, acts, net')
    ensures Inv(stages, caps, net')
  {
    if acts == [] {
      StartInv(stages, caps);
    } else {
      var net :| Reaches(stages, caps, Front(acts), net) && Shaped(stages, caps, net) &&
        Enabled(stages, caps, net, Last(acts)) && net' == Apply(stages, caps, net, Last(acts));
      ReachesInv(stages, caps, Front(acts), net);
      ApplyInv(stages, caps, net, Last(acts));
    }
  }

  // ---- The stages one after the other ----

  /** The full history of channel k when the stages before it run to completion in sequence. */
  function Compose<S, M>(stages: seq<Stage<S, M>>, k: nat, h: seq<M>): seq<M>
    requires k <= |stages|
  {
    if k == 0 then h else RunStage(stages[k - 1], Compose(stages, k - 1, h)).1
  }

  /** Whatever the schedule, each channel has carried a prefix of its sequential history. */
  lemma {:induction false} SentIsPrefix<S, M>(stages: seq<Stage<S, M>>, caps: seq<nat>, net: Net<S, M>, k: nat)
    requires Inv(stages, caps, net) && k <= |stages|
    ensures net.sent[k] <= Compose(stages, k, net.sent[0])
  {
    if k > 0 {
      SentIsPrefix(stages, caps, net, k - 1);
      assert StageInv(stages, net, k - 1);
      var taken := net.sent[k - 1][..net.taken[k - 1]];
      Machines.RunPrefix(stages[k - 1].step, stages[k - 1].init, taken, Compose(stages, k - 1, net.sent[0]));
      PrefixTrans(net.sent[k], RunStage(stages[k - 1], taken).1, Compose(stages, k, net.sent[0]));
    }
  }

  /** Scheduling independence: in every reachable state of every schedule the results are a prefix
      of the stages composed in sequence and applied to the inputs. */
  lemma ResultsArePrefix<S(!new), M(!new)>(
      stages: seq<Stage<S, M>>, caps: seq<nat>, acts: seq<Action<M>>, net: Net<S, M>)
    requires Reaches(stages, caps, acts, net)
    ensures |net.sent| == |stages| + 1
    ensures net.sent[|stages|] <= Compose(stages, |stages|, net.sent[0])
  {
    ReachesInv(stages, caps, acts, net);
    SentIsPrefix(stages, caps, net, |stages|);
  }

  // ---- Progress ----

  ghost predicate Busy<S, M>(stages: seq<Stage<S, M>>, net: Net<S, M>, k: nat)
    requires k < |stages| && |net.procs| == |stages| && |net.sent| == |net.taken| == |stages| + 1
  {
    net.procs[k].pending != [] || HasMessage(net, k)
  }

  /** While any stage has work and there is room for results, the last such stage can move. */
  lemma {:induction false} Progress<S, M>(stages: seq<Stage<S, M>>, caps: seq<nat>, net: Net<S, M>, k: nat)
      returns (a: Action<M>)
    requires Shaped(stages, caps, net) && HasRoom(caps, net, |stages|)
    requires k < |stages| && Busy(stages, net, k)
    ensures (a.Receive? || a.Send?) && Enabled(stages, caps, net, a)
    decreases |stages| - k
  {
    if k + 1 < |stages| && Busy(stages, net, k + 1) {
      a := Progress(stages, caps, net, k + 1);
    } else if net.procs[k].pending != [] {
      a := Send(k);
    } else {
      a := Receive(k);
    }
  }

  /** What is left to do: messages each stage has yet to receive and to send, were no more fed in. */
  function Work<S, M>(stages: seq<Stage<S, M>>, net: Net<S, M>, k: nat): int
    requires k <= |stages| && |net.sent| == |net.taken| == |stages| + 1
  {
    if k == 0 then 0
    else
      var h := net.sent[0];
      Work(stages, net, k - 1) +
      (|Compose(stages, k - 1, h)| - net.taken[k - 1]) + (|Compose(stages, k, h)| - |net.sent[k]|)
  }

  lemma {:induction false} WorkStep<S, M>(
      stages: seq<Stage<S, M>>, caps: seq<nat>, net: Net<S, M>, a: Action<M>, k: nat)
    requires Shaped(stages, caps, net) && Enabled(stages, caps, net, a) && (a.Receive? || a.Send?) && k <= |stages|
    ensures Work(stages, Apply(stages, caps, net, a), k) == Work(stages, net, k) - if a.k < k then 1 else 0
  {
    if k > 0 {
      WorkStep(stages, caps, net, a, k - 1);
    }
  }

  lemma {:induction false} WorkLeft<S, M>(stages: seq<Stage<S, M>>, caps: seq<nat>, net: Net<S, M>, k: nat)
    requires Inv(stages, caps, net) && k <= |stages|
    ensures Work(stages, net, k) >= 0
    ensures (forall i :: 0 <= i < k ==> !Busy(stages, net, i)) ==>
      Work(stages, net, k) == 0 && net.sent[k] == Compose(stages, k, net.sent[0])
  {
    if k > 0 {
      WorkLeft(stages, caps, net, k - 1);
      SentIsPrefix(stages, caps, net, k - 1);
      SentIsPrefix(stages, caps, net, k);
      assert StageInv(stages, net, k - 1);
      if forall i :: 0 <= i < k ==> !Busy(stages, net, i) {
        assert !Busy(stages, net, k - 1);
        assert net.sent[k - 1][..net.taken[k - 1]] == net.sent[k - 1];
        assert net.sent[k] + [] == net.sent[k];
      }
    }
  }

  /** No schedule gets stuck or runs on: in every reachable state either all results are out, and
      they are the stages composed in sequence, or the result channel is full, or some stage can
      move, and every move leaves one less to do. */
  lemma Completion<S(!new), M(!new)>(
      stages: seq<Stage<S, M>>, caps: seq<nat>, acts: seq<Action<M>>, net: Net<S, M>)
    requires Reaches(stages, caps, acts, net)
    ensures Inv(stages, caps, net)
    ensures net.sent[|stages|] == Compose(stages, |stages|, net.sent[0])
      || !HasRoom(caps, net, |stages|)
      || exists a: Action<M> :: (a.Receive? || a.Send?) && Enabled(stages, caps, net, a)
    ensures forall a: Action<M> :: (a.Receive? || a.Send?) && Enabled(stages, caps, net, a) ==>
      0 <= Work(stages, Apply(stages, caps, net, a), |stages|) == Work(stages, net, |stages|) - 1
  {
    ReachesInv(stages, caps, acts, net);
    WorkLeft(stages, caps, net, |stages|);
    if HasRoom(caps, net, |stages|) && exists i :: 0 <= i < |stages| && Busy(stages, net, i) {
      var i: nat :| i < |stages| && Busy(stages, net, i);
      var a := Progress(stages, caps, net, i);
      assert Enabled(stages, caps, net, a);
    }
    forall a: Action<M> | (a.Receive? || a.Send?) && Enabled(stages, caps, net, a)
      ensures 0 <= Work(stages, Apply(stages, caps, net, a), |stages|) == Work(stages, net, |stages|) - 1
    {
      WorkStep(stages, caps, net, a, |stages|);
      ApplyInv(stages, caps, net, a);
      WorkLeft(stages, caps, Apply(stages, caps, net, a), |stages|);
    }
  }

  // ---- Every input can be carried to the end ----

  /** The result channel has room and no stage can move. */
  ghost predicate AtRest<S(!new), M(!new)>(stages: seq<Stage<S, M>>, caps: seq<nat>, net: Net<S, M>) {
    && Shaped(stages, caps, net) && HasRoom(caps, net, |stages|)
    && forall a: Action<M> :: a.Receive? || a.Send? ==> !Enabled(stages, caps, net, a)
  }

  lemma ReachesNext<S(!new), M(!new)>(
      stages: seq<Stage<S, M>>, caps: seq<nat>, acts: seq<Action<M>>, net: Net<S, M>, a: Action<M>)
    requires Reaches(stages, caps, acts, net) && Shaped(stages, caps, net) && Enabled(stages, caps, net, a)
    ensures Reaches(stages, caps, acts + [a], Apply(stages, caps, net, a))
  {
    assert Front(acts + [a]) == acts && Last(acts + [a]) == a;
  }

  lemma {:induction false} WorkFetch<S, M>(stages: seq<Stage<S, M>>, caps: seq<nat>, net: Net<S, M>, k: nat)
    requires Shaped(stages, caps, net) && Enabled(stages, caps, net, Fetch) && k <= |stages|
    ensures Work(stages, Apply(stages, caps, net, Fetch), k) == Work(stages, net, k)
  {
    if k > 0 { WorkFetch(stages, caps, net, k - 1); }
  }

  /** Results sent and not yet fetched. */
  function Unfetched<S, M>(net: Net<S, M>): int
    requires net.sent != [] && |net.sent| == |net.taken|
  {
    |Last(net.sent)| - Last(net.taken)
  }

  /** Short of rest a stage can move or a result can be fetched: each leaves less to do. */
  lemma TowardsRest<S(!new), M(!new)>(stages: seq<Stage<S, M>>, caps: seq<nat>, net: Net<S, M>) returns (a: Action<M>)
    requires Inv(stages, caps, net) && !AtRest(stages, caps, net)
    ensures Enabled(stages, caps, net, a)
    ensures var net' := Apply(stages, caps, net, a);
      && net'.sent[0] == net.sent[0] && Inv(stages, caps, net')
      && 0 <= Work(stages, net', |stages|) <= Work(stages, net, |stages|)
      && (Work(stages, net', |stages|) == Work(stages, net, |stages|) ==> 0 <= Unfetched(net') < Unfetched(net))
  {
    if !HasRoom(caps, net, |stages|) {
      a := Fetch;
      WorkFetch(stages, caps, net, |stages|);
    } else {
      a :| (a.Receive? || a.Send?) && Enabled(stages, caps, net, a);
      WorkStep(stages, caps, net, a, |stages|);
    }
    hide Enabled, HasRoom;
    ApplyInv(stages, caps, net, a);
    WorkLeft(stages, caps, Apply(stages, caps, net, a), |stages|);
  }

  /** From every reachable state a schedule leads to rest, without feeding anything in. */
  lemma {:induction false} Settle<S(!new), M(!new)>(
      stages: seq<Stage<S, M>>, caps: seq<nat>, acts: seq<Action<M>>, net: Net<S, M>)
      returns (acts': seq<Action<M>>, net': Net<S, M>)
    requires Reaches(stages, caps, acts, net) && Inv(stages, caps, net)
    ensures Reaches(stages, caps, acts', net') && AtRest(stages, caps, net') && net'.sent[0] == net.sent[0]
    decreases Work(stages, net, |stages|), Unfetched(net)
  {
    hide Reaches, StageInv, Work, Apply, Enabled, HasRoom, AtRest;
    WorkLeft(stages, caps, net, |stages|);
    if AtRest(stages, caps, net) {
      acts', net' := acts, net;
    } else {
      var a := TowardsRest(stages, caps, net);
      ReachesNext(stages, caps, acts, net, a);
      acts', net' := Settle(stages, caps, acts + [a], Apply(stages, caps, net, a));
    }
  }

  /** At rest there is room for the next input. */
  lemma RoomForInput<S(!new), M(!new)>(stages: seq<Stage<S, M>>, caps: seq<nat>, net: Net<S, M>)
    requires AtRest(stages, caps, net)
    ensures HasRoom(caps, net, 0)
  {
    if |stages| > 0 && Busy(stages, net, 0) {
      var a := Progress(stages, caps, net, 0);
    }
  }

  lemma FeedOne<S(!new), M(!new)>(
      stages: seq<Stage<S, M>>, caps: seq<nat>, acts: seq<Action<M>>, net: Net<S, M>, m: M)
      returns (acts': seq<Action<M>>, net': Net<S, M>)
    requires Reaches(stages, caps, acts, net) && AtRest(stages, caps, net)
    ensures Reaches(stages, caps, acts', net') && AtRest(stages, caps, net')
    ensures net'.sent[0] == net.sent[0] + [m]
  {
    RoomForInput(stages, caps, net);
    var next := Apply(stages, caps, net, Feed(m));
    assert next.sent[0] == net.sent[0] + [m];
    hide Reaches, AtRest, HasRoom, Apply;
    ReachesNext(stages, caps, acts, net, Feed(m));
    ReachesInv(stages, caps, acts + [Feed(m)], next);
    acts', net' := Settle(stages, caps, acts + [Feed(m)], next);
  }

  lemma StartRests<S(!new), M(!new)>(stages: seq<Stage<S, M>>, caps: seq<nat>)
    requires |caps| == |stages| + 1 && forall i :: 0 <= i < |caps| ==> caps[i] >= 1
    ensures Reaches(stages, caps, [], Start(stages)) && AtRest(stages, caps, Start(stages))
    ensures Start(stages).sent[0] == []
  {
  }

  /** For all channel capacities every input can be fed in and carried to rest. */
  lemma {:induction false} FeedAll<S(!new), M(!new)>(stages: seq<Stage<S, M>>, caps: seq<nat>, h: seq<M>)
      returns (acts: seq<Action<M>>, net: Net<S, M>)
    requires |caps| == |stages| + 1 && forall i :: 0 <= i < |caps| ==> caps[i] >= 1
    ensures Reaches(stages, caps, acts, net) && AtRest(stages, caps, net) && net.sent[0] == h
  {
    hide Reaches, AtRest, HasRoom, Start;
    if h == [] {
      StartRests(stages, caps);
      acts, net := [], Start(stages);
    } else {
      acts, net := FeedAll(stages, caps, Front(h));
      acts, net := FeedOne(stages, caps, acts, net, Last(h));
      assert Front(h) + [Last(h)] == h;
    }
  }
}
