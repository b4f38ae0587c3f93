/** A future that runs once and any number of joiners (builder/src/sync.rs). Every lock section, and every send or
    receive on the wake-up channel, is one step. */
module FutureOnce {
  /** The lock-guarded `State`; the sender kept in `Running` is the channel below. */
  datatype Cell<T> = Uninit | Running | Done(value: T)

  /** Where a joiner stands. `Reading` and `Waiting` are in the first `read_state_loop`, `Rereading` and
      `Rewaiting` in the second, whose result is unwrapped; `Claiming` is about to take the write lock. */
  datatype Joiner<T> = Reading | Waiting | Claiming | Rereading | Rewaiting | Returned(value: T) | Panicked

  /** The spawned task. `SendFailed` is the failed `expect` on a send that reaches nobody. */
  datatype Runner<T> = NotSpawned | Polling | Completed(value: T) | DoneWritten | Sent | SendFailed

  /** `subscribed` are the live receivers, `mail` those with an unread message; `starts` counts spawned futures. */
  datatype State<T> = State(cell: Cell<T>, joiners: map<nat, Joiner<T>>, runner: Runner<T>,
                            subscribed: set<nat>, mail: set<nat>, starts: nat)

  predicate AtRead<T>(j: Joiner<T>) {
    j.Reading? || j.Rereading?
  }

  predicate AtWait<T>(j: Joiner<T>) {
    j.Waiting? || j.Rewaiting?
  }

  function Move<T>(s: State<T>, j: nat, joiner: Joiner<T>): State<T> {
    s.(joiners := s.joiners[j := joiner])
  }

  // ----- Steps -----

  /** Somebody calls `join`. */
  predicate Arrive<T(==)>(s: State<T>, t: State<T>, j: nat) {
    j !in s.joiners && t == Move(s, j, Reading)
  }

  /** One turn of `read_state_loop` under the read lock; subscribing happens before the lock is released. */
  predicate Read<T(==)>(s: State<T>, t: State<T>, j: nat) {
    && j in s.joiners && AtRead(s.joiners[j])
    && match s.cell
       case Uninit => t == Move(s, j, if s.joiners[j].Reading? then Claiming else Panicked)
       case Running => t == Move(s, j, if s.joiners[j].Reading? then Waiting else Rewaiting)
                              .(subscribed := s.subscribed + {j})
       case Done(v) => t == Move(s, j, Returned(v))
  }

  /** The message arrives; the loop goes round and the receiver is dropped. */
  predicate Receive<T(==)>(s: State<T>, t: State<T>, j: nat) {
    && j in s.joiners && AtWait(s.joiners[j]) && j in s.mail
    && t == Move(s, j, if s.joiners[j].Waiting? then Reading else Rereading)
              .(subscribed := s.subscribed - {j}, mail := s.mail - {j})
  }

  /** Both senders are gone: the one in the cell and the one the runner holds. */
  predicate ChannelClosed<T>(s: State<T>) {
    !s.cell.Running? && (s.runner.Sent? || s.runner.SendFailed?)
  }

  /** Receiving from a closed channel without a message is an error, which is unwrapped. */
  predicate ReceiveClosed<T(==)>(s: State<T>, t: State<T>, j: nat) {
    && j in s.joiners && AtWait(s.joiners[j]) && j !in s.mail && ChannelClosed(s)
    && t == Move(s, j, Panicked)
  }

  /** The write-lock section of `join_inner`: start the future, or find that somebody else has. */
  predicate Claim<T(==)>(s: State<T>, t: State<T>, j: nat) {
    && j in s.joiners && s.joiners[j].Claiming?
    && match s.cell
       case Uninit => t == Move(s, j, Reading).(cell := Running, runner := Polling, starts := s.starts + 1)
       case Running => t == Move(s, j, Rereading)
       case Done(v) => t == Move(s, j, Returned(v))
  }

  /** The future delivers a value. */
  predicate Complete<T(==)>(s: State<T>, t: State<T>, v: T) {
    s.runner.Polling? && t == s.(runner := Completed(v))
  }

  predicate WriteDone<T(==)>(s: State<T>, t: State<T>) {
    s.runner.Completed? && t == s.(cell := Done(s.runner.value), runner := DoneWritten)
  }

  /** The send reaches every live receiver; with none it fails. */
  predicate Send<T(==)>(s: State<T>, t: State<T>) {
    && s.runner.DoneWritten?
    && t == if s.subscribed == {} then s.(runner := SendFailed) else s.(runner := Sent, mail := s.subscribed)
  }

  ghost predicate JoinerStep<T(!new)>(s: State<T>, t: State<T>, j: nat) {
    Read(s, t, j) || Receive(s, t, j) || ReceiveClosed(s, t, j) || Claim(s, t, j)
  }

  ghost predicate RunnerStep<T(!new)>(s: State<T>, t: State<T>) {
    (exists v: T :: Complete(s, t, v)) || WriteDone(s, t) || Send(s, t)
  }

  ghost predicate Step<T(!new)>(s: State<T>, t: State<T>) {
    (exists j: nat :: Arrive(s, t, j) || JoinerStep(s, t, j)) || RunnerStep(s, t)
  }

  function Initial<T>(): State<T> {
    State(Uninit, map[], NotSpawned, {}, {}, 0)
  }

  ghost predicate IsRun<T(!new)>(run: seq<State<T>>) {
    && |run| > 0 && run[0] == Initial()
    && forall i :: 0 <= i < |run| - 1 ==> Step(run[i], run[i + 1])
  }

  // ----- The invariant -----

  /** The cell, the runner and the number of starts move together. */
  ghost predicate PhaseOk<T>(s: State<T>) {
    match s.cell
    case Uninit => s.starts == 0 && s.runner.NotSpawned?
    case Running => s.starts == 1 && (s.runner.Polling? || s.runner.Completed?)
    case Done(_) => s.starts == 1 && (s.runner.DoneWritten? || s.runner.Sent? || s.runner.SendFailed?)
  }

  ghost predicate JoinerOk<T>(s: State<T>, j: nat)
    requires j in s.joiners
  {
    && !s.joiners[j].Panicked?
    && (s.joiners[j].Rereading? || s.joiners[j].Rewaiting? ==> !s.cell.Uninit?)
    && (s.joiners[j].Returned? ==> s.cell == Done(s.joiners[j].value))
  }

  /** The receivers are the waiting joiners; before the send none has mail, after it all have. */
  ghost predicate ChannelOk<T>(s: State<T>) {
    && (forall j :: j in s.subscribed <==> j in s.joiners && AtWait(s.joiners[j]))
    && s.mail == (if s.runner.Sent? then s.subscribed else {})
    && (s.cell.Uninit? || s.runner.SendFailed? ==> s.subscribed == {})
  }

  ghost predicate Inv<T>(s: State<T>) {
    PhaseOk(s) && ChannelOk(s) && forall j :: j in s.joiners ==> JoinerOk(s, j)
  }

  lemma InitialInv<T>()
    ensures Inv(Initial<T>())
  {
  }

  lemma ReadKeepsInv<T>(s: State<T>, t: State<T>, j: nat)
    requires Inv(s) && Read(s, t, j)
    ensures Inv(t)
  {
  }

  lemma ReceiveKeepsInv<T>(s: State<T>, t: State<T>, j: nat)
    requires Inv(s) && (Receive(s, t, j) || ReceiveClosed(s, t, j))
    ensures Inv(t)
  {
  }

  lemma ClaimKeepsInv<T>(s: State<T>, t: State<T>, j: nat)
    requires Inv(s) && (Claim(s, t, j) || Arrive(s, t, j))
    ensures Inv(t)
  {
  }

  lemma RunnerKeepsInv<T(!new)>(s: State<T>, t: State<T>)
    requires Inv(s) && RunnerStep(s, t)
    ensures Inv(t)
  {
  }

  lemma StepKeepsInv<T(!new)>(s: State<T>, t: State<T>)
    requires Inv(s) && Step(s, t)
    ensures Inv(t)
  {
    hide Inv, Read, Receive, ReceiveClosed, Claim, Arrive, RunnerStep;
    if RunnerStep(s, t) {
      RunnerKeepsInv(s, t);
    } else {
      var j: nat :| Arrive(s, t, j) || JoinerStep(s, t, j);
      if Read(s, t, j) {
        ReadKeepsInv(s, t, j);
      } else if Claim(s, t, j) || Arrive(s, t, j) {
        ClaimKeepsInv(s, t, j);
      } else {
        ReceiveKeepsInv(s, t, j);
      }
    }
  }

  lemma {:induction false} RunKeepsInv<T(!new)>(run: seq<State<T>>, k: nat)
    requires IsRun(run) && k < |run|
    ensures Inv(run[k])
    decreases k
  {
    hide Inv, Step;
    if k == 0 {
      InitialInv<T>();
    } else {
      RunKeepsInv(run, k - 1);
      assert Step(run[k - 1], run[k - 1 + 1]);
      StepKeepsInv(run[k - 1], run[k]);
    }
  }

  // ----- What holds in every run -----

  function Rank<T>(c: Cell<T>): nat {
    match c
    case Uninit => 0
    case Running => 1
    case Done(_) => 2
  }

  lemma StepAdvancesCell<T(!new)>(s: State<T>, t: State<T>)
    requires Inv(s) && Step(s, t)
    ensures Rank(s.cell) <= Rank(t.cell) <= Rank(s.cell) + 1
    ensures s.cell.Done? ==> t.cell == s.cell
    ensures s.starts <= t.starts
  {
  }

  /** The cell moves from `Uninit` to `Running` to `Done`, one at a time and never back, and a result, once
      there, stays the same. */
  lemma {:induction false} CellOnlyAdvances<T(!new)>(run: seq<State<T>>, i: nat, k: nat)
    requires IsRun(run) && i <= k < |run|
    ensures Rank(run[i].cell) <= Rank(run[k].cell) <= Rank(run[i].cell) + (k - i)
    ensures run[i].cell.Done? ==> run[k].cell == run[i].cell
    decreases k
  {
    hide Inv, Step;
    if i < k {
      CellOnlyAdvances(run, i, k - 1);
      RunKeepsInv(run, k - 1);
      assert Step(run[k - 1], run[k - 1 + 1]);
      StepAdvancesCell(run[k - 1], run[k]);
    }
  }

  /** The future starts at most once, no `unwrap` fails, and every joiner that returns has the same result. */
  lemma JoinersAgree<T(!new)>(run: seq<State<T>>, k: nat, a: nat, b: nat)
    requires IsRun(run) && k < |run| && a in run[k].joiners && b in run[k].joiners
    ensures run[k].starts <= 1
    ensures !run[k].joiners[a].Panicked?
    ensures run[k].joiners[a].Returned? && run[k].joiners[b].Returned? ==>
              run[k].joiners[a].value == run[k].joiners[b].value
  {
    RunKeepsInv(run, k);
    assert JoinerOk(run[k], a) && JoinerOk(run[k], b);
  }

  /** The future has delivered `v`: the runner still has it, or it is in the cell. */
  ghost predicate Carries<T>(s: State<T>, v: T) {
    s.runner == Completed(v) || s.cell == Done(v)
  }

  lemma CarriesStep<T(!new)>(s: State<T>, t: State<T>, v: T)
    requires Inv(s) && Step(s, t)
    ensures Carries(s, v) ==> Carries(t, v)
    ensures Carries(t, v) ==> Carries(s, v) || Complete(s, t, v)
  {
  }

  lemma {:induction false} CarriedWasDelivered<T(!new)>(run: seq<State<T>>, k: nat, v: T) returns (i: nat)
    requires IsRun(run) && k < |run| && Carries(run[k], v)
    ensures i < k && Complete(run[i], run[i + 1], v)
    decreases k
  {
    hide Inv, Step;
    i := k - 1;
    RunKeepsInv(run, i);
    assert Step(run[i], run[i + 1]);
    CarriesStep(run[i], run[i + 1], v);
    if Carries(run[i], v) { i := CarriedWasDelivered(run, i, v); }
  }

  lemma {:induction false} DeliveredIsCarried<T(!new)>(run: seq<State<T>>, i: nat, k: nat, v: T)
    requires IsRun(run) && i < k < |run| && Complete(run[i], run[i + 1], v)
    ensures Carries(run[k], v)
    decreases k
  {
    hide Inv, Step;
    if i + 1 < k {
      DeliveredIsCarried(run, i, k - 1, v);
      RunKeepsInv(run, k - 1);
      assert Step(run[k - 1], run[k - 1 + 1]);
      CarriesStep(run[k - 1], run[k], v);
    }
  }

  lemma ReturnedIsCarried<T>(s: State<T>, j: nat, v: T)
    requires Inv(s) && j in s.joiners && s.joiners[j].Returned?
    ensures Carries(s, s.joiners[j].value) && (Carries(s, v) ==> s.joiners[j].value == v)
  {
    assert JoinerOk(s, j);
  }

  predicate DeliversAt<T(==)>(run: seq<State<T>>, i: nat, v: T) {
    i + 1 < |run| && Complete(run[i], run[i + 1], v)
  }

  /** A joiner returns the value the future has delivered, and not before it has. */
  lemma JoinersGetTheValue<T(!new)>(run: seq<State<T>>, k: nat, j: nat) returns (i: nat)
    requires IsRun(run) && k < |run| && j in run[k].joiners && run[k].joiners[j].Returned?
    ensures i < k && DeliversAt(run, i, run[k].joiners[j].value)
    ensures forall m, v :: 0 <= m < k && DeliversAt(run, m, v) ==> v == run[k].joiners[j].value
  {
    hide Inv, Step;
    RunKeepsInv(run, k);
    ReturnedIsCarried(run[k], j, run[k].joiners[j].value);
    i := CarriedWasDelivered(run, k, run[k].joiners[j].value);
    forall m, v | 0 <= m < k && DeliversAt(run, m, v) ensures v == run[k].joiners[j].value {
      DeliveredIsCarried(run, m, k, v);
      ReturnedIsCarried(run[k], j, v);
    }
  }

  /** No wake-up is lost: a joiner that waits either has a message, or the runner has not sent yet and the joiner
      is among those its send will reach. */
  lemma NoLostWakeup<T(!new)>(run: seq<State<T>>, k: nat, j: nat)
    requires IsRun(run) && k < |run| && j in run[k].joiners && AtWait(run[k].joiners[j])
    ensures j in run[k].mail
            || (j in run[k].subscribed && (run[k].runner.Polling? || run[k].runner.Completed? || run[k].runner.DoneWritten?))
  {
    RunKeepsInv(run, k);
  }

  /** As long as a joiner has not returned, it can move, or it waits and the runner can move, provided that the
      future delivers some value `v` when it is the future's turn. */
  lemma NobodyIsStuck<T(!new)>(run: seq<State<T>>, k: nat, j: nat, v: T) returns (t: State<T>)
    requires IsRun(run) && k < |run| && j in run[k].joiners && !run[k].joiners[j].Returned?
    ensures JoinerStep(run[k], t, j) || (AtWait(run[k].joiners[j]) && RunnerStep(run[k], t))
  {
    RunKeepsInv(run, k);
    var s := run[k];
    assert JoinerOk(s, j);
    match s.joiners[j]
    case Reading | Rereading =>
      t := match s.cell
           case Uninit => Move(s, j, Claiming)
           case Running => Move(s, j, if s.joiners[j].Reading? then Waiting else Rewaiting).(subscribed := s.subscribed + {j})
           case Done(w) => Move(s, j, Returned(w));
      assert Read(s, t, j);
    case Claiming =>
      t := match s.cell
           case Uninit => Move(s, j, Reading).(cell := Running, runner := Polling, starts := s.starts + 1)
           case Running => Move(s, j, Rereading)
           case Done(w) => Move(s, j, Returned(w));
      assert Claim(s, t, j);
    case Waiting | Rewaiting =>
      if j in s.mail {
        t := Move(s, j, if s.joiners[j].Waiting? then Reading else Rereading)
               .(subscribed := s.subscribed - {j}, mail := s.mail - {j});
        assert Receive(s, t, j);
      } else if s.runner.Polling? {
        t := s.(runner := Completed(v));
        assert Complete(s, t, v);
      } else if s.runner.Completed? {
        t := s.(cell := Done(s.runner.value), runner := DoneWritten);
        assert WriteDone(s, t);
      } else {
        t := s.(runner := Sent, mail := s.subscribed);
        assert Send(s, t);
      }
  }

  /** How many moves a joiner still needs once the result is there. */
  function Distance<T>(j: Joiner<T>): nat {
    match j
    case Waiting | Rewaiting => 2
    case Reading | Rereading | Claiming => 1
    case Returned(_) | Panicked => 0
  }

  /** Once the result is written, every move of a joiner brings it closer to returning, and no other move sets
      it back. */
  lemma ResultIsReachedInTwo<T(!new)>(s: State<T>, t: State<T>, j: nat)
    requires Inv(s) && s.cell.Done? && j in s.joiners && Step(s, t)
    ensures j in t.joiners && Distance(t.joiners[j]) <= Distance(s.joiners[j]) <= 2
    ensures JoinerStep(s, t, j) ==> Distance(t.joiners[j]) < Distance(s.joiners[j])
    ensures Distance(t.joiners[j]) == 0 ==> t.joiners[j] == Returned(s.cell.value)
  {
    assert JoinerOk(s, j);
    if other: nat :| Arrive(s, t, other) || JoinerStep(s, t, other) {
      if Arrive(s, t, other) { ArrivalIsApart(s, t, j, other); }
    }
  }

  /** Somebody who calls `join` is not among those who have. */
  lemma ArrivalIsApart<T(!new)>(s: State<T>, t: State<T>, j: nat, other: nat)
    requires Arrive(s, t, other) && j in s.joiners
    ensures j in t.joiners && t.joiners[j] == s.joiners[j] && t.cell == s.cell
    ensures !JoinerStep(s, t, j)
  {
  }

  /** The send fails exactly when nobody waits at that moment; everybody still gets the result. */
  lemma SendFailsIffNobodyWaits<T(!new)>(s: State<T>, t: State<T>)
    requires Inv(s) && Send(s, t)
    ensures t.runner.SendFailed? <==> forall j :: j in s.joiners ==> !AtWait(s.joiners[j])
    ensures t.cell.Done?
  {
    if t.runner.Sent? {
      var j :| j in s.subscribed;
    }
  }

  /** It does happen: a lone joiner starts a future that is done before the joiner looks again. */
  lemma SendCanFail<T(!new)>(v: T) returns (run: seq<State<T>>)
    ensures IsRun(run) && run[|run| - 1].runner.SendFailed?
  {
    var s0 := Initial<T>();
    var s1 := Move(s0, 1, Reading);
    var s2 := Move(s1, 1, Claiming);
    var s3 := Move(s2, 1, Reading).(cell := Running, runner := Polling, starts := 1);
    var s4 := s3.(runner := Completed(v));
    var s5 := s4.(cell := Done(v), runner := DoneWritten);
    var s6 := s5.(runner := SendFailed);
    run := [s0, s1, s2, s3, s4, s5, s6];
    assert Arrive(s0, s1, 1) && Read(s1, s2, 1) && Claim(s2, s3, 1);
    assert JoinerStep(s1, s2, 1) && JoinerStep(s2, s3, 1);
    assert Complete(s3, s4, v) && WriteDone(s4, s5) && Send(s5, s6);
    assert RunnerStep(s3, s4) && RunnerStep(s4, s5) && RunnerStep(s5, s6);
    hide Arrive, JoinerStep, RunnerStep;
    assert Step(s0, s1) && Step(s1, s2) && Step(s2, s3) && Step(s3, s4) && Step(s4, s5) && Step(s5, s6);
  }
}
