/** CCheckQueueControl: the master's use of the queue, one controller after another. */
module CheckQueueControl {
  import opened CheckQueue

  /** The controller of the master: none, one that is alive, or one whose destructor is in Wait. */
  datatype Control = NoControl | Alive(fDone: bool) | Ending

  /** The queue under controllers. `idles` are the answers of IsIdle that the constructors assert; `late` says that a
      controller was destroyed with checks added after its Wait. */
  datatype Session = Session(s: State, control: Control, idles: seq<bool>, late: bool)

  /** A step of the master with its controller, or of any thread inside Loop. */
  datatype Action =
    | Construct
    | AddChecks(checks: seq<Check>, woken: nat)
    | CallWait
    | Destroy
    | Inside(step: Step)

  function Begin(nBatchSize: nat, n: nat): Session {
    Session(Start(nBatchSize, n), NoControl, [], false)
  }

  /** Add and Wait are reached through the controller only. */
  predicate Possible(c: Session, action: Action) {
    match action
    case Construct => MasterOut(c.s) && !c.control.Alive?
    case AddChecks(_, _) => MasterOut(c.s) && c.control.Alive?
    case CallWait => MasterOut(c.s) && c.control.Alive?
    case Destroy => MasterOut(c.s) && c.control.Alive?
    case Inside(step) => Enabled(c.s, step) && !step.Add? && !(step.Enter? && step.t == 0)
  }

  ghost function Act(c: Session, action: Action): Session
    requires Inv(c.s) && Possible(c, action)
  {
    match action
    case Construct => c.(control := Alive(false), idles := c.idles + [Idle(c.s.core)])
    case AddChecks(checks, woken) => c.(s := Stepped(c.s, Add(checks, woken)))
    case CallWait => c.(s := Stepped(c.s, Enter(0)), control := Alive(true))
    case Destroy =>
      if c.control.fDone then c.(control := NoControl, late := c.late || c.s.added != [])
      else c.(s := Stepped(c.s, Enter(0)), control := Ending)
    case Inside(step) => c.(s := Stepped(c.s, step))
  }

  ghost function Stepped(s: State, step: Step): (r: State)
    requires Inv(s) && Enabled(s, step)
    ensures Inv(r)
  {
    StepKeeps(s, step);
    Next(s, step)
  }

  /** Out of Wait, with a controller that has waited or with none, nothing is open unless it was added late. */
  ghost predicate Settled(c: Session) {
    && Inv(c.s)
    && (MasterOut(c.s) && !c.control.Alive? && !c.late ==> c.s.added == [])
    && (!c.late ==> forall i :: 0 <= i < |c.idles| ==> c.idles[i])
  }

  /** The master comes out of Wait only with its answer, and nothing but the master adds checks. */
  lemma {:induction false} LeavesWithNothing(s: State, step: Step)
    requires Inv(s) && Enabled(s, step) && !step.Add?
    ensures MasterOut(Stepped(s, step)) ==>
              Stepped(s, step).added == [] || (MasterOut(s) && Stepped(s, step).added == s.added)
    ensures step == Enter(0) && MasterOut(Stepped(s, step)) ==> Stepped(s, step).added == []
  {
    StepKeeps(s, step);
  }

  lemma {:induction false} ActKeeps(c: Session, action: Action)
    requires Settled(c) && Possible(c, action)
    ensures Settled(Act(c, action))
  {
    match action
    case Construct =>
      if !c.late { IdleState(c.s); }
    case AddChecks(_, _) =>
    case CallWait => LeavesWithNothing(c.s, Enter(0));
    case Destroy => if !c.control.fDone { LeavesWithNothing(c.s, Enter(0)); }
    case Inside(step) => LeavesWithNothing(c.s, step);
  }

  /** A run in any interleaving; an action that is not possible is skipped. */
  ghost function ActAll(c: Session, actions: seq<Action>): (r: Session)
    requires Inv(c.s)
    ensures Inv(r.s)
  {
    if actions == [] then c
    else
      var c1, action := ActAll(c, actions[..|actions| - 1]), actions[|actions| - 1];
      if Possible(c1, action) then Act(c1, action) else c1
  }

  lemma {:induction false} ActAllSettled(c: Session, actions: seq<Action>)
    requires Settled(c)
    ensures Settled(ActAll(c, actions))
  {
    if actions != [] {
      var c1, action := ActAll(c, actions[..|actions| - 1]), actions[|actions| - 1];
      ActAllSettled(c, actions[..|actions| - 1]);
      if Possible(c1, action) { ActKeeps(c1, action); }
    }
  }

  /** In every run of successive controllers, each constructor finds the queue idle, unless a controller was destroyed
      with checks added after its Wait. */
  lemma {:induction false} ControllersFindIdle(nBatchSize: nat, n: nat, actions: seq<Action>)
    requires n > 0
    ensures Inv(Begin(nBatchSize, n).s)
    ensures var c := ActAll(Begin(nBatchSize, n), actions);
            !c.late ==> forall i :: 0 <= i < |c.idles| ==> c.idles[i]
  {
    StartInv(nBatchSize, n);
    ActAllSettled(Begin(nBatchSize, n), actions);
  }

  /** After any run, checks that are added after Wait leave the next controller without an idle queue: the assertion of
      its constructor can fail. */
  lemma {:induction false} LateAddFails(nBatchSize: nat, n: nat, actions: seq<Action>, checks: seq<Check>)
    requires n > 0 && checks != []
    ensures Inv(Begin(nBatchSize, n).s)
    ensures var c := ActAll(Begin(nBatchSize, n), actions);
            MasterOut(c.s) && c.control == Alive(true) ==>
              var c' := ActAll(Begin(nBatchSize, n), actions + [AddChecks(checks, 0)] + [Destroy] + [Construct]);
              c'.late && c'.idles == c.idles + [false]
  {
    StartInv(nBatchSize, n);
    var c := ActAll(Begin(nBatchSize, n), actions);
    if MasterOut(c.s) && c.control == Alive(true) {
      ActLast(Begin(nBatchSize, n), actions, AddChecks(checks, 0));
      ActLast(Begin(nBatchSize, n), actions + [AddChecks(checks, 0)], Destroy);
      ActLast(Begin(nBatchSize, n), actions + [AddChecks(checks, 0)] + [Destroy], Construct);
      CountsNatural(c.s);
    }
  }

  lemma {:induction false} ActLast(c: Session, actions: seq<Action>, action: Action)
    requires Inv(c.s)
    ensures var c1 := ActAll(c, actions);
            ActAll(c, actions + [action]) == if Possible(c1, action) then Act(c1, action) else c1
  {
    assert (actions + [action])[..|actions|] == actions;
  }
}
