/** The failpoint registry: lock-delimited sections of Trip, Arm, Disarm and Reset, interleaved. */
module Failpoints {

  datatype Effect = Effect(kind: string, err: string, delay: int, once: bool, matchRepo: string, matchIssue: int)

  datatype Caller = Caller(repo: string, issue: int)

  /** Each Arm stores its effect in a cell of its own; the registry holds cell addresses, so
      comparing addresses is the source's pointer comparison. */
  type Address = nat

  /** A Trip between its read section and its consuming section. */
  datatype Waiting = Waiting(name: string, cell: Address)

  datatype Return = Return(trip: nat, cell: Address)

  datatype State = State(
    registry: map<string, Address>,
    cells: map<Address, Effect>,
    next: Address,
    waiting: map<nat, Waiting>,
    trips: set<nat>,
    returned: seq<Return>)

  const EMPTY := State(map[], map[], 0, map[], {}, [])

  datatype Step =
    | Arm(name: string, eff: Effect)
    | Disarm(name: string)
    | Reset
    | TripRead(trip: nat, name: string, caller: Caller)
    | TripConsume(trip: nat)

  predicate Matches(e: Effect, c: Caller) {
    (e.matchRepo == "" || e.matchRepo == c.repo) && (e.matchIssue == 0 || e.matchIssue == c.issue)
  }

  function Armed(s: State, name: string, eff: Effect): State {
    s.(registry := s.registry[name := s.next], cells := s.cells[s.next := eff], next := s.next + 1)
  }

  /** The read section: a mismatch ends the trip, a reusable effect is returned at once, a
      one-shot effect still has to be consumed. */
  function ReadSection(s: State, trip: nat, name: string, caller: Caller): State {
    var t := s.(trips := s.trips + {trip});
    if name !in s.registry || s.registry[name] !in s.cells then t
    else
      var cell := s.registry[name];
      if !Matches(s.cells[cell], caller) then t
      else if s.cells[cell].once then t.(waiting := s.waiting[trip := Waiting(name, cell)])
      else t.(returned := s.returned + [Return(trip, cell)])
  }

  /** The consuming section re-checks that the very effect it read is still armed. */
  function ConsumeSection(s: State, trip: nat): State
    requires trip in s.waiting
  {
    var w := s.waiting[trip];
    var t := s.(waiting := s.waiting - {trip});
    if w.name in s.registry && s.registry[w.name] == w.cell
    then t.(registry := s.registry - {w.name}, returned := s.returned + [Return(trip, w.cell)])
    else t
  }

  function Apply(s: State, step: Step): State {
    match step
    case Arm(name, eff) => Armed(s, name, eff)
    case Disarm(name) => s.(registry := s.registry - {name})
    case Reset => s.(registry := map[])
    case TripRead(trip, name, caller) => if trip in s.trips then s else ReadSection(s, trip, name, caller)
    case TripConsume(trip) => if trip in s.waiting then ConsumeSection(s, trip) else s
  }

  function Exec(steps: seq<Step>): State {
    if steps == [] then EMPTY else Apply(Exec(steps[..|steps| - 1]), steps[|steps| - 1])
  }

  // ----- what every interleaving keeps ----------------------------------------------

  ghost predicate RegistryOk(s: State) {
    && (forall n :: n in s.registry ==> s.registry[n] in s.cells)
    && (forall m, n :: m in s.registry && n in s.registry && s.registry[m] == s.registry[n] ==> m == n)
    && (forall c :: c in s.cells ==> c < s.next)
  }

  ghost predicate WaitingOk(s: State) {
    forall t :: t in s.waiting ==> s.waiting[t].cell in s.cells && s.cells[s.waiting[t].cell].once
  }

  ghost predicate Unregistered(s: State, cell: Address) {
    forall n :: n in s.registry ==> s.registry[n] != cell
  }

  ghost predicate IsOnce(s: State, cell: Address) {
    cell in s.cells && s.cells[cell].once
  }

  ghost predicate ReturnsOk(s: State) {
    && (forall i :: 0 <= i < |s.returned| ==> s.returned[i].cell in s.cells)
    && (forall i :: 0 <= i < |s.returned| && IsOnce(s, s.returned[i].cell) ==> Unregistered(s, s.returned[i].cell))
    && (forall i, j :: 0 <= i < j < |s.returned| && IsOnce(s, s.returned[i].cell) ==>
          s.returned[i].cell != s.returned[j].cell)
  }

  ghost predicate Inv(s: State) {
    RegistryOk(s) && WaitingOk(s) && ReturnsOk(s)
  }

  lemma ArmKeepsInv(s: State, name: string, eff: Effect)
    requires Inv(s)
    ensures Inv(Armed(s, name, eff))
  {}

  lemma UnregisterKeepsInv(s: State, s': State)
    requires Inv(s) && s'.cells == s.cells && s'.next == s.next && s'.waiting == s.waiting && s'.returned == s.returned
    requires forall n :: n in s'.registry ==> n in s.registry && s'.registry[n] == s.registry[n]
    ensures Inv(s')
  {
    forall i | 0 <= i < |s'.returned| && IsOnce(s', s'.returned[i].cell) ensures Unregistered(s', s'.returned[i].cell) {
      assert Unregistered(s, s.returned[i].cell);
    }
  }

  lemma ReadKeepsInv(s: State, trip: nat, name: string, caller: Caller)
    requires Inv(s)
    ensures Inv(ReadSection(s, trip, name, caller))
  {
    var r := ReadSection(s, trip, name, caller);
    forall i | 0 <= i < |r.returned| && IsOnce(r, r.returned[i].cell) ensures Unregistered(r, r.returned[i].cell) {
      assert i < |s.returned|;
      assert Unregistered(s, s.returned[i].cell);
    }
  }

  lemma ConsumeKeepsInv(s: State, trip: nat)
    requires Inv(s) && trip in s.waiting
    ensures Inv(ConsumeSection(s, trip))
  {
    var r := ConsumeSection(s, trip);
    var w := s.waiting[trip];
    if w.name in s.registry && s.registry[w.name] == w.cell {
      forall i | 0 <= i < |s.returned| && IsOnce(s, s.returned[i].cell) ensures s.returned[i].cell != w.cell {
        assert Unregistered(s, s.returned[i].cell);
      }
      forall i | 0 <= i < |r.returned| && IsOnce(r, r.returned[i].cell) ensures Unregistered(r, r.returned[i].cell) {
        if i < |s.returned| { assert Unregistered(s, s.returned[i].cell); }
      }
    } else {
      assert r.registry == s.registry && r.returned == s.returned;
      forall i | 0 <= i < |r.returned| && IsOnce(r, r.returned[i].cell) ensures Unregistered(r, r.returned[i].cell) {
        assert Unregistered(s, s.returned[i].cell);
      }
    }
  }

  lemma StepKeepsInv(s: State, step: Step)
    requires Inv(s)
    ensures Inv(Apply(s, step))
  {
    match step
    case Arm(name, eff) => ArmKeepsInv(s, name, eff);
    case Disarm(name) => UnregisterKeepsInv(s, Apply(s, step));
    case Reset => UnregisterKeepsInv(s, Apply(s, step));
    case TripRead(trip, name, caller) => if trip !in s.trips { ReadKeepsInv(s, trip, name, caller); }
    case TripConsume(trip) => if trip in s.waiting { ConsumeKeepsInv(s, trip); }
  }

  lemma {:induction false} ReachableInv(steps: seq<Step>)
    ensures Inv(Exec(steps))
  {
    if steps == [] {
    } else {
      ReachableInv(steps[..|steps| - 1]);
      StepKeepsInv(Exec(steps[..|steps| - 1]), steps[|steps| - 1]);
    }
  }

  // ----- main results -----------------------------------------------------------------

  /** In every interleaving an effect armed with Once is returned by at most one Trip. */
  lemma OnceReturnedOnce(steps: seq<Step>, i: nat, j: nat)
    requires i < |Exec(steps).returned| && j < |Exec(steps).returned|
    requires Exec(steps).returned[i].cell == Exec(steps).returned[j].cell
    requires IsOnce(Exec(steps), Exec(steps).returned[i].cell)
    ensures i == j
  {
    ReachableInv(steps);
  }

  /** At step k the trip found cell under a name, and the effect asked for the caller's repository and
      issue or for none. */
  ghost predicate ReadAt(steps: seq<Step>, k: int, trip: nat, cell: Address) {
    && 0 <= k < |steps| && steps[k].TripRead? && steps[k].trip == trip
    && var s, c := Exec(steps[..k]), steps[k].caller;
       && steps[k].name in s.registry && s.registry[steps[k].name] == cell && cell in s.cells
       && (s.cells[cell].matchRepo == "" || s.cells[cell].matchRepo == c.repo)
       && (s.cells[cell].matchIssue == 0 || s.cells[cell].matchIssue == c.issue)
  }

  lemma ReadAtExtends(steps: seq<Step>, k: int, trip: nat, cell: Address)
    requires steps != [] && ReadAt(steps[..|steps| - 1], k, trip, cell)
    ensures ReadAt(steps, k, trip, cell)
  {
    assert steps[..|steps| - 1][..k] == steps[..k];
  }

  lemma {:induction false} WaitingWasRead(steps: seq<Step>, trip: nat) returns (k: int)
    requires trip in Exec(steps).waiting
    ensures ReadAt(steps, k, trip, Exec(steps).waiting[trip].cell)
  {
    var init, last := steps[..|steps| - 1], steps[|steps| - 1];
    if trip in Exec(init).waiting && Exec(init).waiting[trip] == Exec(steps).waiting[trip] {
      k := WaitingWasRead(init, trip);
      ReadAtExtends(steps, k, trip, Exec(steps).waiting[trip].cell);
    } else {
      k := |steps| - 1;
    }
  }

  /** In every interleaving whatever a Trip returns was armed, under the name it asked for, at its own
      read section, and matched its caller. */
  lemma {:induction false} ReturnedWasMatched(steps: seq<Step>, i: nat) returns (k: int)
    requires i < |Exec(steps).returned|
    ensures ReadAt(steps, k, Exec(steps).returned[i].trip, Exec(steps).returned[i].cell)
  {
    var init, last := steps[..|steps| - 1], steps[|steps| - 1];
    var r := Exec(steps).returned[i];
    if i < |Exec(init).returned| {
      k := ReturnedWasMatched(init, i);
      ReadAtExtends(steps, k, r.trip, r.cell);
    } else if last.TripConsume? {
      k := WaitingWasRead(init, last.trip);
      ReadAtExtends(steps, k, r.trip, r.cell);
    } else {
      k := |steps| - 1;
    }
  }

  /** The effect asks for this repository or for none, and for this issue or for none. */
  ghost predicate Wants(e: Effect, repo: string, issue: int) {
    e.matchRepo in {"", repo} && e.matchIssue in {0, issue}
  }

  /** What a read section does: nothing without a matching effect, return a reusable one at once, and
      go on to the consuming section for a one-shot. */
  lemma ReadOutcome(s: State, trip: nat, name: string, c: Caller)
    requires trip !in s.trips && RegistryOk(s)
    ensures var r := Apply(s, TripRead(trip, name, c));
            var hit := name in s.registry && Wants(s.cells[s.registry[name]], c.repo, c.issue);
            && r.registry == s.registry && r.cells == s.cells
            && (!hit ==> r.returned == s.returned && r.waiting == s.waiting)
            && (hit && !s.cells[s.registry[name]].once ==> r.returned == s.returned + [Return(trip, s.registry[name])])
            && (hit && s.cells[s.registry[name]].once ==>
                  r.returned == s.returned && trip in r.waiting && r.waiting[trip] == Waiting(name, s.registry[name]))
  {}

  /** An arming that is no longer in the registry. */
  ghost predicate Gone(s: State, cell: Address) {
    cell in s.cells && Unregistered(s, cell)
  }

  lemma GoneStays(s: State, step: Step, cell: Address)
    requires Inv(s) && Gone(s, cell)
    ensures Gone(Apply(s, step), cell)
    ensures s.returned <= Apply(s, step).returned
    ensures forall i :: |s.returned| <= i < |Apply(s, step).returned| ==> Apply(s, step).returned[i].cell != cell
  {}

  /** Once disarmed, replaced, reset or consumed, an arming is returned by no later section. */
  lemma {:induction false} GoneNeverReturned(steps: seq<Step>, more: seq<Step>, cell: Address)
    requires Gone(Exec(steps), cell)
    ensures var s := Exec(steps); var r := Exec(steps + more);
            && Gone(r, cell) && s.returned <= r.returned
            && forall i :: |s.returned| <= i < |r.returned| ==> r.returned[i].cell != cell
  {
    if more == [] {
      assert steps + more == steps;
    } else {
      var init := more[..|more| - 1];
      var all := steps + more;
      assert all[..|all| - 1] == steps + init && all[|all| - 1] == more[|more| - 1];
      GoneNeverReturned(steps, init, cell);
      ReachableInv(steps + init);
      GoneStays(Exec(steps + init), more[|more| - 1], cell);
    }
  }

  /** Arming again under the same name retires the earlier arming. */
  lemma ReplacedIsGone(s: State, name: string, eff: Effect)
    requires Inv(s) && name in s.registry
    ensures Gone(Armed(s, name, eff), s.registry[name])
  {}

  lemma DisarmedIsGone(s: State, name: string)
    requires Inv(s) && name in s.registry
    ensures Gone(Apply(s, Disarm(name)), s.registry[name]) && Gone(Apply(s, Reset), s.registry[name])
  {}

  /** No section in `more` arms, disarms or resets `name`. */
  ghost predicate LeavesAlone(more: seq<Step>, name: string) {
    forall i :: 0 <= i < |more| ==>
      !(more[i].Arm? && more[i].name == name) && !(more[i].Disarm? && more[i].name == name) && !more[i].Reset?
  }

  /** Some section between s and r returns cell. */
  ghost predicate ReturnedSince(s: State, r: State, cell: Address) {
    exists i :: |s.returned| <= i < |r.returned| && r.returned[i].cell == cell
  }

  ghost predicate Holds(s: State, name: string, cell: Address) {
    name in s.registry && s.registry[name] == cell
  }

  /** One section: the arming under `name` goes away exactly when it is a one-shot and is returned. */
  lemma HeldStep(s: State, step: Step, name: string, cell: Address)
    requires Inv(s) && Holds(s, name, cell) && LeavesAlone([step], name)
    ensures var r := Apply(s, step);
            cell in r.cells && r.cells[cell] == s.cells[cell] && s.returned <= r.returned &&
            (Holds(r, name, cell) <==> !(s.cells[cell].once && ReturnedSince(s, r, cell)))
  {
    var r := Apply(s, step);
    assert [step][0] == step;
    if step.TripConsume? && step.trip in s.waiting && Holds(s, s.waiting[step.trip].name, s.waiting[step.trip].cell) {
      assert r.returned[|s.returned|] == Return(step.trip, s.waiting[step.trip].cell);
    }
  }

  /** From s to r, the arming under `name` is in place until it is returned, and gone then exactly
      if it is a one-shot. */
  ghost predicate HeldUntilReturned(s: State, r: State, name: string, cell: Address) {
    && cell in s.cells && cell in r.cells && r.cells[cell] == s.cells[cell] && s.returned <= r.returned
    && (Holds(r, name, cell) <==> !(s.cells[cell].once && ReturnedSince(s, r, cell)))
  }

  lemma HeldOn(s: State, m: State, step: Step, name: string, cell: Address)
    requires Inv(m) && HeldUntilReturned(s, m, name, cell) && LeavesAlone([step], name)
    ensures HeldUntilReturned(s, Apply(m, step), name, cell)
  {
    if Holds(m, name, cell) {
      HeldStep(m, step, name, cell);
    } else {
      ReturnedIsGone(s, m, cell);
      GoneStays(m, step, cell);
    }
    SinceExtends(s, m, Apply(m, step), cell);
  }

  /** In every interleaving an arming that is not disarmed, replaced or reset stays in place until a
      Trip returns it, and goes away then exactly if it is a one-shot: no Trip that read an earlier
      arming under the same name can take it away. */
  lemma {:induction false} OnlyItsOwnTripDisarms(steps: seq<Step>, more: seq<Step>, name: string, cell: Address)
    requires Holds(Exec(steps), name, cell) && LeavesAlone(more, name)
    ensures HeldUntilReturned(Exec(steps), Exec(steps + more), name, cell)
  {
    if more == [] {
      ReachableInv(steps);
      assert steps + more == steps;
    } else {
      var init, last := more[..|more| - 1], more[|more| - 1];
      var all := steps + more;
      assert all[..|all| - 1] == steps + init && all[|all| - 1] == last;
      OnlyItsOwnTripDisarms(steps, init, name, cell);
      ReachableInv(steps + init);
      HeldOn(Exec(steps), Exec(steps + init), last, name, cell);
    }
  }

  lemma SinceExtends(s: State, m: State, r: State, cell: Address)
    requires s.returned <= m.returned <= r.returned
    ensures s.returned <= r.returned
    ensures ReturnedSince(s, r, cell) <==> ReturnedSince(s, m, cell) || ReturnedSince(m, r, cell)
  {
    if ReturnedSince(s, m, cell) {
      var i :| |s.returned| <= i < |m.returned| && m.returned[i].cell == cell;
      assert r.returned[i] == m.returned[i];
    }
    if ReturnedSince(s, r, cell) {
      var i :| |s.returned| <= i < |r.returned| && r.returned[i].cell == cell;
      if i < |m.returned| { assert m.returned[i] == r.returned[i]; }
    }
  }

  lemma ReturnedIsGone(s: State, m: State, cell: Address)
    requires Inv(m) && IsOnce(m, cell) && ReturnedSince(s, m, cell)
    ensures Gone(m, cell)
  {
    var i :| |s.returned| <= i < |m.returned| && m.returned[i].cell == cell;
    assert Unregistered(m, m.returned[i].cell);
  }

  // ----- the registry as the package keeps it -----------------------------------------

  class Registry {
    var registry: map<string, Address>
    var cells: map<Address, Effect>
    var next: Address
    var waiting: map<nat, Waiting>
    var trips: set<nat>
    var returned: seq<Return>

    ghost function View(): State
      reads this
    {
      State(registry, cells, next, waiting, trips, returned)
    }

    constructor ()
      ensures View() == EMPTY
    {
      registry, cells, next, waiting, trips, returned := map[], map[], 0, map[], {}, [];
    }

    /** Reports whether the name was newly armed. */
    method ArmEffect(name: string, eff: Effect) returns (isNew: bool)
      modifies this
      ensures View() == Apply(old(View()), Arm(name, eff))
      ensures isNew <==> name !in old(registry)
    {
      isNew := name !in registry;
      cells := cells[next := eff];
      registry := registry[name := next];
      next := next + 1;
    }

    method DisarmName(name: string)
      modifies this
      ensures View() == Apply(old(View()), Disarm(name))
    {
      registry := registry - {name};
    }

    method ResetAll()
      modifies this
      ensures View() == Apply(old(View()), Reset)
    {
      registry := map[];
    }

    /** The section under the read lock and the match that follows it. */
    method BeginTrip(trip: nat, name: string, caller: Caller)
      requires trip !in trips
      modifies this
      ensures View() == Apply(old(View()), TripRead(trip, name, caller))
    {
      trips := trips + {trip};
      if name !in registry || registry[name] !in cells {
        return;
      }
      var cell := registry[name];
      var eff := cells[cell];
      if eff.matchRepo != "" && eff.matchRepo != caller.repo {
        return;
      }
      if eff.matchIssue != 0 && eff.matchIssue != caller.issue {
        return;
      }
      if eff.once {
        waiting := waiting[trip := Waiting(name, cell)];
      } else {
        returned := returned + [Return(trip, cell)];
      }
    }

    /** The section under the write lock. */
    method FinishTrip(trip: nat) returns (hit: bool)
      requires trip in waiting
      modifies this
      ensures View() == Apply(old(View()), TripConsume(trip))
      ensures hit <==> |returned| > |old(returned)|
    {
      var w := waiting[trip];
      waiting := waiting - {trip};
      if w.name !in registry || registry[w.name] != w.cell {
        return false;
      }
      registry := registry - {w.name};
      returned := returned + [Return(trip, w.cell)];
      return true;
    }
  }
}
