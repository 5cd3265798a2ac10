/** The walks of the main thread over the list of threads, interleaved with the workers: what a walk takes
    out, joins and frees, and what it leaves. */
module ServerWalks {
  import opened Sequences
  import opened ServerSteps

  predicate Walking(m: Main) {
    m.Cleaning? || m.Joining?
  }

  /** What the walk has not reached yet. */
  function Rest(m: Main): seq<Id>
    requires Walking(m)
  {
    match m
    case Cleaning(_, todo) => todo
    case Joining(_, _, rest) => rest
  }

  /** The threads that were taken out of the list, now or before. */
  ghost function Gone(s: State): set<Id> {
    Members(s.joined) + Pending(s.main)
  }

  /** A list without some of its elements. */
  function Left(list: seq<Id>, gone: set<Id>): seq<Id> {
    if list == [] then [] else (if list[0] in gone then [] else [list[0]]) + Left(list[1..], gone)
  }

  lemma {:induction false} LeftHas(list: seq<Id>, gone: set<Id>)
    ensures forall x :: x in Left(list, gone) <==> x in list && x !in gone
  {
    if list != [] {
      LeftHas(list[1..], gone);
      assert forall x :: x in list <==> x == list[0] || x in list[1..];
    }
  }

  lemma {:induction false} LeftWhole(list: seq<Id>, gone: set<Id>)
    requires forall x :: x in list ==> x !in gone
    ensures Left(list, gone) == list
  {
    if list != [] {
      LeftWhole(list[1..], gone);
    }
  }

  lemma {:induction false} LeftUnless(list: seq<Id>, gone: set<Id>, id: Id)
    requires id !in list
    ensures Left(list, gone + {id}) == Left(list, gone)
  {
    if list != [] {
      LeftUnless(list[1..], gone, id);
    }
  }

  lemma {:induction false} LeftWithout(list: seq<Id>, gone: set<Id>, id: Id)
    requires Distinct(list) && id in list && id !in gone
    ensures Without(Left(list, gone), id) == Left(list, gone + {id})
  {
    var left := Left(list[1..], gone);
    assert ([list[0]] + left)[1..] == left && [] + left == left;
    assert [] + Left(list[1..], gone + {id}) == Left(list[1..], gone + {id});
    if list[0] == id {
      LeftUnless(list[1..], gone, id);
    } else {
      LeftWithout(list[1..], gone, id);
    }
  }

  // --------------------------------------------------------------------------- the finished flag

  ghost predicate FlagsOk(s: State) {
    && (forall id :: id in s.finished ==> id in s.workers)
    && (forall id :: id in s.workers ==> (id in s.finished <==> s.workers[id].Finished? || s.workers[id].Terminated?))
  }

  lemma WorkerKeepsFlags(w: World, s: State, s': State, id: Id)
    requires FlagsOk(s) && id in s.workers && WorkerStep(w, s, s', id)
    ensures FlagsOk(s') && s.finished <= s'.finished
  {
    hide ReceiveStep, SendStep, FlushStep, SeekStep;
    if LoopStep(w, s, s', id) {
      LoopTouches(w, s, s', id);
    }
  }

  lemma MainKeepsFlags(s: State, s': State)
    requires FlagsOk(s) && Lifetimes(s) && MainStep(s, s')
    ensures FlagsOk(s') && s.finished == s'.finished
  {
    MainTouches(s, s');
    hide Lifetimes;
    MainKeepsFinished(s, s');
    hide MainStep;
  }

  lemma MainKeepsFinished(s: State, s': State)
    requires MainStep(s, s')
    ensures s.finished == s'.finished
  {
    hide Without;
  }

  lemma StepKeepsFlags(w: World, s: State, s': State)
    requires FlagsOk(s) && Lifetimes(s) && Next(w, s, s')
    ensures FlagsOk(s') && s.finished <= s'.finished
  {
    hide MainStep, WorkerStep, Lifetimes, FlagsOk;
    if MainStep(s, s') {
      MainKeepsFlags(s, s');
    } else if exists id :: id in s.workers && WorkerStep(w, s, s', id) {
      var id :| id in s.workers && WorkerStep(w, s, s', id);
      WorkerKeepsFlags(w, s, s', id);
    } else {
      StopKeepsFlags(s, s');
    }
  }

  lemma StopKeepsFlags(s: State, s': State)
    requires FlagsOk(s) && s' == s.(stop := true)
    ensures FlagsOk(s') && s.finished <= s'.finished
  {
  }

  /** In every state of every run the flag of a thread is set exactly when it is past its turn. */
  lemma {:induction false} FlagsRight(w: World, tr: seq<State>, i: nat)
    requires Behaviour(w, tr) && i < |tr|
    ensures FlagsOk(tr[i]) && Lifetimes(tr[i])
  {
    hide Next, Lifetimes, FileOk;
    Reachable(w, tr, i);
    if i > 0 {
      FlagsRight(w, tr, i - 1);
      assert Next(w, tr[i - 1], tr[i - 1 + 1]);
      StepKeepsFlags(w, tr[i - 1], tr[i]);
    }
  }

  // ------------------------------------------------------------------------------------ one walk

  /** During the walk that began in `s0`: the rest of it is the end of the list of then, the list is that of then
      but for the threads gone, and every thread passed by is gone or had not finished then. */
  ghost predicate WalkInv(s0: State, s: State) {
    && Walking(s0.main) && Walking(s.main) && s.main.wait == s0.main.wait
    && s.list == Left(s0.list, Gone(s))
    && |Rest(s.main)| <= |s0.list| && Rest(s.main) == s0.list[|s0.list| - |Rest(s.main)|..]
    && forall p :: 0 <= p < |s0.list| - |Rest(s.main)| ==>
         s0.list[p] in Gone(s) || (s0.list[p] !in s0.finished && !s0.main.wait)
  }

  lemma WalkBegins(s: State)
    requires Lifetimes(s) && s.main.Cleaning? && s.main.todo == s.list
    ensures WalkInv(s, s)
  {
    LeftWhole(s.list, Gone(s));
  }

  lemma MainKeepsWalk(s0: State, s: State, s': State)
    requires WalkInv(s0, s) && Distinct(s0.list) && Lifetimes(s) && s0.finished <= s.finished
    requires MainStep(s, s') && Walking(s'.main)
    ensures WalkInv(s0, s')
  {
    hide Left, Without, Distinct, Lifetimes;
    if s.main.Joining? {
      JoinKeepsGone(s, s');
      MovesOn(s0, s, s');
    } else if s.main.todo[0] in s.finished || s.main.wait {
      TakesOut(s0, s, s');
    } else {
      PassesBy(s0, s, s');
    }
  }

  lemma MovesOn(s0: State, s: State, s': State)
    requires WalkInv(s0, s) && Walking(s'.main) && Gone(s') == Gone(s) && s'.list == s.list
    requires s'.main.wait == s.main.wait && Rest(s'.main) == Rest(s.main)
    ensures WalkInv(s0, s')
  {
    hide Left;
  }

  lemma TakesOut(s0: State, s: State, s': State)
    requires WalkInv(s0, s) && Distinct(s0.list) && Lifetimes(s) && s.main.Cleaning? && s.main.todo != []
    requires var id := s.main.todo[0];
             s' == s.(main := Joining(s.main.wait, id, s.main.todo[1..]), list := Without(s.list, id))
    ensures WalkInv(s0, s')
  {
    hide Left, Without, Distinct;
    var id, n := s.main.todo[0], |s0.list| - |s.main.todo|;
    assert s0.list[n] == id && s.main.todo[1..] == s0.list[n + 1..];
    assert id in s.main.todo && id !in Gone(s);
    LeftWithout(s0.list, Gone(s), id);
    assert Gone(s') == Gone(s) + {id};
  }

  lemma PassesBy(s0: State, s: State, s': State)
    requires WalkInv(s0, s) && s.main.Cleaning? && s.main.todo != [] && s0.finished <= s.finished
    requires s.main.todo[0] !in s.finished && !s.main.wait && s' == s.(main := Cleaning(false, s.main.todo[1..]))
    ensures WalkInv(s0, s')
  {
    hide Left;
    var n := |s0.list| - |s.main.todo|;
    assert s0.list[n] == s.main.todo[0] && s.main.todo[1..] == s0.list[n + 1..];
    assert Gone(s') == Gone(s);
  }

  lemma JoinKeepsGone(s: State, s': State)
    requires s.main.Joining? && MainStep(s, s')
    ensures Gone(s') == Gone(s)
  {
    assert Members(s.joined + [s.main.id]) == Members(s.joined) + {s.main.id};
  }

  lemma StepKeepsWalk(w: World, s0: State, s: State, s': State)
    requires WalkInv(s0, s) && Distinct(s0.list) && Lifetimes(s) && s0.finished <= s.finished
    requires Next(w, s, s') && Walking(s'.main)
    ensures WalkInv(s0, s')
  {
    hide MainStep, WorkerStep, Lifetimes, Left, Distinct;
    if MainStep(s, s') {
      MainKeepsWalk(s0, s, s');
    } else if exists id :: id in s.workers && WorkerStep(w, s, s', id) {
      var id :| id in s.workers && WorkerStep(w, s, s', id);
      WorkerTouches(w, s, s', id);
      assert Gone(s') == Gone(s);
    } else {
      assert Gone(s') == Gone(s);
    }
  }

  lemma {:induction false} WalkGoesOn(w: World, tr: seq<State>, i: nat, j: nat)
    requires Behaviour(w, tr) && i <= j < |tr| && forall k :: i <= k <= j ==> Walking(tr[k].main)
    requires tr[i].main.Cleaning? && tr[i].main.todo == tr[i].list
    ensures WalkInv(tr[i], tr[j]) && tr[i].finished <= tr[j].finished
    decreases j
  {
    hide Next, WalkInv, Lifetimes, FlagsOk;
    FlagsRight(w, tr, i);
    if i == j {
      WalkBegins(tr[i]);
    } else {
      WalkGoesOn(w, tr, i, j - 1);
      FlagsRight(w, tr, j - 1);
      assert Next(w, tr[j - 1], tr[j - 1 + 1]);
      ListIsDistinct(tr[i]);
      StepKeepsWalk(w, tr[i], tr[j - 1], tr[j]);
      StepKeepsFlags(w, tr[j - 1], tr[j]);
    }
  }

  lemma ListIsDistinct(s: State)
    requires Lifetimes(s)
    ensures Distinct(s.list)
  {
  }

  // ------------------------------------------------------------------------------- the theorems

  /** What one whole walk does, whatever the workers do meanwhile: every thread that had finished when it began is
      out of the list, joined, and its record freed; every thread that has not finished when it ends is still
      in the list; and the list is the old one, in its order, without the threads joined. A walk that waits
      leaves nothing. */
  lemma WalkTakesOutFinished(w: World, tr: seq<State>, i: nat, j: nat)
    requires Behaviour(w, tr) && i <= j < |tr| && forall k :: i <= k <= j ==> Walking(tr[k].main)
    requires tr[i].main.Cleaning? && tr[i].main.todo == tr[i].list
    requires tr[j].main.Cleaning? && tr[j].main.todo == []
    ensures forall id :: id in tr[i].list ==> id in tr[i].workers && id in tr[j].workers
    ensures forall id :: id in tr[i].list && (tr[i].workers[id].Finished? || tr[i].workers[id].Terminated?) ==>
              id !in tr[j].list && id in tr[j].joined && id !in tr[j].infos
    ensures forall id :: id in tr[i].list && !(tr[j].workers[id].Finished? || tr[j].workers[id].Terminated?) ==>
              id in tr[j].list && id in tr[j].infos && id !in tr[j].joined
    ensures tr[j].list == Left(tr[i].list, Members(tr[j].joined))
    ensures tr[i].main.wait ==> tr[j].list == []
  {
    hide Next;
    FlagsRight(w, tr, i);
    FlagsRight(w, tr, j);
    WalkGoesOn(w, tr, i, j);
    WalkEnds(tr[i], tr[j]);
  }

  lemma WalkEnds(s0: State, s: State)
    requires Lifetimes(s0) && Lifetimes(s) && FlagsOk(s0) && FlagsOk(s) && WalkInv(s0, s)
    requires s.main.Cleaning? && s.main.todo == []
    ensures s.list == Left(s0.list, Members(s.joined))
    ensures forall id :: id in s0.list ==> id in s0.workers && id in s.workers
    ensures forall id :: id in s0.list && id in s0.finished ==> id !in s.list && id in s.joined && id !in s.infos
    ensures forall id :: id in s0.list && id !in s.finished ==> id in s.list && id in s.infos && id !in s.joined
    ensures s0.main.wait ==> s.list == []
  {
    hide Distinct, Left;
    assert Gone(s) == Members(s.joined);
    LeftHas(s0.list, Gone(s));
  }

  /** Walks are whole, and there are no rounds without one but after a failed accept: a walk begins with the
      whole list and ends at its end; every accepted client is followed by one; the server that was told to stop
      walks once more, waiting, and ends only then. */
  lemma WalksAreWhole(w: World, s: State, s': State)
    requires Next(w, s, s')
    ensures !Walking(s.main) && Walking(s'.main) ==>
              s'.main == Cleaning(s.main.LoopTop?, s'.list) && (s.main.LoopTop? ==> s.stop)
    ensures s.main.LoopTop? && s.stop && s'.main != s.main ==> s'.main == Cleaning(true, s'.list)
    ensures s.main.Created? && s'.main != s.main ==> s'.main == Cleaning(false, s'.list)
    ensures Walking(s.main) && !Walking(s'.main) ==>
              s.main.Cleaning? && s.main.todo == [] && s'.main == if s.main.wait then Exited else LoopTop
    ensures s'.main.LoopTop? && !s.main.LoopTop? ==> s.main == Polling || s.main == Cleaning(false, [])
    ensures s'.main.Exited? && !s.main.Exited? ==> s.main == Cleaning(true, [])
  {
    hide WorkerStep, Without;
    if !MainStep(s, s') && s' != s.(stop := true) {
      var id :| id in s.workers && WorkerStep(w, s, s', id);
      WorkerTouches(w, s, s', id);
    }
  }
}
