/**
  run_once (3rdparty/boringssl/crypto/thread_win.c): any number of threads race to a word with
  compare-and-swap.  A step is one atomic access of one thread, and the scheduler picks the thread.
 */
module RunOnce {

  type Thread = nat

  /** Where a thread is: before the fast path, before the swap, in `init`, before the last write, out. */
  datatype Pc = Entry | Swapping | InInit | Publishing | Returned | Aborted

  /** The word, the threads that have moved, how often `init` was started, and whether it has finished. */
  datatype State = State(word: nat, pcs: map<Thread, Pc>, starts: nat, finished: bool)

  const INIT := State(0, map[], 0, false)

  function PcOf(s: State, t: Thread): Pc { if t in s.pcs then s.pcs[t] else Entry }

  function Moved(s: State, t: Thread, pc: Pc): State { s.(pcs := s.pcs[t := pc]) }

  function Step(s: State, t: Thread): State {
    match PcOf(s, t)
    case Entry => Moved(s, t, if s.word == 1 then Returned else Swapping)
    case Swapping =>
      if s.word == 0 then Moved(s.(word := 2, starts := s.starts + 1), t, InInit)
      else if s.word == 1 then Moved(s, t, Returned)
      else if s.word == 2 then s  // SwitchToThread, and again
      else Moved(s, t, Aborted)
    case InInit => Moved(s.(finished := true), t, Publishing)
    case Publishing => Moved(s.(word := 1), t, Returned)
    case Returned => s
    case Aborted => s
  }

  function After(schedule: seq<Thread>): State {
    if schedule == [] then INIT else Step(After(schedule[..|schedule| - 1]), schedule[|schedule| - 1])
  }

  predicate IsOwner(pc: Pc) { pc.InInit? || pc.Publishing? }

  /** The word tells the phase: nobody has started, one thread is at it, or `init` is done. */
  ghost predicate Invariant(s: State) {
    && s.word in {0, 1, 2}
    && s.starts == (if s.word == 0 then 0 else 1)
    && (s.word == 1 ==> s.finished)
    && (s.word == 0 ==> !s.finished)
    && (forall t | IsOwner(PcOf(s, t)) :: s.word == 2 && (s.finished <==> PcOf(s, t) == Publishing))
    && (forall t, u | IsOwner(PcOf(s, t)) && IsOwner(PcOf(s, u)) :: t == u)
    && (s.word == 2 ==> exists t :: IsOwner(PcOf(s, t)))
    && (forall t | PcOf(s, t) == Returned :: s.word == 1)
    && (forall t :: PcOf(s, t) != Aborted)
  }

  lemma StepKeepsInvariant(s: State, t: Thread)
    requires Invariant(s)
    ensures Invariant(Step(s, t))
  {
    var r := Step(s, t);
    assert forall u | u != t :: PcOf(r, u) == PcOf(s, u);
    if r.word == 2 {
      if s.word == 0 {
        assert IsOwner(PcOf(r, t));
      } else {
        var owner: Thread :| IsOwner(PcOf(s, owner));
        assert IsOwner(PcOf(r, owner));
      }
    }
  }

  lemma {:induction false} AlwaysInvariant(schedule: seq<Thread>)
    ensures Invariant(After(schedule))
  {
    hide Invariant, Step;
    if schedule == [] {
      InitIsInvariant();
    } else {
      AlwaysInvariant(schedule[..|schedule| - 1]);
      StepKeepsInvariant(After(schedule[..|schedule| - 1]), schedule[|schedule| - 1]);
    }
  }

  lemma InitIsInvariant()
    ensures Invariant(INIT)
  {
  }

  /** Whatever the schedule, `init` is started at most once, nobody is out before it is done, nobody aborts. */
  lemma {:induction false} OnceOnly(schedule: seq<Thread>, t: Thread)
    ensures After(schedule).starts <= 1
    ensures PcOf(After(schedule), t) == Returned ==> After(schedule).finished && After(schedule).starts == 1
    ensures PcOf(After(schedule), t) != Aborted
  {
    hide After;
    AlwaysInvariant(schedule);
  }

  /** The word goes from 0 to 2 and from 2 to 1, and no other way. */
  lemma {:induction false} WordMovesForward(schedule: seq<Thread>, t: Thread)
    ensures var w, x := After(schedule).word, After(schedule + [t]).word;
            x == w || (w == 0 && x == 2) || (w == 2 && x == 1)
  {
    assert (schedule + [t])[..|schedule|] == schedule;
    AlwaysInvariant(schedule);
  }

  function Run(s: State, schedule: seq<Thread>): State
    decreases |schedule|
  {
    if schedule == [] then s else Run(Step(s, schedule[0]), schedule[1..])
  }

  /** With the word at 2, two steps of the thread that holds it bring it to 1. */
  lemma OwnerFinishes(s: State, owner: Thread)
    requires Invariant(s) && IsOwner(PcOf(s, owner))
    ensures Step(Step(s, owner), owner).word == 1
  {
  }

  lemma EveryoneLeaves(s: State, t: Thread)
    requires Invariant(s) && s.word == 1
    ensures PcOf(Step(Step(s, t), t), t) == Returned
  {
  }

  /** Nobody is locked out: from every reachable state any thread can still be brought to return. */
  lemma {:induction false} CanAlwaysReturn(schedule: seq<Thread>, t: Thread)
    ensures exists more: seq<Thread> :: PcOf(Run(After(schedule), more), t) == Returned
  {
    hide After, Invariant;
    AlwaysInvariant(schedule);
    CanReturnFrom(After(schedule), t);
  }

  lemma RunFour(s: State, a: Thread, b: Thread, c: Thread, d: Thread)
    ensures Run(s, [a, b, c, d]) == Step(Step(Step(Step(s, a), b), c), d)
  {
    hide Step;
    var s1 := Step(s, a);
    var s2 := Step(s1, b);
    var s3 := Step(s2, c);
    assert [a, b, c, d][1..] == [b, c, d] && [b, c, d][1..] == [c, d] && [c, d][1..] == [d] && [d][1..] == [];
    assert Run(s3, [d]) == Step(s3, d);
    assert Run(s2, [c, d]) == Run(s3, [d]);
    assert Run(s1, [b, c, d]) == Run(s2, [c, d]);
  }

  lemma CanReturnFrom(s: State, t: Thread)
    requires Invariant(s)
    ensures exists more: seq<Thread> :: PcOf(Run(s, more), t) == Returned
  {
    if s.word == 0 {
      StepKeepsInvariant(s, t);
      StepKeepsInvariant(Step(s, t), t);
      FromTheStart(s, t);
      RunFour(s, t, t, t, t);
      assert PcOf(Run(s, [t, t, t, t]), t) == Returned;
    } else {
      var owner: Thread := if s.word == 2 then var o: Thread :| IsOwner(PcOf(s, o)); o else t;
      var u := Step(Step(s, owner), owner);
      StepKeepsInvariant(s, owner);
      StepKeepsInvariant(Step(s, owner), owner);
      if s.word == 2 {
        OwnerFinishes(s, owner);
      }
      EveryoneLeaves(u, t);
      RunFour(s, owner, owner, t, t);
      assert PcOf(Run(s, [owner, owner, t, t]), t) == Returned;
    }
  }

  /** With the word at 0 a thread on its own initialises and returns in four steps. */
  lemma FromTheStart(s: State, t: Thread)
    requires Invariant(s) && s.word == 0
    ensures PcOf(Step(Step(Step(Step(s, t), t), t), t), t) == Returned
  {
  }

  /** CRYPTO_once_t with the program counters of the threads that use it. */
  class Once {
    var word: nat
    var pcs: map<Thread, Pc>
    ghost var starts: nat
    ghost var finished: bool
    ghost var schedule: seq<Thread>

    ghost function Value(): State
      reads this
    {
      State(word, pcs, starts, finished)
    }

    ghost predicate Valid()
      reads this
    {
      Value() == After(schedule)
    }

    constructor ()
      ensures Valid() && schedule == []
    {
      word, pcs, starts, finished, schedule := 0, map[], 0, false, [];
    }

    method CompareExchange(new_: nat, expected: nat) returns (was: nat)
      modifies this`word
      ensures was == old(word) && word == if was == expected then new_ else was
    {
      was := word;
      if word == expected {
        word := new_;
      }
    }

    /** The next atomic step of thread t through run_once. */
    method Turn(t: Thread)
      requires Valid()
      modifies this
      ensures Valid() && schedule == old(schedule) + [t]
      ensures starts <= 1 && PcOf(Value(), t) != Aborted
      ensures PcOf(Value(), t) == Returned ==> finished
    {
      assert (schedule + [t])[..|schedule|] == schedule;
      schedule := schedule + [t];
      var pc := if t in pcs then pcs[t] else Entry;
      match pc {
        case Entry =>
          pcs := pcs[t := if word == 1 then Returned else Swapping];
        case Swapping =>
          var was := CompareExchange(2, 0);
          if was == 0 {
            starts := starts + 1;  // init is called
            pcs := pcs[t := InInit];
          } else if was == 1 {
            pcs := pcs[t := Returned];
          } else if was != 2 {
            pcs := pcs[t := Aborted];
          }
        case InInit =>
          finished := true;        // init has returned
          pcs := pcs[t := Publishing];
        case Publishing =>
          word := 1;
          pcs := pcs[t := Returned];
        case Returned =>
        case Aborted =>
      }
      OnceOnly(schedule, t);
    }
  }
}
