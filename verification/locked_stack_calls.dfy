/** Calls of the locked stack from start to end
    (src/sys/include/kernel/utils/stack.h): what a call is doing until it is
    over, and that it comes to an end when its thread is left alone. */
module StackCalls {

  import opened LockedStack
  import opened Shared

  // ---------- one call among others ----------

  datatype Call = NoCall | PushOf(node: nat) | PopCall

  /** The call a thread is in. */
  function CallOf(pc: Pc): Call {
    if pc.Idle? then NoCall else if Pushing(pc) then PushOf(pc.node) else PopCall
  }

  /** The event that ends a call of thread `t`. */
  predicate Ends(e: Event, t: nat, c: Call) {
    match c
    case NoCall => false
    case PushOf(node) => e == Pushed(t, node)
    case PopCall => e.Popped? && e.who == t
  }

  /** A call starts: the node of a push leaves the hand of the caller, and a push
      of null is over at once. */
  lemma CallStarts(s: State, t: nat, c: Choice)
    requires Enabled(s, t, c) && !c.Go?
    ensures var u := Step(s, t, c);
      && u.log == s.log && u.first == s.first && u.next == s.next && u.value == s.value
      && u.threads.Keys == s.threads.Keys && forall r | r in s.threads && r != t :: u.threads[r] == s.threads[r]
    ensures c == StartPush(NULL) ==> Step(s, t, c) == s
    ensures c.StartPush? && c.node != NULL ==>
      CallOf(Step(s, t, c).threads[t]) == PushOf(c.node) && Step(s, t, c).outside == s.outside - {c.node}
    ensures c.StartPop? ==> CallOf(Step(s, t, c).threads[t]) == PopCall && Step(s, t, c).outside == s.outside
  {
  }

  /** A call goes on, or is over; it is over exactly when its event is logged, and
      no other thread is touched. */
  lemma CallGoesOn(s: State, t: nat)
    requires Enabled(s, t, Go)
    ensures var u := Step(s, t, Go);
      && u.threads.Keys == s.threads.Keys && (forall r | r in s.threads && r != t :: u.threads[r] == s.threads[r])
      && if u.log == s.log then CallOf(u.threads[t]) == CallOf(s.threads[t]) != NoCall
         else
           && CallOf(u.threads[t]) == NoCall && |u.log| == |s.log| + 1 && u.log[..|s.log|] == s.log
           && Ends(u.log[|s.log|], t, CallOf(s.threads[t]))
  {
  }

  /** The first event of a thread. */
  function FirstBy(log: seq<Event>, t: nat): Option<Event> {
    if log == [] then None else if log[0].who == t then Some(log[0]) else FirstBy(log[1..], t)
  }

  lemma RunThreads(s: State, t: nat, c: Choice)
    requires Enabled(s, t, c)
    ensures var u := Step(s, t, c);
      && u.threads.Keys == s.threads.Keys && (forall r | r in s.threads && r != t :: u.threads[r] == s.threads[r])
      && (u.log == s.log || (|u.log| == |s.log| + 1 && u.log[..|s.log|] == s.log && u.log[|s.log|].who == t))
  {
    if c.Go? { CallGoesOn(s, t); } else { CallStarts(s, t, c); }
    hide Step;
  }

  lemma {:induction false} LogGrows(s: State, moves: seq<Move>)
    requires Schedule(s, moves)
    ensures |s.log| <= |Run(s, moves).log| && Run(s, moves).log[..|s.log|] == s.log
    ensures Run(s, moves).threads.Keys == s.threads.Keys
    decreases |moves|
  {
    if moves != [] {
      var u := Step(s, moves[0].thread, moves[0].choice);
      RunThreads(s, moves[0].thread, moves[0].choice);
      hide Step;
      LogGrows(u, moves[1..]);
      assert Run(s, moves).log[..|s.log|] == Run(s, moves).log[..|u.log|][..|s.log|];
    }
  }

  /** Under every schedule a thread that is in a call stays in it until it logs its
      end: the first thing a thread logs is the end of the call it is in. */
  lemma {:induction false} CallEnds(s: State, moves: seq<Move>, t: nat)
    requires Schedule(s, moves) && t in s.threads && !s.threads[t].Idle?
    ensures var u := Run(s, moves);
      && |s.log| <= |u.log| && u.log[..|s.log|] == s.log && t in u.threads
      && match FirstBy(u.log[|s.log|..], t)
         case None => CallOf(u.threads[t]) == CallOf(s.threads[t])
         case Some(e) => Ends(e, t, CallOf(s.threads[t]))
    decreases |moves|
  {
    LogGrows(s, moves);
    if moves != [] {
      var m := moves[0];
      var u := Step(s, m.thread, m.choice);
      RunThreads(s, m.thread, m.choice);
      LogGrows(u, moves[1..]);
      var end := Run(u, moves[1..]);
      if m.thread == t { CallGoesOn(s, t); }
      hide Step;
      hide Run;
      hide Schedule;
      hide CallOf;
      assert Run(s, moves) == end;
      if |u.log| > |s.log| {
        assert end.log[|s.log|..] == [u.log[|s.log|]] + end.log[|u.log|..] by {
          assert end.log[..|u.log|][|s.log|] == u.log[|s.log|];
        }
      }
      if m.thread != t || u.log == s.log {
        CallEnds(u, moves[1..], t);
      }
    }
  }

  // ---------- one call alone ----------

  /** Up to `n` steps of a thread, until it is between calls. */
  function Alone(s: State, t: nat, n: nat): State
    decreases n
  {
    if n == 0 || t !in s.threads || s.threads[t].Idle? then s else Alone(Step(s, t, Go), t, n - 1)
  }

  lemma AloneStep(s: State, t: nat, n: nat)
    requires n > 0 && t in s.threads && !s.threads[t].Idle?
    ensures Alone(s, t, n) == Alone(Step(s, t, Go), t, n - 1)
  {
  }

  lemma AloneEnds(s: State, t: nat, n: nat)
    requires t in s.threads && s.threads[t].Idle?
    ensures Alone(s, t, n) == s
  {
  }

  /** A push that finds the lock free is over after five steps of its thread: the
      node is the new head, linked to the old one, and nothing else has changed. */
  lemma PushCompletes(s: State, t: nat, node: nat)
    requires t in s.threads && s.threads[t].Idle? && s.value == 0 && node != NULL && node in s.outside
    ensures var u := Alone(Step(s, t, StartPush(node)), t, 5);
      && u.threads == s.threads && u.value == 0 && u.outside == s.outside - {node}
      && u.log == s.log + [Pushed(t, node)]
      && u.first == node && u.next(node) == s.first && forall n :: n != node ==> u.next(n) == s.next(n)
  {
    hide Alone;
    var s0 := Step(s, t, StartPush(node));
    AloneStep(s0, t, 5);
    var s1 := Step(s0, t, Go);
    AloneStep(s1, t, 4);
    var s2 := Step(s1, t, Go);
    AloneStep(s2, t, 3);
    var s3 := Step(s2, t, Go);
    AloneStep(s3, t, 2);
    var s4 := Step(s3, t, Go);
    AloneStep(s4, t, 1);
    AloneEnds(Step(s4, t, Go), t, 0);
  }

  /** A pop that finds the lock free is over after four steps if the stack is
      empty, and after eight if it is not: the newest node is out of the stack,
      its link cleared, in the hand of the caller. */
  lemma PopCompletes(s: State, t: nat)
    requires Inv(s) && t in s.threads && s.threads[t].Idle? && s.value == 0
    ensures var u, top := Alone(Step(s, t, StartPop), t, 8), Top(Contents(s.log));
      && u.threads == s.threads && u.value == 0 && u.log == s.log + [Popped(t, top)]
      && (top == NULL ==> s.first == NULL && u.first == NULL && u.outside == s.outside && u.next == s.next)
      && (top != NULL ==>
        && s.first == top && u.first == s.next(top) && u.outside == s.outside + {top}
        && u.next(top) == NULL && forall n :: n != top ==> u.next(n) == s.next(n))
  {
    assert Chain(s.next, s.first, Contents(s.log));
    ChainEnds(s.next, s.first, Contents(s.log));
    hide Inv;
    hide Contents;
    hide Chain;
    hide Alone;
    hide Step;
    var s0, s1 := InCall(s, t, PopLock, 0), InCall(s, t, PopRead, 1);
    var s2 := InCall(s, t, PopTest(s.first), 1);
    PopBegins(s, t);
    AloneStep(s0, t, 8);
    AloneStep(s1, t, 7);
    AloneStep(s2, t, 6);
    if s.first == NULL {
      var s3 := InCall(s, t, PopUnlock(NULL), 1);
      AloneStep(s3, t, 5);
      PopEnds(s3, s, t, NULL);
      AloneEnds(Step(s3, t, Go), t, 4);
    } else {
      PopRest(s, t);
    }
  }

  /** The state in which only the lock byte and the place of `t` are different. */
  function InCall(s: State, t: nat, pc: Pc, value: nat): State {
    s.(value := value, threads := s.threads[t := pc])
  }

  lemma PopBegins(s: State, t: nat)
    requires t in s.threads && s.threads[t].Idle? && s.value == 0
    ensures Step(s, t, StartPop) == InCall(s, t, PopLock, 0)
    ensures Step(InCall(s, t, PopLock, 0), t, Go) == InCall(s, t, PopRead, 1)
    ensures Step(InCall(s, t, PopRead, 1), t, Go) == InCall(s, t, PopTest(s.first), 1)
    ensures Step(InCall(s, t, PopTest(s.first), 1), t, Go) ==
      InCall(s, t, if s.first == NULL then PopUnlock(NULL) else PopHead(s.first), 1)
  {
  }

  lemma PopMiddle(s: State, t: nat)
    requires t in s.threads && s.first != NULL
    ensures var top, u := s.first, s.(first := s.next(s.first));
      && Step(InCall(s, t, PopHead(top), 1), t, Go) == InCall(s, t, PopNext(top, top), 1)
      && Step(InCall(s, t, PopNext(top, top), 1), t, Go) == InCall(s, t, PopStore(top, u.first), 1)
      && Step(InCall(s, t, PopStore(top, u.first), 1), t, Go) == InCall(u, t, PopClear(top), 1)
      && Step(InCall(u, t, PopClear(top), 1), t, Go)
         == InCall(u.(next := Link(s.next, top, NULL)), t, PopUnlock(top), 1)
  {
  }

  lemma PopEnds(s: State, was: State, t: nat, result: nat)
    requires t in was.threads && s == InCall(s, t, PopUnlock(result), 1)
    requires s.threads == was.threads[t := PopUnlock(result)]
    ensures Step(s, t, Go) == s.(value := 0, threads := was.threads[t := Idle], log := s.log + [Popped(t, result)],
                                 outside := if result == NULL then s.outside else s.outside + {result})
  {
  }

  lemma CallAt(s: State, t: nat, pc: Pc)
    ensures t in InCall(s, t, pc, 1).threads && InCall(s, t, pc, 1).threads[t] == pc
  {
  }

  /** One step from a known place to the next. */
  lemma AloneMoves(s: State, t: nat, pc: Pc, u: State, n: nat)
    requires n > 0 && !pc.Idle? && Step(InCall(s, t, pc, 1), t, Go) == u
    ensures Alone(InCall(s, t, pc, 1), t, n) == Alone(u, t, n - 1)
  {
    CallAt(s, t, pc);
    hide InCall;
    hide Step;
    hide Alone;
    AloneStep(InCall(s, t, pc, 1), t, n);
  }

  /** The state before a pop of `top` unlocks. */
  function Unlinked(s: State, top: nat): State {
    s.(first := s.next(top), next := Link(s.next, top, NULL))
  }

  lemma PopRuns(s: State, t: nat)
    requires t in s.threads && s.first != NULL
    ensures var begin, end := PopHead(s.first), PopUnlock(s.first);
      Alone(InCall(s, t, begin, 1), t, 5) == Alone(InCall(Unlinked(s, s.first), t, end, 1), t, 1)
  {
    var top, v := s.first, s.(first := s.next(s.first));
    PopMiddle(s, t);
    assert v.(next := Link(s.next, top, NULL)) == Unlinked(s, top);
    hide Step;
    hide Alone;
    hide InCall;
    AloneMoves(s, t, PopHead(top), InCall(s, t, PopNext(top, top), 1), 5);
    AloneMoves(s, t, PopNext(top, top), InCall(s, t, PopStore(top, v.first), 1), 4);
    AloneMoves(s, t, PopStore(top, v.first), InCall(v, t, PopClear(top), 1), 3);
    AloneMoves(v, t, PopClear(top), InCall(Unlinked(s, top), t, PopUnlock(top), 1), 2);
  }

  /** The second half of a pop of a stack that is not empty. */
  lemma PopRest(s: State, t: nat)
    requires t in s.threads && s.first != NULL
    ensures var u := Alone(InCall(s, t, PopHead(s.first), 1), t, 5);
      && u.threads == s.threads[t := Idle] && u.value == 0 && u.log == s.log + [Popped(t, s.first)]
      && u.first == s.next(s.first) && u.outside == s.outside + {s.first}
      && u.next(s.first) == NULL && forall n :: n != s.first ==> u.next(n) == s.next(n)
  {
    var top := s.first;
    var w := InCall(Unlinked(s, top), t, PopUnlock(top), 1);
    PopRuns(s, t);
    PopEnds(w, s, t, top);
    var u := Step(w, t, Go);
    hide Step;
    hide Alone;
    AloneMoves(Unlinked(s, top), t, PopUnlock(top), u, 1);
    AloneEnds(u, t, 0);
  }
}
