/** The kernel's stack of nodes, guarded by a spin lock, under every interleaving
    of any number of threads (src/sys/include/kernel/thread/spinlock.h,
    src/sys/include/kernel/utils/stack.h). Each step is one access to memory. */
module LockedStack {

  const NULL: nat := 0

  /** Where a thread is in `Push(node)` or `Pop()`, and what it has read. */
  datatype Pc =
    | Idle
    | PushLock(node: nat)
    | PushRead(node: nat)
    | PushLink(node: nat, seen: nat)
    | PushStore(node: nat)
    | PushUnlock(node: nat)
    | PopLock
    | PopRead
    | PopTest(result: nat)
    | PopHead(result: nat)
    | PopNext(result: nat, head: nat)
    | PopStore(result: nat, seen: nat)
    | PopClear(result: nat)
    | PopUnlock(result: nat)

  /** A finished call, and who made it; a pop of the empty stack yields null. */
  datatype Event = Pushed(who: nat, node: nat) | Popped(who: nat, result: nat)

  /** `value` is the byte of the lock, `first` the head of the stack, `next` the
      links in the nodes. `outside` holds the nodes callers have in hand, and
      `log` the finished calls in the order of their unlocking. */
  datatype State = State(value: nat, first: nat, next: nat -> nat,
                           threads: map<nat, Pc>, outside: set<nat>, log: seq<Event>)

  datatype Choice = StartPush(node: nat) | StartPop | Go

  function Link(next: nat -> nat, node: nat, to: nat): nat -> nat {
    n => if n == node then to else next(n)
  }

  /** A thread between calls may start one; it pushes only a node in its hand. A
      push of null returns at once. */
  predicate Enabled(s: State, t: nat, c: Choice) {
    && t in s.threads
    && match c
       case StartPush(node) => s.threads[t].Idle? && (node == NULL || node in s.outside)
       case StartPop => s.threads[t].Idle?
       case Go => !s.threads[t].Idle?
  }

  function At(s: State, t: nat, pc: Pc): State {
    s.(threads := s.threads[t := pc])
  }

  /** The exchange writes one and looks at what was there: zero takes the lock,
      anything else leaves the thread spinning. */
  function TryLock(s: State, t: nat, taken: Pc): State
    requires t in s.threads
  {
    var was := s.value;
    var u := s.(value := 1);
    if was == 0 then At(u, t, taken) else u
  }

  function Step(s: State, t: nat, c: Choice): State
    requires Enabled(s, t, c)
  {
    match c
    case StartPush(node) => if node == NULL then s else At(s.(outside := s.outside - {node}), t, PushLock(node))
    case StartPop => At(s, t, PopLock)
    case Go =>
      match s.threads[t]
      case PushLock(node) => TryLock(s, t, PushRead(node))
      case PushRead(node) => At(s, t, PushLink(node, s.first))
      case PushLink(node, seen) => At(s.(next := Link(s.next, node, seen)), t, PushStore(node))
      case PushStore(node) => At(s.(first := node), t, PushUnlock(node))
      case PushUnlock(node) => At(s.(value := 0, log := s.log + [Pushed(t, node)]), t, Idle)
      case PopLock => TryLock(s, t, PopRead)
      case PopRead => At(s, t, PopTest(s.first))
      case PopTest(result) => At(s, t, if s.first == NULL then PopUnlock(result) else PopHead(result))
      case PopHead(result) => At(s, t, PopNext(result, s.first))
      case PopNext(result, head) => At(s, t, PopStore(result, s.next(head)))
      case PopStore(result, seen) => At(s.(first := seen), t, PopClear(result))
      case PopClear(result) => At(s.(next := Link(s.next, result, NULL)), t, PopUnlock(result))
      case PopUnlock(result) =>
        At(s.(value := 0, outside := if result == NULL then s.outside else s.outside + {result},
             log := s.log + [Popped(t, result)]), t, Idle)
  }

  // ---------- what a stack is ----------

  /** The stack that the finished calls leave behind when they are made one after
      the other, newest node first. */
  function Contents(log: seq<Event>): seq<nat> {
    if log == [] then []
    else
      var before := Contents(log[..|log| - 1]);
      match log[|log| - 1]
      case Pushed(_, node) => [node] + before
      case Popped(_, _) => if before == [] then [] else before[1..]
  }

  function Top(s: seq<nat>): nat { if s == [] then NULL else s[0] }

  /** Every pop took the newest node still there, or null where there was none. */
  ghost predicate LastInFirstOut(log: seq<Event>) {
    forall i | 0 <= i < |log| && log[i].Popped? :: log[i].result == Top(Contents(log[..i]))
  }

  // ---------- the invariant ----------

  predicate Critical(pc: Pc) {
    !pc.Idle? && !pc.PushLock? && !pc.PopLock?
  }

  predicate Pushing(pc: Pc) {
    pc.PushLock? || pc.PushRead? || pc.PushLink? || pc.PushStore? || pc.PushUnlock?
  }

  /** The links lead from `first` through exactly these nodes. */
  predicate Chain(next: nat -> nat, first: nat, s: seq<nat>)
    decreases s
  {
    if s == [] then first == NULL
    else first == s[0] && s[0] != NULL && Chain(next, next(s[0]), s[1..])
  }

  predicate Distinct(s: seq<nat>) {
    forall i, j | 0 <= i < j < |s| :: s[i] != s[j]
  }

  /** How memory relates to the contents while a thread is at `pc`. */
  predicate Holding(next: nat -> nat, first: nat, c: seq<nat>, pc: Pc) {
    match pc
    case PushLink(node, seen) => Chain(next, first, c) && seen == first
    case PushStore(node) => Chain(next, first, c) && next(node) == first
    case PushUnlock(node) => Chain(next, first, [node] + c)
    case PopTest(result) => Chain(next, first, c) && result == first
    case PopHead(result) => Chain(next, first, c) && c != [] && result == c[0]
    case PopNext(result, head) => Chain(next, first, c) && c != [] && result == c[0] == head
    case PopStore(result, seen) => Chain(next, first, c) && c != [] && result == c[0] && seen == next(result)
    case PopClear(result) => c != [] && result == c[0] && Chain(next, first, c[1..])
    case PopUnlock(result) =>
      if c == [] then result == NULL && first == NULL else result == c[0] && Chain(next, first, c[1..])
    case _ => Chain(next, first, c)
  }

  /** The lock is taken exactly while one thread is in its critical section. */
  ghost predicate MutualExclusion(s: State) {
    && (s.value == 0 || s.value == 1)
    && (s.value == 1 <==> exists t :: t in s.threads && Critical(s.threads[t]))
    && (forall t, u | t in s.threads && u in s.threads && Critical(s.threads[t]) && Critical(s.threads[u]) :: t == u)
  }

  /** A node is in one place: in a caller's hand, on its way in, or on the stack. */
  ghost predicate Placed(c: seq<nat>, outside: set<nat>, threads: map<nat, Pc>) {
    && Distinct(c) && NULL !in c && NULL !in outside
    && (forall n | n in c :: n !in outside)
    && (forall t | t in threads && Pushing(threads[t]) ::
          threads[t].node != NULL && threads[t].node !in c && threads[t].node !in outside)
    && (forall t, u | t in threads && u in threads && Pushing(threads[t]) && Pushing(threads[u])
          && threads[t].node == threads[u].node :: t == u)
  }

  ghost predicate OnePlace(s: State) {
    Placed(Contents(s.log), s.outside, s.threads)
  }

  ghost predicate Shape(s: State) {
    var c := Contents(s.log);
    && (s.value == 0 ==> Chain(s.next, s.first, c))
    && (forall t | t in s.threads && Critical(s.threads[t]) :: Holding(s.next, s.first, c, s.threads[t]))
  }

  ghost predicate Inv(s: State) {
    MutualExclusion(s) && OnePlace(s) && Shape(s) && LastInFirstOut(s.log)
  }

  // ---------- steps keep the invariant ----------

  lemma {:induction false} ChainFrame(next: nat -> nat, node: nat, to: nat, first: nat, s: seq<nat>)
    requires node !in s
    ensures Chain(Link(next, node, to), first, s) <==> Chain(next, first, s)
    decreases s
  {
    if s != [] {
      ChainFrame(next, node, to, next(s[0]), s[1..]);
    }
  }

  lemma Logged(log: seq<Event>, e: Event)
    ensures e.Pushed? ==> Contents(log + [e]) == [e.node] + Contents(log)
    ensures e.Popped? ==> Contents(log + [e]) == if Contents(log) == [] then [] else Contents(log)[1..]
    ensures LastInFirstOut(log) && (e.Popped? ==> e.result == Top(Contents(log))) ==> LastInFirstOut(log + [e])
  {
    var l := log + [e];
    assert l[..|l| - 1] == log;
    if LastInFirstOut(log) && (e.Popped? ==> e.result == Top(Contents(log))) {
      forall i | 0 <= i < |l| && l[i].Popped? ensures l[i].result == Top(Contents(l[..i])) {
        assert i < |log| ==> l[..i] == log[..i] && l[i] == log[i];
      }
    }
  }

  /** A thread in its critical section holds the lock. */
  lemma OthersOut(s: State, t: nat)
    requires MutualExclusion(s) && t in s.threads && Critical(s.threads[t])
    ensures s.value == 1 && forall r | r in s.threads && r != t :: !Critical(s.threads[r])
  {
  }

  /** One thread moves, and the byte with it. */
  lemma MutexMoves(s: State, u: State, t: nat)
    requires MutualExclusion(s) && t in s.threads && u.threads.Keys == s.threads.Keys
    requires forall r | r in s.threads && r != t :: u.threads[r] == s.threads[r]
    requires if Critical(s.threads[t]) then u.value == if Critical(u.threads[t]) then s.value else 0
      else if Critical(u.threads[t]) then s.value == 0 && u.value == 1
      else u.value == s.value
    ensures MutualExclusion(u)
  {
    if Critical(s.threads[t]) { OthersOut(s, t); }
    if Critical(u.threads[t]) { assert t in u.threads; }
    if r :| r in s.threads && Critical(s.threads[r]) {
      assert r != t ==> r in u.threads && Critical(u.threads[r]);
    }
    hide Critical;
  }

  lemma StepMutex(s: State, t: nat, c: Choice)
    requires MutualExclusion(s) && Enabled(s, t, c)
    ensures MutualExclusion(Step(s, t, c))
  {
    assert s.value == 0 || s.value == 1;
    hide MutualExclusion;
    MutexMoves(s, Step(s, t, c), t);
  }

  lemma PlaceSame(s: State, u: State, t: nat)
    requires OnePlace(s) && t in s.threads && u.threads.Keys == s.threads.Keys && u.outside == s.outside
      && Contents(u.log) == Contents(s.log)
    requires forall r | r in s.threads && r != t :: u.threads[r] == s.threads[r]
    requires Pushing(u.threads[t]) ==> Pushing(s.threads[t]) && u.threads[t].node == s.threads[t].node
    ensures OnePlace(u)
  {
    hide Contents;
    hide Distinct;
  }

  lemma PlaceStart(s: State, t: nat, node: nat)
    requires OnePlace(s) && Enabled(s, t, StartPush(node)) && node != NULL
    ensures OnePlace(Step(s, t, StartPush(node)))
  {
    hide Contents;
    hide Distinct;
  }

  lemma PlacePushed(c: seq<nat>, outside: set<nat>, threads: map<nat, Pc>, t: nat)
    requires Placed(c, outside, threads) && t in threads && Pushing(threads[t])
    ensures Placed([threads[t].node] + c, outside, threads[t := Idle])
  {
    var n, us := threads[t].node, threads[t := Idle];
    assert forall r | r in us && Pushing(us[r]) :: r != t && us[r] == threads[r] && us[r].node != n;
    hide Pushing;
  }

  lemma PlacePopped(c: seq<nat>, outside: set<nat>, threads: map<nat, Pc>, t: nat)
    requires Placed(c, outside, threads) && t in threads && c != [] && !Pushing(threads[t])
    ensures Placed(c[1..], outside + {c[0]}, threads[t := Idle])
  {
    var rest, us := c[1..], threads[t := Idle];
    assert c == [c[0]] + rest && c[0] in c && c[0] !in rest;
    assert forall n | n in rest :: n in c;
    assert forall r | r in us && Pushing(us[r]) :: r != t && us[r] == threads[r];
    hide Pushing;
  }

  lemma PushPlace(s: State, t: nat)
    requires OnePlace(s) && Enabled(s, t, Go) && s.threads[t].PushUnlock?
    ensures OnePlace(Step(s, t, Go))
  {
    Logged(s.log, Pushed(t, s.threads[t].node));
    PlacePushed(Contents(s.log), s.outside, s.threads, t);
    hide Placed;
    hide Contents;
  }

  lemma PopPlace(s: State, t: nat)
    requires OnePlace(s) && Enabled(s, t, Go) && s.threads[t].PopUnlock?
      && Holding(s.next, s.first, Contents(s.log), s.threads[t])
    ensures OnePlace(Step(s, t, Go))
  {
    var c := Contents(s.log);
    Logged(s.log, Popped(t, s.threads[t].result));
    if c == [] {
      PlaceSame(s, Step(s, t, Go), t);
    } else {
      assert c[0] in c;
      PlacePopped(c, s.outside, s.threads, t);
    }
    hide Placed;
    hide Contents;
    hide Chain;
  }

  lemma QuietPlace(s: State, t: nat, c: Choice)
    requires OnePlace(s) && Enabled(s, t, c) && !c.StartPush? && (c.Go? ==>
      !s.threads[t].PushUnlock? && !s.threads[t].PopUnlock?)
    ensures OnePlace(Step(s, t, c))
  {
    hide OnePlace;
    hide Contents;
    PlaceSame(s, Step(s, t, c), t);
  }

  lemma StepPlace(s: State, t: nat, c: Choice)
    requires OnePlace(s) && Shape(s) && Enabled(s, t, c)
    ensures OnePlace(Step(s, t, c))
  {
    hide OnePlace;
    hide Contents;
    hide Holding;
    if c.StartPush? {
      if c.node != NULL { PlaceStart(s, t, c.node); }
    } else if c.Go? && s.threads[t].PushUnlock? {
      PushPlace(s, t);
    } else if c.Go? && s.threads[t].PopUnlock? {
      PopPlace(s, t);
    } else {
      QuietPlace(s, t, c);
    }
  }

  lemma ShapeOutside(s: State, u: State, t: nat)
    requires Shape(s) && t in s.threads && u.threads.Keys == s.threads.Keys
      && forall r | r in s.threads && r != t :: u.threads[r] == s.threads[r]
    requires u.next == s.next && u.first == s.first && u.log == s.log && !Critical(u.threads[t]) && (u.value == 0 ==>
      s.value == 0)
    ensures Shape(u)
  {
    hide Holding;
    hide Chain;
    hide Contents;
  }

  /** The only thread inside, or nobody: what memory holds is its business alone. */
  lemma ShapeInside(s: State, u: State, t: nat)
    requires t in s.threads && u.threads.Keys == s.threads.Keys
      && forall r | r in s.threads && r != t :: u.threads[r] == s.threads[r]
    requires forall r | r in s.threads && r != t :: !Critical(s.threads[r])
    requires Critical(u.threads[t]) ==> u.value != 0 && Holding(u.next, u.first, Contents(u.log), u.threads[t])
    requires !Critical(u.threads[t]) ==> Chain(u.next, u.first, Contents(u.log))
    ensures Shape(u)
  {
    hide Holding;
    hide Chain;
    hide Contents;
  }

  lemma Taken(s: State, t: nat)
    requires MutualExclusion(s) && Shape(s) && Enabled(s, t, Go) && s.value == 0
      && (s.threads[t].PushLock? || s.threads[t].PopLock?)
    ensures Shape(Step(s, t, Go))
  {
    ShapeInside(s, Step(s, t, Go), t);
    hide Contents;
    hide Chain;
  }

  /** What each access inside the critical section leaves in memory. */
  lemma Inside(s: State, t: nat)
    requires OnePlace(s) && Enabled(s, t, Go) && Critical(s.threads[t])
      && Holding(s.next, s.first, Contents(s.log), s.threads[t])
    ensures var u := Step(s, t, Go);
      if Critical(u.threads[t]) then Holding(u.next, u.first, Contents(u.log), u.threads[t])
      else Chain(u.next, u.first, Contents(u.log))
    ensures s.threads[t].PopUnlock? ==> s.threads[t].result == Top(Contents(s.log))
  {
    var pc := s.threads[t];
    if pc.PushUnlock? {
      Logged(s.log, Pushed(t, pc.node));
    } else if pc.PopUnlock? {
      Logged(s.log, Popped(t, pc.result));
    } else {
      Within(s, t);
    }
    hide Contents;
    hide OnePlace;
  }

  lemma Within(s: State, t: nat)
    requires OnePlace(s) && Enabled(s, t, Go) && Critical(s.threads[t]) && !s.threads[t].PushUnlock?
      && !s.threads[t].PopUnlock?
    requires Holding(s.next, s.first, Contents(s.log), s.threads[t])
    ensures var u := Step(s, t, Go);
      Critical(u.threads[t]) && u.log == s.log && Holding(u.next, u.first, Contents(u.log), u.threads[t])
  {
    hide Contents;
    hide Chain;
    var pc, c := s.threads[t], Contents(s.log);
    if !pc.PopClear? { ChainEnds(s.next, s.first, c); }
    if pc.PushLink? {
      assert pc.node !in c;
      ChainFrame(s.next, pc.node, pc.seen, s.first, c);
    } else if pc.PushStore? {
      ChainGrows(s.next, pc.node, c);
    } else if pc.PopClear? {
      assert c == [c[0]] + c[1..] && c[0] !in c[1..];
      ChainFrame(s.next, pc.result, NULL, s.first, c[1..]);
    }
    hide OnePlace;
  }

  lemma ChainEnds(next: nat -> nat, first: nat, s: seq<nat>)
    requires Chain(next, first, s)
    ensures first == Top(s) && (first == NULL <==> s == []) && (s != [] ==> Chain(next, next(s[0]), s[1..]))
  {
  }

  lemma ChainGrows(next: nat -> nat, node: nat, s: seq<nat>)
    requires node != NULL && Chain(next, next(node), s)
    ensures Chain(next, node, [node] + s)
  {
    assert ([node] + s)[1..] == s;
  }

  lemma InsideShape(s: State, t: nat)
    requires Inv(s) && Enabled(s, t, Go) && Critical(s.threads[t])
    ensures Shape(Step(s, t, Go)) && LastInFirstOut(Step(s, t, Go).log)
  {
    hide Contents;
    hide Holding;
    hide Chain;
    hide OnePlace;
    hide LastInFirstOut;
    OthersOut(s, t);
    Inside(s, t);
    ShapeInside(s, Step(s, t, Go), t);
    if s.threads[t].PushUnlock? { Logged(s.log, Pushed(t, s.threads[t].node)); }
    if s.threads[t].PopUnlock? { Logged(s.log, Popped(t, s.threads[t].result)); }
  }

  lemma StepShape(s: State, t: nat, c: Choice)
    requires Inv(s) && Enabled(s, t, c)
    ensures Shape(Step(s, t, c)) && LastInFirstOut(Step(s, t, c).log)
  {
    if c.Go? && Critical(s.threads[t]) {
      InsideShape(s, t);
    } else if c.Go? && s.value == 0 {
      Taken(s, t);
    } else {
      ShapeOutside(s, Step(s, t, c), t);
    }
    hide Contents;
    hide LastInFirstOut;
    hide Shape;
    hide OnePlace;
  }

  lemma StepKeeps(s: State, t: nat, c: Choice)
    requires Inv(s) && Enabled(s, t, c)
    ensures Inv(Step(s, t, c))
  {
    StepMutex(s, t, c);
    StepPlace(s, t, c);
    StepShape(s, t, c);
    hide MutualExclusion;
    hide OnePlace;
    hide Shape;
    hide LastInFirstOut;
    hide Step;
  }

  // ---------- no node is lost ----------

  ghost predicate Somewhere(s: State, n: nat) {
    n in s.outside || n in Contents(s.log)
    || exists t :: t in s.threads && Pushing(s.threads[t]) && s.threads[t].node == n
  }

  lemma SomewhereElse(s: State, u: State, t: nat, n: nat)
    requires t in s.threads && u.threads.Keys == s.threads.Keys
      && forall r | r in s.threads && r != t :: u.threads[r] == s.threads[r]
    requires Pushing(s.threads[t]) && s.threads[t].node == n ==>
      n in u.outside || n in Contents(u.log) || (Pushing(u.threads[t]) && u.threads[t].node == n)
    requires n in s.outside || n in Contents(s.log) ==>
      n in u.outside || n in Contents(u.log) || (Pushing(u.threads[t]) && u.threads[t].node == n)
    ensures Somewhere(s, n) ==> Somewhere(u, n)
  {
    hide Contents;
    if r :| r in s.threads && Pushing(s.threads[r]) && s.threads[r].node == n {
      assert r != t ==> u.threads[r] == s.threads[r];
    }
  }

  lemma PushConserves(s: State, t: nat, n: nat)
    requires Enabled(s, t, Go) && s.threads[t].PushUnlock?
    ensures Somewhere(Step(s, t, Go), n) <==> Somewhere(s, n)
  {
    Logged(s.log, Pushed(t, s.threads[t].node));
    hide Contents;
    SomewhereElse(s, Step(s, t, Go), t, n);
    SomewhereElse(Step(s, t, Go), s, t, n);
  }

  lemma PopConserves(s: State, t: nat, n: nat)
    requires Enabled(s, t, Go) && s.threads[t].PopUnlock?
    requires Contents(s.log) == [] ==> s.threads[t].result == NULL
    requires Contents(s.log) != [] ==> s.threads[t].result == Contents(s.log)[0] != NULL
    ensures Somewhere(Step(s, t, Go), n) <==> Somewhere(s, n)
  {
    hide Contents;
    Logged(s.log, Popped(t, s.threads[t].result));
    var c, u := Contents(s.log), Step(s, t, Go);
    assert c != [] ==> c == [c[0]] + c[1..];
    assert u.log == s.log + [Popped(t, s.threads[t].result)] && u.threads == s.threads[t := Idle];
    assert u.outside == if c == [] then s.outside else s.outside + {c[0]};
    hide Step;
    SomewhereElse(s, u, t, n);
    SomewhereElse(u, s, t, n);
  }

  lemma QuietConserves(s: State, t: nat, c: Choice, n: nat)
    requires Enabled(s, t, c) && (c.Go? ==> !s.threads[t].PushUnlock? && !s.threads[t].PopUnlock?)
    ensures Somewhere(Step(s, t, c), n) <==> Somewhere(s, n)
  {
    hide Contents;
    SomewhereElse(s, Step(s, t, c), t, n);
    SomewhereElse(Step(s, t, c), s, t, n);
  }

  /** A step neither loses a node nor makes one. */
  lemma StepConserves(s: State, t: nat, c: Choice, n: nat)
    requires Inv(s) && Enabled(s, t, c)
    ensures Somewhere(Step(s, t, c), n) <==> Somewhere(s, n)
  {
    if c.Go? && s.threads[t].PushUnlock? {
      PushConserves(s, t, n);
    } else if c.Go? && s.threads[t].PopUnlock? {
      var f := Contents(s.log);
      assert f != [] ==> f[0] in f;
      assert Holding(s.next, s.first, f, s.threads[t]);
      PopConserves(s, t, n);
    } else {
      QuietConserves(s, t, c, n);
    }
    hide Step;
    hide Somewhere;
    hide Inv;
  }

  // ---------- runs ----------

  ghost predicate Initial(s: State) {
    && s.value == 0 && s.first == NULL && s.log == [] && NULL !in s.outside
    && forall t | t in s.threads :: s.threads[t].Idle?
  }

  lemma InitialInv(s: State)
    requires Initial(s)
    ensures Inv(s)
  {
  }

  datatype Move = Move(thread: nat, choice: Choice)

  ghost predicate Schedule(s: State, moves: seq<Move>)
    decreases |moves|
  {
    moves != [] ==>
      Enabled(s, moves[0].thread, moves[0].choice)
      && Schedule(Step(s, moves[0].thread, moves[0].choice), moves[1..])
  }

  ghost function Run(s: State, moves: seq<Move>): State
    requires Schedule(s, moves)
    decreases |moves|
  {
    if moves == [] then s else Run(Step(s, moves[0].thread, moves[0].choice), moves[1..])
  }

  lemma {:induction false} RunKeeps(s: State, moves: seq<Move>)
    requires Inv(s) && Schedule(s, moves)
    ensures Inv(Run(s, moves)) && forall n :: Somewhere(Run(s, moves), n) <==> Somewhere(s, n)
    decreases |moves|
  {
    hide Inv;
    hide Step;
    hide Somewhere;
    if moves != [] {
      var m := moves[0];
      StepKeeps(s, m.thread, m.choice);
      forall n { StepConserves(s, m.thread, m.choice, n); }
      RunKeeps(Step(s, m.thread, m.choice), moves[1..]);
    }
  }

  /** Under every schedule of any number of threads: at most one is between
      `Lock` and `Unlock`; the finished calls, in the order of their unlocking,
      are those of a stack; and every node the callers began with is in exactly
      one place. */
  lemma Linearizable(s: State, moves: seq<Move>)
    requires Initial(s) && Schedule(s, moves)
    ensures var u := Run(s, moves);
      && MutualExclusion(u) && LastInFirstOut(u.log) && OnePlace(u)
      && (u.value == 0 ==> Chain(u.next, u.first, Contents(u.log)))
      && forall n :: Somewhere(u, n) <==> n in s.outside
  {
    InitialInv(s);
    RunKeeps(s, moves);
    var u := Run(s, moves);
    hide Run;
    hide OnePlace;
    hide MutualExclusion;
    hide Chain;
    forall n ensures Somewhere(u, n) <==> n in s.outside {
      assert Somewhere(s, n) <==> n in s.outside by {
        assert Contents(s.log) == [];
      }
    }
  }

  /** Whoever finds the lock free takes it: a spinning thread is held up only by
      one that is inside. */
  lemma FreeLockIsTaken(s: State, t: nat)
    requires Inv(s) && Enabled(s, t, Go) && (s.threads[t].PushLock? || s.threads[t].PopLock?)
    ensures Critical(Step(s, t, Go).threads[t]) <==> forall r | r in s.threads :: !Critical(s.threads[r])
  {
  }
}