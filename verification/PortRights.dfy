/**
 Who holds which port right, and who is suspended: the reference class with its moves, and the frame of
 the dump that suspends and resumes.
 */
module PortRights {
  type Port = nat

  const MACH_PORT_NULL: Port := 0

  /** The right to a port in the name space of a task. */
  datatype Right = NoRight | Right(task: Port, port: Port)

  function RightOf(task: Port, port: Port): Right {
    if port == MACH_PORT_NULL then NoRight else Right(task, port)
  }

  function RightsOf(task: Port, ports: seq<Port>): (r: seq<Right>)
    ensures |r| == |ports|
  {
    seq(|ports|, i requires 0 <= i < |ports| => RightOf(task, ports[i]))
  }

  function One(r: Right): multiset<Right> {
    if r == NoRight then multiset{} else multiset{r}
  }

  function Many(rights: seq<Right>): multiset<Right> {
    multiset(rights)[NoRight := 0]
  }

  lemma ManySplit(rights: seq<Right>, i: nat)
    requires i < |rights|
    ensures Many(rights) == Many(rights[..i]) + One(rights[i]) + Many(rights[i + 1..])
    ensures Many(rights[..i + 1]) == Many(rights[..i]) + One(rights[i])
    ensures Many(rights[i..]) == One(rights[i]) + Many(rights[i + 1..])
  {
    assert rights == rights[..i] + [rights[i]] + rights[i + 1..];
    assert rights[..i + 1] == rights[..i] + [rights[i]];
    assert rights[i..] == [rights[i]] + rights[i + 1..];
  }

  lemma ManySnoc(rights: seq<Right>, r: Right)
    ensures Many(rights + [r]) == Many(rights) + One(r)
  {
  }

  lemma ManyOf(rights: seq<Right>, i: nat)
    requires i < |rights| && rights[i] != NoRight
    ensures rights[i] in Many(rights)
  {
    assert rights[i] in rights;
  }

  /** The kernel's books about this program; every call may fail. */
  class Kernel {
    const task: Port                     // the name space of this program
    const self: Port                     // the current thread
    var held: multiset<Right>            // one entry for each user reference the program has to give back
    ghost var suspends: multiset<Right>  // the right behind each successful suspend call
    ghost var refused: multiset<Right>   // the right behind each suspend call that failed
    ghost var resumes: multiset<Right>   // the right behind each resume call
    ghost var failures: nat              // how often the threads could not be listed

    /** The right behind each suspend call. */
    ghost function Asked(): multiset<Right>
      reads this`suspends, this`refused
    {
      suspends + refused
    }

    constructor (task: Port, self: Port, held: multiset<Right>)
      ensures this.task == task && this.self == self
      ensures this.held == held && suspends == refused == resumes == multiset{} && failures == 0
    {
      this.task, this.self, this.held := task, self, held;
      suspends, refused, resumes, failures := multiset{}, multiset{}, multiset{}, 0;
    }

    method ThreadSelf() returns (p: Port)
      modifies this`held
      ensures p == self && held == old(held) + One(RightOf(task, p))
    {
      p := self;
      held := held + One(RightOf(task, p));
    }

    /** Lists the threads of a task; one right comes with each. */
    method TaskThreads(answer: seq<Port>) returns (ok: bool, threads: seq<Port>)
      modifies this`held, this`failures
      ensures ok ==> threads == answer && held == old(held) + Many(RightsOf(task, threads))
      ensures !ok ==> threads == [] && held == old(held)
      ensures failures == old(failures) + if ok then 0 else 1
    {
      ok := *;
      threads := [];
      if ok {
        threads := answer;
        held := held + Many(RightsOf(task, threads));
      } else {
        failures := failures + 1;
      }
    }

    /** Only for a port to which a right is held. */
    method Suspend(p: Port, ghost right: Right) returns (ok: bool)
      requires if p == MACH_PORT_NULL then right == NoRight else right.Right? && right.port == p && right in held
      modifies this`suspends, this`refused
      ensures suspends == old(suspends) + if ok then multiset{right} else multiset{}
      ensures refused == old(refused) + if ok then multiset{} else One(right)
      ensures Asked() == old(Asked()) + One(right)
      ensures ok ==> p != MACH_PORT_NULL
    {
      ok := *;
      if p == MACH_PORT_NULL {
        ok := false;
      }
      if ok {
        suspends := suspends + multiset{right};
      } else {
        refused := refused + One(right);
      }
    }

    /** Only for a port whose right is still held. */
    method Resume(p: Port, ghost right: Right) returns (ok: bool)
      requires right.Right? && right.port == p && right in held
      modifies this`resumes
      ensures resumes == old(resumes) + multiset{right}
    {
      resumes := resumes + multiset{right};
      ok := *;
    }

    /** Only for a right that is still held, so that no right can be given back twice. */
    method Deallocate(task: Port, p: Port)
      requires Right(task, p) in held
      modifies this`held
      ensures held == old(held) - multiset{Right(task, p)}
    {
      held := held - multiset{Right(task, p)};
    }
  }

  class MachPortSendRightRef {
    var port: Port
    var owningTask: Port

    function Held(): Right
      reads this
    {
      RightOf(owningTask, port)
    }

    constructor Wrap(port: Port, owningTask: Port)
      ensures this.port == port && this.owningTask == owningTask
    {
      this.port, this.owningTask := port, owningTask;
    }

    constructor Move(other: MachPortSendRightRef)
      modifies other`port
      ensures port == old(other.port) && owningTask == other.owningTask && other.port == MACH_PORT_NULL
    {
      port, owningTask := other.port, other.owningTask;
      new;
      other.port := MACH_PORT_NULL;
    }

    /** Gives back the right held so far, if any, to the task that owns it, and takes over another one. */
    method Reset(newPort: Port, newTask: Port, kernel: Kernel)
      requires One(Held()) <= kernel.held
      modifies this, kernel`held
      ensures port == newPort && owningTask == newTask && kernel.held == old(kernel.held) - One(old(Held()))
    {
      if port != MACH_PORT_NULL {
        kernel.Deallocate(owningTask, port);
      }
      port, owningTask := newPort, newTask;
    }

    method Release() returns (p: Port)
      modifies this`port
      ensures p == old(port) && port == MACH_PORT_NULL
    {
      p := port;
      port := MACH_PORT_NULL;
    }

    /** Assignment from oneself does nothing; else the other's right moves here and the own one is given back. */
    method MoveAssign(other: MachPortSendRightRef, kernel: Kernel)
      requires One(Held()) <= kernel.held
      modifies this, other`port, kernel`held
      ensures port == old(other.port) && owningTask == old(other.owningTask)
      ensures other != this ==> other.port == MACH_PORT_NULL && kernel.held == old(kernel.held) - One(old(Held()))
      ensures other == this ==> kernel.held == old(kernel.held)
    {
      if this != other {
        var p := other.Release();
        Reset(p, other.owningTask, kernel);
      }
    }

    method Destroy(kernel: Kernel)
      requires One(Held()) <= kernel.held
      modifies this, kernel`held
      ensures port == MACH_PORT_NULL && kernel.held == old(kernel.held) - One(old(Held()))
    {
      Reset(MACH_PORT_NULL, kernel.task, kernel);
    }
  }

  // ---------------------------------------------------------------- vectors of references

  function Rights(refs: seq<MachPortSendRightRef>): (r: seq<Right>)
    reads refs
    ensures |r| == |refs|
  {
    seq(|refs|, i requires 0 <= i < |refs| reads refs => refs[i].Held())
  }

  /** The rights a vector of references owns. */
  function Owned(refs: seq<MachPortSendRightRef>): multiset<Right>
    reads refs
  {
    Many(Rights(refs))
  }

  predicate Distinct(refs: seq<MachPortSendRightRef>) {
    forall i, j :: 0 <= i < j < |refs| ==> refs[i] != refs[j]
  }

  /** One reference for each port of a list. */
  method WrapAll(ports: seq<Port>, task: Port) returns (refs: seq<MachPortSendRightRef>)
    ensures Distinct(refs) && fresh(refs) && Rights(refs) == RightsOf(task, ports) && Owned(refs) == Many(RightsOf(task, ports))
  {
    refs := [];
    for i := 0 to |ports|
      invariant |refs| == i && Distinct(refs) && fresh(refs)
      invariant forall k :: 0 <= k < i ==> refs[k].Held() == RightOf(task, ports[k])
    {
      var r := new MachPortSendRightRef.Wrap(ports[i], task);
      refs := refs + [r];
    }
  }

  /** The destructor of a vector: every right it owns is given back. */
  method DestroyAll(refs: seq<MachPortSendRightRef>, kernel: Kernel)
    requires Distinct(refs) && Owned(refs) <= kernel.held
    modifies refs, kernel`held
    ensures kernel.held == old(kernel.held) - old(Owned(refs))
  {
    hide Many, One;
    ghost var rights, rest := Rights(refs), kernel.held - Owned(refs);
    assert rights[0..] == rights && rights[|refs|..] == [];
    NothingOwned();
    Rejoin(kernel.held, Many(rights));
    for i := 0 to |refs|
      invariant kernel.held == rest + Many(rights[i..])
      invariant forall k :: i <= k < |refs| ==> refs[k].Held() == rights[k]
    {
      ManySplit(rights, i);
      TakeOut(rest, One(rights[i]), Many(rights[i + 1..]));
      refs[i].Destroy(kernel);
    }
  }

  lemma Rejoin(held: multiset<Right>, owned: multiset<Right>)
    requires owned <= held
    ensures held == (held - owned) + owned
  {
  }

  lemma TakeOut(rest: multiset<Right>, one: multiset<Right>, more: multiset<Right>)
    ensures one <= rest + (one + more) && rest + (one + more) - one == rest + more
  {
  }

  lemma NothingOwned()
    ensures Many([]) == multiset{}
  {
  }

  /** Appends by moving; a vector out of room first moves all its elements and destroys the empty ones. */
  method PushBack(v: seq<MachPortSendRightRef>, source: MachPortSendRightRef, kernel: Kernel)
    returns (r: seq<MachPortSendRightRef>)
    requires Distinct(v) && source !in v
    modifies v, source`port, kernel`held
    ensures Distinct(r) && Rights(r) == old(Rights(v)) + [old(source.Held())] && source.port == MACH_PORT_NULL
    ensures forall k :: 0 <= k < |r| ==> r[k] in v || fresh(r[k])
    ensures kernel.held == old(kernel.held)
  {
    r := v;
    var full := *;
    if full {
      r := Reallocate(v, kernel);
    }
    var last := new MachPortSendRightRef.Move(source);
    r := r + [last];
  }

  /** Moves a reference into a new one and destroys what is left of it, which gives nothing back. */
  method MoveOut(source: MachPortSendRightRef, kernel: Kernel) returns (moved: MachPortSendRightRef)
    modifies source, kernel`held
    ensures fresh(moved) && moved.Held() == old(source.Held())
    ensures kernel.held == old(kernel.held)
  {
    moved := new MachPortSendRightRef.Move(source);
    source.Destroy(kernel);
  }

  method Reallocate(v: seq<MachPortSendRightRef>, kernel: Kernel) returns (r: seq<MachPortSendRightRef>)
    requires Distinct(v)
    modifies v, kernel`held
    ensures Distinct(r) && fresh(r) && Rights(r) == old(Rights(v))
    ensures kernel.held == old(kernel.held)
  {
    r := [];
    for i := 0 to |v|
      invariant |r| == i && Distinct(r) && fresh(r) && kernel.held == old(kernel.held)
      invariant forall k :: 0 <= k < i ==> r[k].Held() == old(v[k].Held())
      invariant forall k :: i <= k < |v| ==> v[k].Held() == old(v[k].Held())
    {
      var moved := MoveOut(v[i], kernel);
      r := r + [moved];
    }
  }

  lemma ManyMove(rights: seq<Right>, i: nat)
    requires i < |rights|
    ensures Many(rights) == Many(rights[i := NoRight]) + One(rights[i])
  {
    ManySplit(rights, i);
    ManySplit(rights[i := NoRight], i);
  }

  // ---------------------------------------------------------------- suspending and resuming

  /** The rights to ports other than one. */
  function Others(rights: seq<Right>, self: Port): multiset<Right> {
    if rights == [] then multiset{}
    else
      var last := rights[|rights| - 1];
      Others(rights[..|rights| - 1], self) + if last.Right? && last.port != self then multiset{last} else multiset{}
  }

  lemma OthersStep(rights: seq<Right>, i: nat, self: Port)
    requires i < |rights|
    ensures Others(rights[..i + 1], self)
            == Others(rights[..i], self) + if rights[i].Right? && rights[i].port != self then One(rights[i]) else multiset{}
  {
    assert rights[..i + 1][..i] == rights[..i];
  }

  /**
   Each listed thread but the current one is asked to stop. Each one that was suspended is handed out together with
   its right; every other right is given back.
   */
  method SuspendAllThreadsExceptCurrentOne(answer: seq<Port>, kernel: Kernel)
    returns (ok: bool, suspended: seq<MachPortSendRightRef>)
    modifies kernel`held, kernel`suspends, kernel`refused, kernel`failures
    ensures kernel.failures == old(kernel.failures) + if ok then 0 else 1
    ensures kernel.Asked()
            == old(kernel.Asked())
               + if ok then Others(RightsOf(kernel.task, answer), kernel.self) else multiset{}
    ensures Distinct(suspended) && fresh(suspended)
    ensures OthersOnly(suspended, kernel.self)
    ensures kernel.held == old(kernel.held) + Owned(suspended)
    ensures kernel.suspends == old(kernel.suspends) + Owned(suspended)
    ensures !ok ==> suspended == []
  {
    hide Many, One, Rights, Others, OthersOnly, Owned, Suspending;
    NothingOwned();
    NoOthers(kernel.self);
    suspended := [];
    var self := kernel.ThreadSelf();
    var thisThreadRef := new MachPortSendRightRef.Wrap(self, kernel.task);
    var threads;
    ok, threads := kernel.TaskThreads(answer);
    if !ok {
      Back(old(kernel.held), One(RightOf(kernel.task, self)));
      thisThreadRef.Destroy(kernel);
      return;
    }
    suspended := SuspendOthers(threads, thisThreadRef, kernel, old(kernel.held));
  }

  method SuspendOthers(threads: seq<Port>, thisThreadRef: MachPortSendRightRef, kernel: Kernel,
                       ghost held: multiset<Right>)
    returns (suspended: seq<MachPortSendRightRef>)
    requires kernel.held == held + One(thisThreadRef.Held()) + Many(RightsOf(kernel.task, threads))
    modifies thisThreadRef, kernel`held, kernel`suspends, kernel`refused
    ensures kernel.Asked() == old(kernel.Asked()) + Others(RightsOf(kernel.task, threads), old(thisThreadRef.port))
    ensures Distinct(suspended) && fresh(suspended) && OthersOnly(suspended, old(thisThreadRef.port))
    ensures kernel.held == held + Owned(suspended) && kernel.suspends == old(kernel.suspends) + Owned(suspended)
  {
    hide *;
    var threadRefs := WrapAll(threads, kernel.task);
    suspended := SuspendListed(threadRefs, thisThreadRef.port, kernel, held + One(thisThreadRef.Held()));
    LeaveScope(threadRefs, thisThreadRef, suspended, kernel, held, old(kernel.suspends));
  }

  /** The end of the scope of the listed threads: what has not moved to `suspended` is given back. */
  method LeaveScope(threadRefs: seq<MachPortSendRightRef>, thisThreadRef: MachPortSendRightRef,
                    ghost suspended: seq<MachPortSendRightRef>, kernel: Kernel, ghost held: multiset<Right>,
                    ghost before: multiset<Right>)
    requires Suspending(threadRefs, suspended, thisThreadRef.port, kernel, held + One(thisThreadRef.Held()), before)
    requires thisThreadRef !in suspended && thisThreadRef !in threadRefs
    modifies threadRefs, thisThreadRef, kernel`held
    ensures Distinct(suspended) && OthersOnly(suspended, old(thisThreadRef.port))
    ensures kernel.held == held + Owned(suspended) && kernel.suspends == before + Owned(suspended)
  {
    hide Many, One;
    ghost var rights := Rights(suspended);
    Leave(held, One(thisThreadRef.Held()), Owned(threadRefs), Many(rights));
    DestroyAll(threadRefs, kernel);
    assert forall k :: 0 <= k < |suspended| ==> suspended[k].Held() == rights[k];
    thisThreadRef.Destroy(kernel);
    assert forall k :: 0 <= k < |suspended| ==> suspended[k].Held() == rights[k];
    assert Rights(suspended) == rights;
  }

  /** No null references, and not the current thread. */
  predicate OthersOnly(refs: seq<MachPortSendRightRef>, self: Port)
    reads refs
  {
    forall r :: r in Rights(refs) ==> r.Right? && r.port != self
  }

  predicate Apart(a: seq<MachPortSendRightRef>, b: seq<MachPortSendRightRef>) {
    forall i, j :: 0 <= i < |a| && 0 <= j < |b| ==> a[i] != b[j]
  }

  /** In the middle of suspending: the rights of the suspended threads have moved from the list to `suspended`. */
  ghost predicate Suspending(threadRefs: seq<MachPortSendRightRef>, suspended: seq<MachPortSendRightRef>, self: Port,
                             kernel: Kernel, mine: multiset<Right>, before: multiset<Right>)
    reads kernel, threadRefs, suspended
  {
    && Distinct(threadRefs) && Distinct(suspended) && Apart(threadRefs, suspended) && OthersOnly(suspended, self)
    && kernel.held == mine + Owned(threadRefs) + Owned(suspended)
    && kernel.suspends == before + Owned(suspended)
  }

  method SuspendListed(threadRefs: seq<MachPortSendRightRef>, self: Port, kernel: Kernel, ghost mine: multiset<Right>)
    returns (suspended: seq<MachPortSendRightRef>)
    requires Distinct(threadRefs) && kernel.held == mine + Owned(threadRefs)
    modifies kernel`held, kernel`suspends, kernel`refused, threadRefs
    ensures Suspending(threadRefs, suspended, self, kernel, mine, old(kernel.suspends)) && fresh(suspended)
    ensures kernel.Asked() == old(kernel.Asked()) + Others(old(Rights(threadRefs)), self)
  {
    hide *;
    suspended := [];
    ghost var rights, before, asked := Rights(threadRefs), kernel.suspends, kernel.Asked();
    NoneSuspended(threadRefs, self, kernel, mine);
    NoneAsked(rights, self, asked);
    for i := 0 to |threadRefs|
      invariant forall k :: i <= k < |threadRefs| ==> threadRefs[k].Held() == rights[k]
      invariant kernel.Asked() == asked + Others(rights[..i], self)
      invariant Suspending(threadRefs, suspended, self, kernel, mine, before) && fresh(suspended)
    {
      OthersStep(rights, i, self);
      OneMore(asked, Others(rights[..i], self), One(rights[i]));
      HeldIs(threadRefs[i]);
      if threadRefs[i].port != self {
        suspended := SuspendOne(threadRefs, i, suspended, self, kernel, mine, before);
      }
    }
    AllAreAsked(rights, self);
  }

  lemma NoneSuspended(threadRefs: seq<MachPortSendRightRef>, self: Port, kernel: Kernel, mine: multiset<Right>)
    requires Distinct(threadRefs) && kernel.held == mine + Owned(threadRefs)
    ensures Suspending(threadRefs, [], self, kernel, mine, kernel.suspends)
    ensures forall k :: 0 <= k < |threadRefs| ==> threadRefs[k].Held() == Rights(threadRefs)[k]
  {
    NothingOwned();
    assert Rights([]) == [];
  }

  lemma NoneAsked(rights: seq<Right>, self: Port, asked: multiset<Right>)
    ensures asked == asked + Others(rights[..0], self)
  {
    assert rights[..0] == [];
  }

  lemma AllAreAsked(rights: seq<Right>, self: Port)
    ensures Others(rights[..|rights|], self) == Others(rights, self)
  {
    assert rights[..|rights|] == rights;
  }

  lemma HeldIs(ref: MachPortSendRightRef)
    ensures ref.Held().Right? ==> ref.Held().port == ref.port
    ensures ref.Held() == NoRight ==> One(ref.Held()) == multiset{}
  {
  }

  /** Suspends one thread; if that works, its reference moves over. */
  method SuspendOne(threadRefs: seq<MachPortSendRightRef>, i: nat, suspended: seq<MachPortSendRightRef>, self: Port,
                    kernel: Kernel, ghost mine: multiset<Right>, ghost before: multiset<Right>)
    returns (r: seq<MachPortSendRightRef>)
    requires i < |threadRefs| && threadRefs[i].port != self
    requires Suspending(threadRefs, suspended, self, kernel, mine, before)
    modifies kernel`held, kernel`suspends, kernel`refused, threadRefs[i], suspended
    ensures Suspending(threadRefs, r, self, kernel, mine, before)
    ensures forall k :: 0 <= k < |r| ==> r[k] in suspended || fresh(r[k])
    ensures forall k :: 0 <= k < |threadRefs| && k != i ==> threadRefs[k].Held() == old(threadRefs[k].Held())
    ensures kernel.Asked() == old(kernel.Asked()) + One(old(threadRefs[i].Held()))
  {
    hide Many, One;
    var p := threadRefs[i].port;
    ghost var rights := Rights(threadRefs);
    HeldRight(rights, i, mine, Owned(suspended));
    var stopped := kernel.Suspend(p, rights[i]);
    r := suspended;
    if stopped {
      r := MoveOver(threadRefs, i, suspended, self, kernel, mine, before);
    }
  }

  method MoveOver(threadRefs: seq<MachPortSendRightRef>, i: nat, suspended: seq<MachPortSendRightRef>, self: Port,
                  kernel: Kernel, ghost mine: multiset<Right>, ghost before: multiset<Right>)
    returns (r: seq<MachPortSendRightRef>)
    requires i < |threadRefs| && threadRefs[i].Held().Right? && threadRefs[i].port != self
    requires Distinct(threadRefs) && Distinct(suspended) && Apart(threadRefs, suspended) && OthersOnly(suspended, self)
    requires kernel.held == mine + Owned(threadRefs) + Owned(suspended)
    requires kernel.suspends == before + Owned(suspended) + multiset{threadRefs[i].Held()}
    modifies kernel`held, threadRefs[i], suspended
    ensures Suspending(threadRefs, r, self, kernel, mine, before)
    ensures forall k :: 0 <= k < |r| ==> r[k] in suspended || fresh(r[k])
    ensures forall k :: 0 <= k < |threadRefs| && k != i ==> threadRefs[k].Held() == old(threadRefs[k].Held())
  {
    hide Many;
    ghost var rights, others := Rights(threadRefs), Rights(suspended);
    MovedRights(rights, others, i, mine, before);
    r := PushBack(suspended, threadRefs[i], kernel);
    assert Rights(threadRefs) == rights[i := NoRight];
  }

  lemma MovedRights(rights: seq<Right>, others: seq<Right>, i: nat, mine: multiset<Right>, before: multiset<Right>)
    requires i < |rights| && rights[i].Right?
    ensures mine + Many(rights) + Many(others) == mine + Many(rights[i := NoRight]) + Many(others + [rights[i]])
    ensures before + Many(others) + multiset{rights[i]} == before + Many(others + [rights[i]])
  {
    hide Many, One;
    OneOf(rights[i]);
    ManyMove(rights, i);
    ManySnoc(others, rights[i]);
    Regroup(mine, Many(rights[i := NoRight]), One(rights[i]), Many(others));
  }

  lemma OneMore(before: multiset<Right>, some: multiset<Right>, one: multiset<Right>)
    ensures before + some + one == before + (some + one) && before + some == before + (some + multiset{})
  {
  }

  lemma OneOf(r: Right)
    requires r != NoRight
    ensures One(r) == multiset{r}
  {
  }

  lemma HeldRight(rights: seq<Right>, i: nat, mine: multiset<Right>, others: multiset<Right>)
    requires i < |rights|
    ensures rights[i] != NoRight ==> rights[i] in mine + Many(rights) + others
  {
    if rights[i] != NoRight {
      ManyOf(rights, i);
    }
  }

  lemma Regroup(mine: multiset<Right>, left: multiset<Right>, one: multiset<Right>, others: multiset<Right>)
    ensures mine + (left + one) + others == mine + left + (others + one)
  {
  }

  lemma Leave(before: multiset<Right>, one: multiset<Right>, left: multiset<Right>, kept: multiset<Right>)
    ensures left <= before + one + left + kept
    ensures before + one + left + kept - left == before + one + kept
    ensures one <= before + one + kept && before + one + kept - one == before + kept
  {
  }

  method ResumeThreads(refs: seq<MachPortSendRightRef>, kernel: Kernel)
    requires OthersOnly(refs, kernel.self) && Owned(refs) <= kernel.held
    modifies kernel`resumes
    ensures kernel.resumes == old(kernel.resumes) + Owned(refs)
  {
    hide Many;
    ghost var rights := Rights(refs);
    NothingOwned();
    assert rights[..0] == [];
    for i := 0 to |refs|
      invariant kernel.resumes == old(kernel.resumes) + Many(rights[..i])
    {
      assert rights[i] in rights;
      ManySplit(rights, i);
      ManyOf(rights, i);
      var _ := kernel.Resume(refs[i].port, rights[i]);
    }
    assert rights[..|refs|] == rights;
  }

  /** The rights side of the thread loop: whatever happens inside, its references give all rights back. */
  method EnumerateThreads(answer: seq<Port>, kernel: Kernel) returns (ok: bool)
    modifies kernel`held, kernel`failures
    ensures kernel.held == old(kernel.held)
    ensures kernel.failures == old(kernel.failures) + if ok then 0 else 1
  {
    hide Many, One, Owned;
    var self := kernel.ThreadSelf();
    ghost var before, mine := old(kernel.held), One(RightOf(kernel.task, self));
    Back(before, mine);
    var thisThreadRef := new MachPortSendRightRef.Wrap(self, kernel.task);
    var threads;
    ok, threads := kernel.TaskThreads(answer);
    if ok {
      var threadRefs := WrapAll(threads, kernel.task);
      Back(before + mine, Many(RightsOf(kernel.task, threads)));
      DestroyAll(threadRefs, kernel);
    }
    thisThreadRef.Destroy(kernel);
  }

  lemma Back(held: multiset<Right>, more: multiset<Right>)
    ensures more <= held + more && held + more - more == held
  {
  }

  /** Of another task the task itself is suspended, of the own task the threads but the current one. */
  ghost predicate StoppedOnly(stopped: multiset<Right>, task: Port, selfDump: bool, kernel: Kernel) {
    if selfDump then forall r :: r in stopped ==> r.Right? && r.port != kernel.self
    else stopped <= multiset{Right(kernel.task, task)}
  }

  /** The beginning of a dump: after a failure nothing is suspended, and no right is kept. */
  method Begin(task: Port, selfDump: bool, toSuspend: seq<Port>, kernel: Kernel)
    returns (ok: bool, suspendedThreads: seq<MachPortSendRightRef>, ghost stopped: multiset<Right>)
    requires task != MACH_PORT_NULL && Right(kernel.task, task) in kernel.held
    modifies kernel`held, kernel`suspends, kernel`refused, kernel`failures
    ensures !ok ==> if selfDump then kernel.failures > old(kernel.failures)
                    else kernel.refused == old(kernel.refused) + multiset{Right(kernel.task, task)}
    ensures ok && selfDump ==>
              kernel.Asked()
              == old(kernel.Asked()) + Others(RightsOf(kernel.task, toSuspend), kernel.self)
    ensures ok ==> kernel.failures == old(kernel.failures)
    ensures Distinct(suspendedThreads) && fresh(suspendedThreads)
    ensures kernel.held == old(kernel.held) + Owned(suspendedThreads)
    ensures kernel.suspends == old(kernel.suspends) + stopped
    ensures if selfDump then stopped == Owned(suspendedThreads) && OthersOnly(suspendedThreads, kernel.self)
            else suspendedThreads == [] && stopped == if ok then multiset{Right(kernel.task, task)} else multiset{}
    ensures !ok ==> suspendedThreads == [] && stopped == multiset{}
    ensures StoppedOnly(stopped, task, selfDump, kernel)
  {
    hide Many, Rights, OthersOnly, Others;
    NoOthers(kernel.self);
    suspendedThreads, stopped := [], multiset{};
    if !selfDump {
      ok := kernel.Suspend(task, Right(kernel.task, task));
      if ok {
        stopped := multiset{Right(kernel.task, task)};
      }
    } else {
      ok, suspendedThreads := SuspendAllThreadsExceptCurrentOne(toSuspend, kernel);
      stopped := Owned(suspendedThreads);
      SelfNotStopped(suspendedThreads, kernel.self);
    }
  }

  /** The deferred block, and then the destructor of the references to the suspended threads. */
  method End(task: Port, selfDump: bool, suspendedThreads: seq<MachPortSendRightRef>, kernel: Kernel,
             ghost before: multiset<Right>)
    requires Distinct(suspendedThreads) && kernel.held == before + Owned(suspendedThreads)
    requires if selfDump then OthersOnly(suspendedThreads, kernel.self) else suspendedThreads == [] && Right(kernel.task, task) in before
    modifies kernel`held, kernel`resumes, suspendedThreads
    ensures kernel.held == before
    ensures kernel.resumes == old(kernel.resumes) + if selfDump then old(Owned(suspendedThreads)) else multiset{Right(kernel.task, task)}
  {
    hide Many, Rights, OthersOnly;
    if !selfDump {
      var _ := kernel.Resume(task, Right(kernel.task, task));
    } else {
      ResumeThreads(suspendedThreads, kernel);
    }
    DestroyAll(suspendedThreads, kernel);
  }

  lemma SelfNotStopped(refs: seq<MachPortSendRightRef>, self: Port)
    requires OthersOnly(refs, self)
    ensures forall r :: r in Owned(refs) ==> r.Right? && r.port != self
  {
  }

  lemma NoOthers(self: Port)
    ensures OthersOnly([], self) && Owned([]) == multiset{} && Distinct([])
  {
  }
}
