/**
  The lock file on a shared file system: every read, stat, truncation, write and unlink of any
  number of acquisitions is a step of its own, and the file may be removed from outside at any
  time. Files are inodes; the lock path names at most one of them.
 */
module LockFiles {
  import opened Basics

  type OwnerId = nat
  type Inode = nat

  /** What a file holds: nothing yet or a part of a lease, or a lease. */
  datatype Content = Unparsed(data: nat) | Lease(owner: OwnerId, heartbeat: nat)

  /** A file and the acquisition that created it. */
  datatype File = File(creator: OwnerId, content: Content)

  /** `gone` remembers that the path no longer named the acquisition's file when the refresh
      began. */
  datatype Phase =
    | Acquiring
    | Created(fd: Inode)
    | CleaningUp
    | Looked(data: Content, releasing: bool)
    | AboutToUnlink(releasing: bool)
    | Holding
    | Opened(fd: Inode, gone: bool)
    | Checked(fd: Inode, gone: bool)
    | Matched(fd: Inode, gone: bool)
    | Truncated(fd: Inode, gone: bool)
    | Rewritten(fd: Inode, gone: bool)
    | Refreshed(lost: bool, gone: bool)
    | Over

  datatype Proc = Proc(phase: Phase, own: Option<Inode>)

  /** A write by an acquisition to a file, with what it overwrote. */
  datatype Write = Write(o: OwnerId, inode: Inode, before: Content)

  datatype Machine = Machine(path: Option<Inode>, files: map<Inode, File>, procs: map<OwnerId, Proc>, writes: seq<Write>)

  datatype Action =
    | Begin(o: OwnerId)
    | Create(o: OwnerId, inode: Inode)
    | WriteLease(o: OwnerId, heartbeat: nat)
    | FailToWrite(o: OwnerId, data: nat)
    | RemoveFailed(o: OwnerId)
    | Look(o: OwnerId)
    | GiveUp(o: OwnerId)
    | LookToRelease(o: OwnerId)
    | LookAgain(o: OwnerId)
    | Unlink(o: OwnerId)
    | OpenToRefresh(o: OwnerId)
    | ReadLease(o: OwnerId)
    | StatPath(o: OwnerId)
    | Truncate(o: OwnerId)
    | Rewrite(o: OwnerId, heartbeat: nat)
    | StatAgain(o: OwnerId)
    | FailToRefresh(o: OwnerId)
    | EndRefresh(o: OwnerId)
    | RemoveFromOutside

  const INITIAL: Machine := Machine(None, map[], map[], [])

  /** What is read at the path. */
  function AtPath(m: Machine): Option<Content> {
    if m.path.Some? && m.path.value in m.files then Some(m.files[m.path.value].content) else None
  }

  function At(m: Machine, o: OwnerId, phase: Phase): Machine
    requires o in m.procs
  {
    m.(procs := m.procs[o := m.procs[o].(phase := phase)])
  }

  function WriteTo(m: Machine, o: OwnerId, inode: Inode, data: Content): Machine
    requires inode in m.files
  {
    m.(files := m.files[inode := m.files[inode].(content := data)],
       writes := m.writes + [Write(o, inode, m.files[inode].content)])
  }

  predicate Refreshing(phase: Phase) {
    phase.Opened? || phase.Checked? || phase.Matched? || phase.Truncated? || phase.Rewritten?
  }

  /** A step of an acquisition that has begun. */
  function ProcStep(m: Machine, a: Action): Option<Machine>
    requires !a.Begin? && !a.RemoveFromOutside? && a.o in m.procs
  {
    var p := m.procs[a.o];
    match a
    case Create(o, inode) =>
      if !p.phase.Acquiring? || m.path.Some? || inode in m.files || p.own.Some? then None
      else
        Some(m.(path := Some(inode), files := m.files[inode := File(o, Unparsed(0))],
                procs := m.procs[o := Proc(Created(inode), Some(inode))]))
    case WriteLease(o, heartbeat) =>
      if !p.phase.Created? || p.phase.fd !in m.files then None
      else Some(At(WriteTo(m, o, p.phase.fd, Lease(o, heartbeat)), o, Holding))
    case FailToWrite(o, data) =>
      if !p.phase.Created? || p.phase.fd !in m.files then None
      else Some(At(WriteTo(m, o, p.phase.fd, Unparsed(data)), o, CleaningUp))
    case RemoveFailed(o) =>
      if !p.phase.CleaningUp? then None else Some(At(m.(path := None), o, Over))
    case Look(o) =>
      if !p.phase.Acquiring? || AtPath(m).None? then None
      else Some(At(m, o, Looked(AtPath(m).value, false)))
    case GiveUp(o) =>
      if !p.phase.Looked? && !p.phase.Acquiring? then None else Some(At(m, o, Over))
    case LookToRelease(o) =>
      if !p.phase.Holding? then None
      else if AtPath(m).Some? && AtPath(m).value.Lease? && AtPath(m).value.owner == o then
        Some(At(m, o, Looked(AtPath(m).value, true)))
      else Some(At(m, o, Over))
    case LookAgain(o) =>
      if !p.phase.Looked? then None
      else if AtPath(m) == Some(p.phase.data) then Some(At(m, o, AboutToUnlink(p.phase.releasing)))
      else Some(At(m, o, if p.phase.releasing then Over else Acquiring))
    case Unlink(o) =>
      if !p.phase.AboutToUnlink? then None
      else Some(At(m.(path := None), o, if p.phase.releasing then Over else Acquiring))
    case OpenToRefresh(o) =>
      if !p.phase.Holding? then None
      else if m.path.None? then Some(At(m, o, Refreshed(true, true)))
      else Some(At(m, o, Opened(m.path.value, p.own != m.path)))
    case ReadLease(o) =>
      if !p.phase.Opened? || p.phase.fd !in m.files then None
      else
        var data := m.files[p.phase.fd].content;
        Some(At(m, o, if data.Lease? && data.owner == o then Checked(p.phase.fd, p.phase.gone) else Refreshed(true, p.phase.gone)))
    case StatPath(o) =>
      if !p.phase.Checked? then None
      else Some(At(m, o, if m.path == Some(p.phase.fd) then Matched(p.phase.fd, p.phase.gone) else Refreshed(true, p.phase.gone)))
    case Truncate(o) =>
      if !p.phase.Matched? || p.phase.fd !in m.files then None
      else Some(At(WriteTo(m, o, p.phase.fd, Unparsed(0)), o, Truncated(p.phase.fd, p.phase.gone)))
    case Rewrite(o, heartbeat) =>
      if !p.phase.Truncated? || p.phase.fd !in m.files then None
      else Some(At(WriteTo(m, o, p.phase.fd, Lease(o, heartbeat)), o, Rewritten(p.phase.fd, p.phase.gone)))
    case StatAgain(o) =>
      if !p.phase.Rewritten? then None
      else Some(At(m, o, Refreshed(m.path != Some(p.phase.fd), p.phase.gone)))
    case FailToRefresh(o) =>
      if !Refreshing(p.phase) then None else Some(At(m, o, Refreshed(true, p.phase.gone)))
    case EndRefresh(o) =>
      if !p.phase.Refreshed? then None else Some(At(m, o, if p.phase.lost then Over else Holding))
  }

  function Apply(m: Machine, a: Action): Option<Machine> {
    if a.RemoveFromOutside? then Some(m.(path := None))
    else if a.Begin? then
      if a.o in m.procs then None else Some(m.(procs := m.procs[a.o := Proc(Acquiring, None)]))
    else if a.o !in m.procs then None
    else ProcStep(m, a)
  }

  function Run(m: Machine, actions: seq<Action>): Option<Machine>
    decreases |actions|
  {
    if actions == [] then Some(m)
    else
      match Apply(m, actions[0])
      case None => None
      case Some(next) => Run(next, actions[1..])
  }

  // ----- the invariant -----

  /** An acquisition writes only to the file it created, over nothing but its own lease. */
  predicate OwnWrite(m: Machine, w: Write) {
    && w.inode in m.files && m.files[w.inode].creator == w.o
    && (w.before.Lease? ==> w.before.owner == w.o)
  }

  predicate FileOk(m: Machine, i: Inode)
    requires i in m.files
  {
    var f := m.files[i];
    && (f.content.Lease? ==> f.content.owner == f.creator)
    && f.creator in m.procs && m.procs[f.creator].own == Some(i)
  }

  predicate ProcOk(m: Machine, o: OwnerId)
    requires o in m.procs
  {
    var p := m.procs[o];
    && (p.own.Some? ==> p.own.value in m.files && m.files[p.own.value].creator == o)
    && match p.phase
       case Created(fd) => p.own == Some(fd)
       case Holding => p.own.Some?
       case Looked(data, releasing) => releasing ==> data.Lease? && data.owner == o
       case Opened(fd, gone) => p.own.Some? && fd in m.files && (gone <==> p.own != Some(fd))
       case Checked(fd, gone) => p.own == Some(fd) && !gone
       case Matched(fd, gone) => p.own == Some(fd) && !gone
       case Truncated(fd, gone) => p.own == Some(fd) && !gone
       case Rewritten(fd, gone) => p.own == Some(fd) && !gone && m.files[fd].content.Lease?
       case Refreshed(lost, gone) => p.own.Some? && (gone ==> lost)
       case _ => true
  }

  predicate Invariant(m: Machine) {
    && (m.path.Some? ==> m.path.value in m.files)
    && (forall i | i in m.files :: FileOk(m, i))
    && (forall o | o in m.procs :: ProcOk(m, o))
    && (forall w | w in m.writes :: OwnWrite(m, w))
  }

  lemma AtKeepsInvariant(m: Machine, o: OwnerId, phase: Phase)
    requires Invariant(m) && o in m.procs
    requires ProcOk(At(m, o, phase), o)
    ensures Invariant(At(m, o, phase))
  {
    var n := At(m, o, phase);
    forall i | i in n.files
      ensures FileOk(n, i)
    {
      assert FileOk(m, i);
    }
    forall x | x in n.procs
      ensures ProcOk(n, x)
    {
      assert x != o ==> ProcOk(m, x);
    }
    forall w | w in n.writes
      ensures OwnWrite(n, w)
    {
      assert OwnWrite(m, w);
    }
  }

  lemma WriteKeepsInvariant(m: Machine, o: OwnerId, inode: Inode, data: Content)
    requires Invariant(m) && o in m.procs && m.procs[o].own == Some(inode)
    requires inode in m.files && (data.Lease? ==> data.owner == o) && !m.procs[o].phase.Rewritten?
    ensures Invariant(WriteTo(m, o, inode, data))
  {
    assert ProcOk(m, o) && FileOk(m, inode);
    var n := WriteTo(m, o, inode, data);
    forall i | i in n.files
      ensures FileOk(n, i)
    {
      assert FileOk(m, i);
    }
    forall x | x in n.procs
      ensures ProcOk(n, x)
    {
      assert ProcOk(m, x);
    }
    forall w | w in n.writes
      ensures OwnWrite(n, w)
    {
      assert w in m.writes ==> OwnWrite(m, w);
    }
  }

  lemma UnnamedKeepsInvariant(m: Machine)
    requires Invariant(m)
    ensures Invariant(m.(path := None))
  {
    var n := m.(path := None);
    forall i | i in n.files
      ensures FileOk(n, i)
    {
      assert FileOk(m, i);
    }
    forall x | x in n.procs
      ensures ProcOk(n, x)
    {
      assert ProcOk(m, x);
    }
    forall w | w in n.writes
      ensures OwnWrite(n, w)
    {
      assert OwnWrite(m, w);
    }
  }

  lemma CreateKeepsInvariant(m: Machine, o: OwnerId, inode: Inode)
    requires Invariant(m) && o in m.procs && ProcStep(m, Create(o, inode)).Some?
    ensures Invariant(ProcStep(m, Create(o, inode)).value)
  {
    var n := ProcStep(m, Create(o, inode)).value;
    forall i | i in n.files
      ensures FileOk(n, i)
    {
      assert i != inode ==> FileOk(m, i);
    }
    forall x | x in n.procs
      ensures ProcOk(n, x)
    {
      assert x != o ==> ProcOk(m, x);
    }
    forall w | w in n.writes
      ensures OwnWrite(n, w)
    {
      assert OwnWrite(m, w);
    }
  }

  lemma BeginKeepsInvariant(m: Machine, o: OwnerId)
    requires Invariant(m) && o !in m.procs
    ensures Invariant(m.(procs := m.procs[o := Proc(Acquiring, None)]))
  {
    var n := m.(procs := m.procs[o := Proc(Acquiring, None)]);
    forall i | i in n.files
      ensures FileOk(n, i)
    {
      assert FileOk(m, i);
    }
    forall x | x in n.procs
      ensures ProcOk(n, x)
    {
      assert x != o ==> ProcOk(m, x);
    }
    forall w | w in n.writes
      ensures OwnWrite(n, w)
    {
      assert OwnWrite(m, w);
    }
  }

  predicate Writes(a: Action) {
    a.WriteLease? || a.FailToWrite? || a.Truncate? || a.Rewrite?
  }

  lemma WritingStepKeepsInvariant(m: Machine, a: Action)
    requires Writes(a) && a.o in m.procs && Invariant(m) && ProcStep(m, a).Some?
    ensures Invariant(ProcStep(m, a).value)
  {
    assert ProcOk(m, a.o);
    var fd := m.procs[a.o].phase.fd;
    var data := if a.WriteLease? || a.Rewrite? then Lease(a.o, a.heartbeat) else if a.FailToWrite? then Unparsed(a.data) else Unparsed(0);
    WriteKeepsInvariant(m, a.o, fd, data);
    var mid := WriteTo(m, a.o, fd, data);
    hide Invariant;
    assert mid.procs == m.procs;
    AtKeepsInvariant(mid, a.o, ProcStep(m, a).value.procs[a.o].phase);
  }

  lemma UnlinkingStepKeepsInvariant(m: Machine, a: Action)
    requires (a.RemoveFailed? || a.Unlink?) && a.o in m.procs && Invariant(m) && ProcStep(m, a).Some?
    ensures Invariant(ProcStep(m, a).value)
  {
    assert ProcOk(m, a.o);
    UnnamedKeepsInvariant(m);
    hide Invariant;
    AtKeepsInvariant(m.(path := None), a.o, ProcStep(m, a).value.procs[a.o].phase);
  }

  lemma LookingStepKeepsInvariant(m: Machine, a: Action)
    requires !a.Begin? && !a.RemoveFromOutside? && !Writes(a) && !a.RemoveFailed? && !a.Unlink? && !a.Create?
    requires a.o in m.procs && Invariant(m) && ProcStep(m, a).Some?
    ensures Invariant(ProcStep(m, a).value)
  {
    assert ProcOk(m, a.o);
    var p := m.procs[a.o].phase;
    if a.ReadLease? {
      assert FileOk(m, p.fd);
    }
    var next := ProcStep(m, a).value.procs[a.o].phase;
    assert ProcStep(m, a).value == At(m, a.o, next);
    assert ProcOk(At(m, a.o, next), a.o);
    hide Invariant, ProcStep, ProcOk;
    AtKeepsInvariant(m, a.o, next);
  }

  /** Every step keeps the invariant. */
  lemma StepKeepsInvariant(m: Machine, a: Action)
    requires Invariant(m) && Apply(m, a).Some?
    ensures Invariant(Apply(m, a).value)
  {
    hide Invariant, ProcStep;
    if a.RemoveFromOutside? {
      UnnamedKeepsInvariant(m);
    } else if a.Begin? {
      BeginKeepsInvariant(m, a.o);
    } else if a.Create? {
      CreateKeepsInvariant(m, a.o, a.inode);
    } else if Writes(a) {
      WritingStepKeepsInvariant(m, a);
    } else if a.RemoveFailed? || a.Unlink? {
      UnlinkingStepKeepsInvariant(m, a);
    } else {
      LookingStepKeepsInvariant(m, a);
    }
  }

  lemma {:induction false} RunKeepsInvariant(m: Machine, actions: seq<Action>)
    requires Invariant(m) && Run(m, actions).Some?
    ensures Invariant(Run(m, actions).value)
    decreases |actions|
  {
    hide Invariant, Apply;
    if actions != [] {
      StepKeepsInvariant(m, actions[0]);
      RunKeepsInvariant(Apply(m, actions[0]).value, actions[1..]);
    }
  }

  // ----- what every run guarantees -----

  /** Every write ever made went to the writer's own file, and no refresh overwrote the lease of
      another acquisition. */
  lemma SingleWriter(actions: seq<Action>, m: Machine, w: Write)
    requires Run(INITIAL, actions) == Some(m) && w in m.writes
    ensures w.inode in m.files && m.files[w.inode].creator == w.o
    ensures w.before.Lease? ==> w.before.owner == w.o
  {
    RunKeepsInvariant(INITIAL, actions);
  }

  /** The path no longer names the file of this acquisition. */
  predicate OwnFileGone(m: Machine, o: OwnerId) {
    o in m.procs && m.procs[o].own.Some? && m.path != m.procs[o].own
  }

  /** A step keeps the path, unnames it, or names a new file at a path that named none. */
  lemma StepMovesPath(m: Machine, a: Action)
    requires Apply(m, a).Some?
    ensures var path := Apply(m, a).value.path;
            path == m.path || path == None || (m.path == None && path.Some? && path.value !in m.files)
  {
  }

  lemma StepKeepsOwn(m: Machine, a: Action, o: OwnerId)
    requires o in m.procs && m.procs[o].own.Some? && Apply(m, a).Some?
    ensures o in Apply(m, a).value.procs && Apply(m, a).value.procs[o].own == m.procs[o].own
  {
  }

  lemma StepKeepsGone(m: Machine, a: Action, o: OwnerId)
    requires Invariant(m) && OwnFileGone(m, o) && Apply(m, a).Some?
    ensures OwnFileGone(Apply(m, a).value, o)
    ensures Apply(m, a).value.procs[o].own == m.procs[o].own
  {
    assert ProcOk(m, o);
    hide Apply;
    StepMovesPath(m, a);
    StepKeepsOwn(m, a, o);
  }

  /** A file once removed from the path, or replaced, never comes back to it. */
  lemma {:induction false} GoneForGood(m: Machine, actions: seq<Action>, o: OwnerId)
    requires Invariant(m) && OwnFileGone(m, o) && Run(m, actions).Some?
    ensures OwnFileGone(Run(m, actions).value, o)
    decreases |actions|
  {
    hide Invariant, OwnFileGone, Apply;
    if actions != [] {
      StepKeepsInvariant(m, actions[0]);
      StepKeepsGone(m, actions[0], o);
      GoneForGood(Apply(m, actions[0]).value, actions[1..], o);
    }
  }

  predicate Removes(a: Action) {
    a.RemoveFromOutside? || a.Unlink? || a.RemoveFailed?
  }

  function OwnOf(m: Machine, o: OwnerId): Option<Inode> {
    if o in m.procs then m.procs[o].own else None
  }

  lemma OccupiedPathStays(m: Machine, a: Action, o: OwnerId)
    requires m.path.Some? && !Removes(a) && Apply(m, a).Some?
    ensures Apply(m, a).value.path == m.path && OwnOf(Apply(m, a).value, o) == OwnOf(m, o)
  {
  }

  /** As long as nothing removes the file at the path, it stays there and no acquisition creates a
      lock file: whoever does not hold the lock by then has to wait. */
  lemma {:induction false} OccupiedPathExcludes(m: Machine, actions: seq<Action>, o: OwnerId)
    requires m.path.Some? && Run(m, actions).Some? && forall a | a in actions :: !Removes(a)
    ensures Run(m, actions).value.path == m.path && OwnOf(Run(m, actions).value, o) == OwnOf(m, o)
    decreases |actions|
  {
    hide Apply, OwnOf;
    if actions != [] {
      assert actions[0] in actions && forall a | a in actions[1..] :: a in actions;
      OccupiedPathStays(m, actions[0], o);
      OccupiedPathExcludes(Apply(m, actions[0]).value, actions[1..], o);
    }
  }

  lemma {:induction false} NothingNamed(m: Machine, actions: seq<Action>) returns (n: nat)
    requires m.path.None? && Run(m, actions).Some? && forall o | o in m.procs :: m.procs[o].own.None?
    requires forall a | a in actions :: !Removes(a)
    ensures n <= |actions| && Run(m, actions[..n]).Some? && Run(Run(m, actions[..n]).value, actions[n..]) == Run(m, actions)
    ensures var mid := Run(m, actions[..n]).value;
            && (forall o, x | o in mid.procs && x in mid.procs && mid.procs[o].own.Some? && mid.procs[x].own.Some? :: o == x)
            && (mid.path.None? ==> n == |actions|)
    decreases |actions|
  {
    n := 0;
    if actions != [] {
      assert actions[0] in actions && forall a | a in actions[1..] :: a in actions;
      var next := Apply(m, actions[0]).value;
      FirstNamed(m, actions[0]);
      hide Apply;
      if next.path.None? {
        n := NothingNamed(next, actions[1..]);
        n := n + 1;
        assert actions[..n][1..] == actions[1..][..n - 1] && actions[n..] == actions[1..][n - 1..];
      } else {
        n := 1;
        assert actions[..1] == [actions[0]] && [actions[0]][1..] == [];
      }
    }
  }

  lemma FirstNamed(m: Machine, a: Action)
    requires m.path.None? && !Removes(a) && Apply(m, a).Some? && forall o | o in m.procs :: m.procs[o].own.None?
    ensures var next := Apply(m, a).value;
            if next.path.None? then forall o | o in next.procs :: next.procs[o].own.None?
            else a.Create? && forall o | o in next.procs && next.procs[o].own.Some? :: o == a.o
  {
  }

  /** Without removals the lock is ever taken by one acquisition only. */
  lemma NoSecondHolder(actions: seq<Action>, m: Machine, o: OwnerId, x: OwnerId)
    requires Run(INITIAL, actions) == Some(m) && forall a | a in actions :: !Removes(a)
    requires o in m.procs && x in m.procs && m.procs[o].own.Some? && m.procs[x].own.Some?
    ensures o == x
  {
    hide Apply;
    var n := NothingNamed(INITIAL, actions);
    var mid := Run(INITIAL, actions[..n]).value;
    if mid.path.Some? {
      assert forall a | a in actions[n..] :: a in actions;
      OccupiedPathExcludes(mid, actions[n..], o);
      OccupiedPathExcludes(mid, actions[n..], x);
    } else {
      assert actions[n..] == [];
    }
  }

  /** What is about to be unlinked was read twice at the path, and by a release it was the
      releaser's own file both times. */
  lemma UnlinksWhatItSaw(actions: seq<Action>, m: Machine, o: OwnerId)
    requires Run(INITIAL, actions) == Some(m) && o in m.procs && m.procs[o].phase.Looked?
    requires Apply(m, LookAgain(o)).Some? && Apply(m, LookAgain(o)).value.procs[o].phase.AboutToUnlink?
    ensures AtPath(m) == Some(m.procs[o].phase.data)
    ensures m.procs[o].phase.releasing ==> m.path.Some? && m.path == m.procs[o].own
  {
    RunKeepsInvariant(INITIAL, actions);
    assert ProcOk(m, o);
    if m.path.Some? {
      assert FileOk(m, m.path.value);
    }
  }

  /** Within a refresh that began after the file was gone. */
  predicate InLateRefresh(m: Machine, o: OwnerId) {
    o in m.procs && (Refreshing(m.procs[o].phase) || m.procs[o].phase.Refreshed?) && m.procs[o].phase.gone
  }

  lemma OthersStayPut(m: Machine, a: Action, o: OwnerId)
    requires Apply(m, a).Some? && o in m.procs && (a.RemoveFromOutside? || a.o != o)
    ensures o in Apply(m, a).value.procs && Apply(m, a).value.procs[o] == m.procs[o]
  {
  }

  lemma OwnStepKeepsLateRefresh(m: Machine, a: Action, o: OwnerId)
    requires Apply(m, a).Some? && !a.RemoveFromOutside? && a.o == o && !a.EndRefresh? && InLateRefresh(m, o)
    ensures InLateRefresh(Apply(m, a).value, o)
  {
  }

  lemma StepKeepsLateRefresh(m: Machine, a: Action, o: OwnerId)
    requires Apply(m, a).Some? && a != EndRefresh(o) && InLateRefresh(m, o)
    ensures InLateRefresh(Apply(m, a).value, o)
  {
    hide Apply;
    if a.RemoveFromOutside? || a.o != o {
      OthersStayPut(m, a, o);
    } else {
      OwnStepKeepsLateRefresh(m, a, o);
    }
  }

  lemma {:induction false} RunKeepsLateRefresh(m: Machine, actions: seq<Action>, o: OwnerId)
    requires Run(m, actions).Some? && EndRefresh(o) !in actions && InLateRefresh(m, o)
    ensures InLateRefresh(Run(m, actions).value, o)
    decreases |actions|
  {
    hide Apply, InLateRefresh;
    if actions != [] {
      StepKeepsLateRefresh(m, actions[0], o);
      assert forall a | a in actions[1..] :: a in actions;
      RunKeepsLateRefresh(Apply(m, actions[0]).value, actions[1..], o);
    }
  }

  /** Once the holder's file has been removed or replaced, every refresh that begins later reports
      the loss, whatever the others do before and during it. */
  lemma LateRefreshReportsLoss(before: seq<Action>, m: Machine, between: seq<Action>, during: seq<Action>, o: OwnerId)
    requires Run(INITIAL, before) == Some(m) && OwnFileGone(m, o)
    requires Run(m, between).Some? && Apply(Run(m, between).value, OpenToRefresh(o)).Some?
    requires var started := Apply(Run(m, between).value, OpenToRefresh(o)).value;
             && EndRefresh(o) !in during && Run(started, during).Some?
             && o in Run(started, during).value.procs && Run(started, during).value.procs[o].phase.Refreshed?
    ensures var started := Apply(Run(m, between).value, OpenToRefresh(o)).value;
            Run(started, during).value.procs[o].phase.lost
  {
    RunKeepsInvariant(INITIAL, before);
    RunKeepsInvariant(m, between);
    GoneForGood(m, between, o);
    var opening := Run(m, between).value;
    var started := Apply(opening, OpenToRefresh(o)).value;
    OpensLate(opening, o);
    StepKeepsInvariant(opening, OpenToRefresh(o));
    RunKeepsInvariant(started, during);
    RunKeepsLateRefresh(started, during, o);
    hide Run, Apply;
    assert ProcOk(Run(started, during).value, o);
  }

  lemma OpensLate(m: Machine, o: OwnerId)
    requires OwnFileGone(m, o) && Apply(m, OpenToRefresh(o)).Some?
    ensures InLateRefresh(Apply(m, OpenToRefresh(o)).value, o)
  {
  }

  /** A refresh that does not report loss ends with the holder's own file at the path, holding the
      holder's own lease. */
  lemma RenewalIsOwn(actions: seq<Action>, m: Machine, o: OwnerId)
    requires Run(INITIAL, actions) == Some(m) && o in m.procs && m.procs[o].phase.Rewritten?
    requires Apply(m, StatAgain(o)) == Some(At(m, o, Refreshed(false, m.procs[o].phase.gone)))
    ensures m.path == m.procs[o].own
    ensures AtPath(m).Some? && AtPath(m).value.Lease? && AtPath(m).value.owner == o
  {
    RunKeepsInvariant(INITIAL, actions);
    assert ProcOk(m, o);
    var next := Apply(m, StatAgain(o)).value;
    assert next.procs[o].phase == Refreshed(m.path != Some(m.procs[o].phase.fd), m.procs[o].phase.gone);
    assert FileOk(m, m.procs[o].phase.fd);
  }

  /** A refresh that reports loss ends the acquisition. */
  lemma LossEndsAcquisition(m: Machine, o: OwnerId)
    requires o in m.procs && m.procs[o].phase.Refreshed? && m.procs[o].phase.lost
    ensures Apply(m, EndRefresh(o)) == Some(At(m, o, Over))
  {
  }

  lemma OverStepsNowhere(m: Machine, a: Action, o: OwnerId, w: Write)
    requires o in m.procs && m.procs[o].phase.Over? && Apply(m, a).Some?
    ensures o in Apply(m, a).value.procs && Apply(m, a).value.procs[o].phase.Over?
    ensures w.o == o && w in Apply(m, a).value.writes ==> w in m.writes
  {
  }

  /** An acquisition that is over stays over and writes nothing more. */
  lemma {:induction false} OverForGood(m: Machine, actions: seq<Action>, o: OwnerId, w: Write)
    requires o in m.procs && m.procs[o].phase.Over? && Run(m, actions).Some?
    ensures o in Run(m, actions).value.procs && Run(m, actions).value.procs[o].phase.Over?
    ensures w.o == o && w in Run(m, actions).value.writes ==> w in m.writes
    decreases |actions|
  {
    hide Apply;
    if actions != [] {
      OverStepsNowhere(m, actions[0], o, w);
      OverForGood(Apply(m, actions[0]).value, actions[1..], o, w);
    }
  }
}
