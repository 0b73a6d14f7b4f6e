/** The shell, its signal handlers and its children as interleaved steps (tsh.c). A step is the code between two
    points where a signal may be delivered or a child may change, so blocked stretches are broken up only where
    a child can act. */
module ShellSteps {
  import opened JobTable

  /** What the kernel knows about a child that has not been reaped. */
  datatype Child = Running | Stopped(reported: bool) | Gone(bySignal: bool)

  /** Where the shell is. Signals are delivered at Prompt, Named, Checked and Suspended only.
      Forked: eval, between fork and add_job. Waiting: at the test of a wait loop. Suspended: in sigsuspend.
      Named and Checked: do_bgfg, before and after job_exists. Reaping: in the loop of sigchld_handler, which
      goes back to `back`. */
  datatype Place =
    | Prompt
    | Forked(pid: int, fg: bool, cmdline: Text)
    | Waiting
    | Suspended
    | Named(jid: int, toFg: bool)
    | Checked(jid: int, toFg: bool)
    | Reaping(back: Place)
    | Dead

  datatype State = State(
    table: Table,
    children: map<int, Child>,
    /** SIGCHLD is pending. */
    pending: bool,
    place: Place,
    /** History: add_job has once been called on a full table. */
    overflowed: bool)

  datatype Event =
    | Fork(pid: int, fg: bool, cmdline: Text)
    | CallAddJob
    | TestForeground
    | OtherSignal
    | NameJob(jid: int, toFg: bool)
    | NamePid(pid: int, toFg: bool)
    | CheckJob
    | Resume
    | Deliver
    | Reap(pid: int)
    | LeaveHandler
    | ChildStops(pid: int)
    | ChildContinues(pid: int)
    | ChildEnds(pid: int, bySignal: bool)

  ghost function Start(): State {
    State(Empty(), map[], false, Prompt, false)
  }

  ghost predicate Unblocked(p: Place) {
    p.Prompt? || p.Named? || p.Checked? || p.Suspended?
  }

  /** waitpid has something to report about the child. */
  ghost predicate Reportable(c: Child) {
    c == Stopped(false) || c.Gone?
  }

  ghost predicate Enabled(s: State, e: Event) {
    match e
    case Fork(pid, fg, cmdline) => s.place.Prompt? && pid > 0 && pid !in s.children && cmdline != NULL
    case CallAddJob => s.place.Forked?
    case TestForeground => s.place.Waiting?
    case OtherSignal => s.place.Suspended?
    case NameJob(jid, toFg) => s.place.Prompt?
    case NamePid(pid, toFg) => s.place.Prompt?
    case CheckJob => s.place.Named?
    case Resume => s.place.Checked?
    case Deliver => Unblocked(s.place) && s.pending
    case Reap(pid) => s.place.Reaping? && pid in s.children && Reportable(s.children[pid])
    case LeaveHandler => s.place.Reaping? && forall pid :: pid in s.children ==> !Reportable(s.children[pid])
    case ChildStops(pid) => pid in s.children && s.children[pid].Running?
    case ChildContinues(pid) => pid in s.children && s.children[pid].Stopped?
    case ChildEnds(pid, bySignal) => pid in s.children && !s.children[pid].Gone?
  }

  /** eval: the job is recorded; a foreground job is then waited for. */
  ghost function AfterAdd(s: State): State
    requires s.place.Forked? && Ok(s.table)
  {
    var next := if s.place.fg then Waiting else Prompt;
    if s.place.fg && HasForeground(s.table) then s.(place := Dead)
    else if Full(s.table) then s.(place := next, overflowed := true)
    else s.(place := next, table := Added(s.table, s.place.pid, if s.place.fg then FG else BG, s.place.cmdline))
  }

  /** sigchld_handler: what is done about one child that waitpid reports. */
  ghost function AfterReap(s: State, pid: int): State
    requires s.place.Reaping? && pid in s.children && Ok(s.table)
  {
    if j: nat :| j > 0 && IsJobOf(s.table, pid, j) then ReapJob(s, pid, j)
    else if s.children[pid].Stopped? then s.(place := Dead)
    else s.(children := s.children - {pid})
  }

  ghost function ReapJob(s: State, pid: int, j: nat): State
    requires pid in s.children && Live(s.table, j)
  {
    if s.children[pid].Stopped? then
      s.(table := WithState(s.table, j, ST), children := s.children[pid := Stopped(true)])
    else
      s.(table := Deleted(s.table, j), children := s.children - {pid})
  }

  /** do_bgfg, from job_get_pid on: the job changes state and is told to go on. A stopped child does, and the
      kernel raises SIGCHLD for it. */
  ghost function AfterResume(s: State): State
    requires s.place.Checked? && Ok(s.table)
  {
    var jid, toFg := s.place.jid, s.place.toFg;
    if !Live(s.table, jid) || (toFg && HasForeground(s.table)) then s.(place := Dead)
    else
      var pid := s.table.slots[jid - 1].pid;
      s.(table := WithState(s.table, jid, if toFg then FG else BG),
         children := Continued(s.children, pid),
         pending := s.pending || (pid in s.children && s.children[pid].Stopped?),
         place := if toFg then Waiting else Prompt)
  }

  /** SIGCONT. */
  ghost function Continued(children: map<int, Child>, pid: int): map<int, Child> {
    if pid in children && children[pid].Stopped? then children[pid := Running] else children
  }

  ghost function Step(s: State, e: Event): State
    requires Enabled(s, e) && Ok(s.table)
  {
    match e
    case Fork(pid, fg, cmdline) => s.(children := s.children[pid := Running], place := Forked(pid, fg, cmdline))
    case CallAddJob => AfterAdd(s)
    case TestForeground => s.(place := if HasForeground(s.table) then Suspended else Prompt)
    case OtherSignal => s.(place := Waiting)
    case NameJob(jid, toFg) => s.(place := Named(jid, toFg))
    case NamePid(pid, toFg) =>
      if j: nat :| j > 0 && IsJobOf(s.table, pid, j) then s.(place := Named(j, toFg)) else s
    case CheckJob => s.(place := if Live(s.table, s.place.jid) then Checked(s.place.jid, s.place.toFg) else Prompt)
    case Resume => AfterResume(s)
    case Deliver => s.(pending := false, place := Reaping(s.place))
    case Reap(pid) => AfterReap(s, pid)
    case LeaveHandler => s.(place := if s.place.back.Suspended? then Waiting else s.place.back)
    case ChildStops(pid) => s.(children := s.children[pid := Stopped(false)], pending := true)
    case ChildContinues(pid) => s.(children := s.children[pid := Running], pending := true)
    case ChildEnds(pid, bySignal) => s.(children := s.children[pid := Gone(bySignal)], pending := true)
  }

  // ----- What every interleaving keeps

  /** The children whose jobs are in the table, or about to be put there. */
  ghost predicate Recorded(s: State, pid: int) {
    (exists j :: HasPid(s.table, j, pid)) || (s.place.Forked? && s.place.pid == pid)
  }

  /** The child just forked has no job yet, and cannot have been reported. */
  ghost predicate NewChild(s: State, pid: int) {
    pid > 0 && pid in s.children && s.children[pid] != Stopped(true) && forall j :: !HasPid(s.table, j, pid)
  }

  /** Every job has a child of its own; while the table has never been full, every child has a job. */
  ghost predicate Matched(s: State) {
    && (forall j, k, pid :: HasPid(s.table, j, pid) && HasPid(s.table, k, pid) ==> j == k)
    && (forall j, pid :: HasPid(s.table, j, pid) ==> pid in s.children && pid > 0)
    && (s.place.Forked? ==> NewChild(s, s.place.pid) && s.place.cmdline != NULL)
    && (!s.overflowed ==> forall pid :: pid in s.children ==> Recorded(s, pid))
  }

  /** The places where no job is in the foreground. */
  ghost predicate NoForegroundAt(p: Place) {
    match p
    case Prompt | Forked(_, _, _) | Named(_, _) | Checked(_, _) => true
    case Reaping(back) => NoForegroundAt(back)
    case _ => false
  }

  /** Only a place where signals are delivered is gone back to. */
  ghost predicate PlaceOk(p: Place) {
    p.Reaping? ==> Unblocked(p.back)
  }

  /** A job whose child is known to be stopped is recorded as stopped, so that the foreground job runs or is
      about to be reported; while sigsuspend waits, there is one. */
  ghost predicate Waitable(s: State) {
    && (forall j, pid :: HasPid(s.table, j, pid) && pid in s.children && s.children[pid] == Stopped(true) ==>
          HasState(s.table, j, ST))
    && (s.place.Suspended? ==> HasForeground(s.table))
    && (!s.place.Reaping? && !s.place.Dead? && !s.pending ==>
          forall pid :: pid in s.children ==> !Reportable(s.children[pid]))
  }

  ghost predicate Inv(s: State) {
    && Ok(s.table) && Matched(s) && PlaceOk(s.place) && Waitable(s)
    && (NoForegroundAt(s.place) ==> !HasForeground(s.table))
  }

  // ----- The steps

  lemma StartInv()
    ensures Inv(Start())
  {
    EmptyOk();
  }

  lemma OnlyJob(s: State, pid: int)
    requires Matched(s)
    ensures forall j :: HasPid(s.table, j, pid) ==> IsJobOf(s.table, pid, j)
  {
  }

  lemma AddStep(s: State)
    requires Inv(s) && s.place.Forked?
    ensures Inv(AfterAdd(s)) && !AfterAdd(s).place.Dead?
  {
    if !Full(s.table) {
      AddedOk(s.table, s.place.pid, if s.place.fg then FG else BG, s.place.cmdline);
      var u := AfterAdd(s);
      assert HasPid(u.table, s.table.nextjid, s.place.pid);
      forall pid | !u.overflowed && pid in u.children
        ensures Recorded(u, pid)
      {
        assert Recorded(s, pid);
        if j :| HasPid(s.table, j, pid) { assert HasPid(u.table, j, pid); }
      }
    }
  }

  lemma ReapStep(s: State, pid: int)
    requires Inv(s) && Enabled(s, Reap(pid))
    ensures Inv(AfterReap(s, pid))
    ensures AfterReap(s, pid).place.Dead? <==> s.children[pid].Stopped? && !Recorded(s, pid)
  {
    OnlyJob(s, pid);
    if j: nat :| j > 0 && IsJobOf(s.table, pid, j) {
      if s.children[pid].Stopped? {
        StoppedStep(s, pid, j);
      } else {
        EndedStep(s, pid, j);
      }
    }
  }

  lemma StoppedStep(s: State, pid: int, j: nat)
    requires Inv(s) && Enabled(s, Reap(pid)) && HasPid(s.table, j, pid) && s.children[pid].Stopped?
    ensures Inv(ReapJob(s, pid, j))
  {
    WithStateOk(s.table, j, ST);
    KeepsRecords(s, ReapJob(s, pid, j), pid, j);
  }

  lemma EndedStep(s: State, pid: int, j: nat)
    requires Inv(s) && Enabled(s, Reap(pid)) && HasPid(s.table, j, pid) && !s.children[pid].Stopped?
    ensures Inv(ReapJob(s, pid, j))
  {
    DeletedOk(s.table, j);
    KeepsRecords(s, ReapJob(s, pid, j), pid, j);
  }

  /** The other children keep their jobs. */
  lemma KeepsRecords(s: State, u: State, pid: int, j: nat)
    requires Matched(s) && !s.place.Forked? && u.place == s.place && u.overflowed == s.overflowed
    requires u.children.Keys <= s.children.Keys && HasPid(s.table, j, pid)
    requires forall k, p :: HasPid(s.table, k, p) && (k != j || pid in u.children) ==> HasPid(u.table, k, p)
    ensures !s.overflowed ==> forall p :: p in u.children ==> Recorded(u, p)
  {
    forall p | !s.overflowed && p in u.children
      ensures Recorded(u, p)
    {
      assert Recorded(s, p);
      var k :| HasPid(s.table, k, p);
      assert HasPid(u.table, k, p);
    }
  }

  lemma ResumeStep(s: State)
    requires Inv(s) && s.place.Checked?
    ensures Inv(AfterResume(s))
  {
    var jid, toFg, u := s.place.jid, s.place.toFg, AfterResume(s);
    if Live(s.table, jid) && !(toFg && HasForeground(s.table)) {
      var state := if toFg then FG else BG;
      WithStateOk(s.table, jid, state);
      ResumedChildren(s, jid, state);
      hide Ok, WithState, Continued, Matched, Waitable;
      SameMatched(s, u);
      ResumedWaitable(s, u, jid, state);
    } else {
      hide Ok;
    }
  }

  /** Nothing but states and places changes. */
  lemma SameMatched(s: State, u: State)
    requires Matched(s) && !s.place.Forked? && !u.place.Forked? && u.overflowed == s.overflowed
    requires u.children.Keys == s.children.Keys && forall j, p :: HasPid(u.table, j, p) <==> HasPid(s.table, j, p)
    ensures Matched(u)
  {
    forall pid | !u.overflowed && pid in u.children
      ensures Recorded(u, pid)
    {
      assert Recorded(s, pid);
      var j :| HasPid(s.table, j, pid);
      assert HasPid(u.table, j, pid);
    }
  }

  lemma ResumedWaitable(s: State, u: State, jid: nat, state: JobState)
    requires Waitable(s) && Live(s.table, jid) && s.place.Checked? && (u.place.Waiting? || u.place.Prompt?)
    requires u.pending || (!s.pending && forall p :: p in u.children && Reportable(u.children[p]) ==>
      p in s.children && Reportable(s.children[p]))
    requires var pid := s.table.slots[jid - 1].pid;
      && pid in u.children && u.children[pid] != Stopped(true)
      && forall p :: p in u.children && p != pid ==> p in s.children && u.children[p] == s.children[p]
    requires forall j, p :: HasPid(u.table, j, p) <==> HasPid(s.table, j, p)
    requires forall j :: j != jid && HasState(s.table, j, ST) ==> HasState(u.table, j, ST)
    ensures Waitable(u)
  {
    assert HasPid(s.table, jid, s.table.slots[jid - 1].pid);
  }

  /** The child of the resumed job is not stopped, and all others are as they were. */
  lemma ResumedChildren(s: State, jid: nat, state: JobState)
    requires Matched(s) && Ok(s.table) && Live(s.table, jid) && state != UNDEF
    ensures var u, pid := WithState(s.table, jid, state), s.table.slots[jid - 1].pid;
      var children := Continued(s.children, pid);
      && children.Keys == s.children.Keys && pid in children && children[pid] != Stopped(true)
      && (forall p :: p in children && p != pid ==> children[p] == s.children[p])
      && (forall p :: p in children && Reportable(children[p]) ==> Reportable(s.children[p]))
      && (forall j :: HasPid(s.table, j, pid) ==> j == jid)
  {
    hide Ok, WithState;
    assert HasPid(s.table, jid, s.table.slots[jid - 1].pid);
  }

  lemma StepInv(s: State, e: Event)
    requires Inv(s) && Enabled(s, e)
    ensures Inv(Step(s, e))
  {
    StepIs(s, e);
    hide Inv, Enabled, Step;
    match e {
      case CallAddJob => AddStep(s);
      case Reap(pid) => ReapStep(s, pid);
      case Resume => ResumeStep(s);
      case ChildStops(_) | ChildContinues(_) | ChildEnds(_, _) => ChildStep(s, e);
      case Fork(_, _, _) => ForkStep(s, e);
      case _ => PlaceStep(s, e);
    }
  }

  lemma StepIs(s: State, e: Event)
    requires Inv(s) && Enabled(s, e)
    ensures Ok(s.table)
    ensures e.CallAddJob? ==> s.place.Forked? && Step(s, e) == AfterAdd(s)
    ensures e.Resume? ==> s.place.Checked? && Step(s, e) == AfterResume(s)
    ensures e.Reap? ==> s.place.Reaping? && e.pid in s.children && Step(s, e) == AfterReap(s, e.pid)
  {
    hide Ok, Matched, Waitable, AfterAdd, AfterResume, AfterReap;
  }

  lemma ForkStep(s: State, e: Event)
    requires Inv(s) && Enabled(s, e) && e.Fork?
    ensures Inv(Step(s, e))
  {
    hide Ok;
  }

  /** The steps that only move the shell on. */
  lemma PlaceStep(s: State, e: Event)
    requires Inv(s) && Enabled(s, e)
    requires e.TestForeground? || e.OtherSignal? || e.NameJob? || e.NamePid? || e.CheckJob? || e.Deliver? ||
             e.LeaveHandler?
    ensures Inv(Step(s, e))
  {
    hide Ok;
  }

  lemma ChildStep(s: State, e: Event)
    requires Inv(s) && Enabled(s, e) && (e.ChildStops? || e.ChildContinues? || e.ChildEnds?)
    ensures Inv(Step(s, e))
  {
    hide Ok;
  }

  // ----- Which step does what to a job

  /** Job `j` is about to change its state, and to which. */
  ghost predicate Changes(s: State, e: Event, j: nat, state: JobState)
    requires Enabled(s, e)
  {
    || (e.Reap? && HasPid(s.table, j, e.pid) && s.children[e.pid].Stopped? && state == ST)
    || (e == Resume && j == s.place.jid && state == if s.place.toFg then FG else BG)
  }

  /** A job that stays keeps its process and its command line, and changes its state just as `Changes` says. */
  ghost predicate Stays(s: State, e: Event, j: nat)
    requires Enabled(s, e) && Ok(s.table) && Live(s.table, j)
  {
    var u := Step(s, e).table;
    && Live(u, j)
    && (forall p :: HasPid(u, j, p) <==> HasPid(s.table, j, p))
    && (forall c :: HasCmdline(u, j, c) <==> HasCmdline(s.table, j, c))
    && (forall t :: HasState(u, j, t) ==> HasState(s.table, j, t) || Changes(s, e, j, t))
    && (forall t :: Changes(s, e, j, t) ==> HasState(u, j, t))
  }

  ghost predicate JobStep(s: State, e: Event, j: nat)
    requires Enabled(s, e) && Ok(s.table)
  {
    var u := Step(s, e).table;
    && (!Live(s.table, j) && Live(u, j) <==> e == CallAddJob && !Full(s.table) && j == s.table.nextjid)
    && (!Live(s.table, j) && Live(u, j) ==>
          HasPid(u, j, s.place.pid) && HasState(u, j, if s.place.fg then FG else BG) &&
          HasCmdline(u, j, s.place.cmdline))
    && (Live(s.table, j) && !Live(u, j) <==> e.Reap? && HasPid(s.table, j, e.pid) && s.children[e.pid].Gone?)
    && (Live(s.table, j) && Live(u, j) ==> Stays(s, e, j))
  }

  /** Jobs come only from add_job, with the process, state and command line eval gives them; they go only when
      their child is reaped; they become stopped only when the handler reaps their stopped child, and go on in
      the foreground or background only by fg or bg. */
  lemma JobSteps(s: State, e: Event, j: nat)
    requires Inv(s) && Enabled(s, e) && !Step(s, e).place.Dead?
    ensures JobStep(s, e, j)
  {
    StepIs(s, e);
    hide *;
    match e {
      case CallAddJob => AddedJobs(s, j);
      case Reap(pid) => ReapedJobs(s, pid, j);
      case Resume => ResumedJobs(s, j);
      case _ => OtherJobs(s, e, j);
    }
  }

  lemma AddedJobs(s: State, j: nat)
    requires Inv(s) && s.place.Forked?
    ensures JobStep(s, CallAddJob, j)
  {
    AddStep(s);
    if !Full(s.table) { AddedSlot(s.table, s.place.pid, if s.place.fg then FG else BG, s.place.cmdline, j); }
    hide Ok, Matched, Waitable, Full, Added;
  }

  lemma ReapedJobs(s: State, pid: int, j: nat)
    requires Inv(s) && Enabled(s, Reap(pid)) && !AfterReap(s, pid).place.Dead?
    ensures JobStep(s, Reap(pid), j)
  {
    OnlyJob(s, pid);
    hide Ok, Waitable;
    if k: nat :| k > 0 && IsJobOf(s.table, pid, k) {
      FoundJob(s, pid, k);
      hide Matched, AfterReap, IsJobOf;
      ReapedJob(s, pid, k, j);
    } else {
      assert !HasPid(s.table, j, pid);
      hide Matched, IsJobOf;
    }
  }

  lemma FoundJob(s: State, pid: int, k: nat)
    requires Ok(s.table) && Matched(s) && Enabled(s, Reap(pid)) && k > 0 && IsJobOf(s.table, pid, k)
    ensures Step(s, Reap(pid)) == AfterReap(s, pid) == ReapJob(s, pid, k)
    ensures HasPid(s.table, k, pid) && forall j: nat :: HasPid(s.table, j, pid) ==> j == k
  {
    hide Ok;
  }

  lemma ReapedJob(s: State, pid: int, k: nat, j: nat)
    requires Ok(s.table) && Enabled(s, Reap(pid)) && HasPid(s.table, k, pid)
    requires forall h: nat :: HasPid(s.table, h, pid) ==> h == k
    requires Step(s, Reap(pid)) == ReapJob(s, pid, k)
    ensures JobStep(s, Reap(pid), j)
  {
    if s.children[pid].Stopped? { StoppedJob(s, pid, k, j); } else { EndedJob(s, pid, k, j); }
  }

  lemma StoppedJob(s: State, pid: int, k: nat, j: nat)
    requires Ok(s.table) && Enabled(s, Reap(pid)) && HasPid(s.table, k, pid) && s.children[pid].Stopped?
    requires forall h: nat :: HasPid(s.table, h, pid) ==> h == k
    requires Step(s, Reap(pid)) == ReapJob(s, pid, k)
    ensures JobStep(s, Reap(pid), j)
  {
    WithStateSlot(s.table, k, ST, j);
    hide Ok, Step, WithState;
  }

  lemma EndedJob(s: State, pid: int, k: nat, j: nat)
    requires Ok(s.table) && Enabled(s, Reap(pid)) && HasPid(s.table, k, pid) && !s.children[pid].Stopped?
    requires forall h: nat :: HasPid(s.table, h, pid) ==> h == k
    requires Step(s, Reap(pid)) == ReapJob(s, pid, k)
    ensures JobStep(s, Reap(pid), j)
  {
    DeletedSlot(s.table, k, j);
    hide Ok, Step, Deleted;
  }

  lemma ResumedJobs(s: State, j: nat)
    requires Inv(s) && s.place.Checked? && !AfterResume(s).place.Dead?
    ensures JobStep(s, Resume, j)
  {
    WithStateSlot(s.table, s.place.jid, if s.place.toFg then FG else BG, j);
    hide Ok, Matched, Waitable, WithState;
  }

  lemma OtherJobs(s: State, e: Event, j: nat)
    requires Inv(s) && Enabled(s, e) && !e.CallAddJob? && !e.Reap? && !e.Resume?
    ensures JobStep(s, e, j)
  {
    hide Ok, Matched, Waitable;
  }
}
