/** Safety over every run of the shell, whatever the interleaving (tsh.c). */
module ShellTheorems {
  import opened JobTable
  import opened ShellSteps

  datatype Result = Stuck | Reached(state: State)

  /** The state that events lead to, one after the other, if each is possible when it happens. */
  ghost function Follow(s: State, events: seq<Event>): (r: Result)
    ensures r.Reached? ==> Ok(r.state.table)
    decreases |events|
  {
    if !Ok(s.table) then Stuck
    else if events == [] then Reached(s)
    else if Enabled(s, events[0]) then Follow(Step(s, events[0]), events[1..])
    else Stuck
  }

  /** A run of the shell, from the start. */
  ghost function Run(events: seq<Event>): (r: Result)
    ensures r.Reached? ==> Ok(r.state.table)
  {
    Follow(Start(), events)
  }

  lemma {:induction false} FollowKeepsInv(s: State, events: seq<Event>)
    requires Inv(s) && Follow(s, events).Reached?
    ensures Inv(Follow(s, events).state)
    decreases |events|
  {
    if events != [] {
      StepInv(s, events[0]);
      FollowKeepsInv(Step(s, events[0]), events[1..]);
    }
  }

  lemma EveryRunKeepsInv(events: seq<Event>)
    requires Run(events).Reached?
    ensures Inv(Run(events).state)
  {
    StartInv();
    FollowKeepsInv(Start(), events);
  }

  /** Outside the stretch from fork to add_job, and as long as add_job never found the table full, jobs and
      children that have not been reaped are in bijection. */
  lemma JobsMatchChildren(events: seq<Event>)
    requires Run(events).Reached? && !Run(events).state.overflowed && !Run(events).state.place.Forked?
    ensures var s := Run(events).state;
      && (forall pid :: pid in s.children <==> exists j :: HasPid(s.table, j, pid))
      && (forall j, k, pid :: HasPid(s.table, j, pid) && HasPid(s.table, k, pid) ==> j == k)
      && (forall j :: Live(s.table, j) ==> s.table.slots[j - 1].pid in s.children)
  {
    EveryRunKeepsInv(events);
    var s := Run(events).state;
    forall pid | pid in s.children
      ensures exists j :: HasPid(s.table, j, pid)
    {
      assert Recorded(s, pid);
    }
    forall j | Live(s.table, j)
      ensures s.table.slots[j - 1].pid in s.children
    {
      assert HasPid(s.table, j, s.table.slots[j - 1].pid);
    }
  }

  /** ... so sigchld_handler finds the job of every child it reaps, and never aborts. */
  lemma HandlerFindsTheJob(events: seq<Event>, pid: int)
    requires Run(events).Reached? && !Run(events).state.overflowed && Enabled(Run(events).state, Reap(pid))
    ensures var s := Run(events).state;
      && (exists j: nat :: j > 0 && IsJobOf(s.table, pid, j))
      && !AfterReap(s, pid).place.Dead?
  {
    var s := Run(events).state;
    JobsMatchChildren(events);
    EveryRunKeepsInv(events);
    var j :| HasPid(s.table, j, pid);
    OnlyJob(s, pid);
    ReapStep(s, pid);
  }

  /** No job is in the foreground when the shell is back at the prompt. */
  lemma PromptHasNoForeground(events: seq<Event>)
    requires Run(events).Reached? && Run(events).state.place.Prompt?
    ensures !HasForeground(Run(events).state.table)
  {
    EveryRunKeepsInv(events);
  }

  /** No wake-up is lost: when the shell sleeps in sigsuspend there is a foreground job, and its child either
      runs or has been stopped or has ended in a way that a pending SIGCHLD is about to report. */
  lemma NoLostWakeUp(events: seq<Event>)
    requires Run(events).Reached? && Run(events).state.place.Suspended?
    ensures var s := Run(events).state;
      exists j, pid :: HasState(s.table, j, FG) && HasPid(s.table, j, pid) && pid in s.children
        && (s.children[pid].Running? || (Reportable(s.children[pid]) && Enabled(s, Deliver)))
  {
    EveryRunKeepsInv(events);
    var s := Run(events).state;
    var j :| HasState(s.table, j, FG);
    assert HasPid(s.table, j, s.table.slots[j - 1].pid);
  }

  /** The shell aborts in two ways only: do_bgfg goes on with a job that was reaped after it was checked, or the
      handler meets a stopped child that found no place in the table. */
  lemma AbortsOnlyWhen(events: seq<Event>, e: Event)
    requires Run(events).Reached? && !Run(events).state.place.Dead? && Enabled(Run(events).state, e)
    ensures var s := Run(events).state;
      Step(s, e).place.Dead? <==>
        || (e == Resume && !Live(s.table, s.place.jid))
        || (e.Reap? && s.overflowed && s.children[e.pid] == Stopped(false) && forall j :: !HasPid(s.table, j, e.pid))
  {
    EveryRunKeepsInv(events);
    var s := Run(events).state;
    if e.CallAddJob? { AddStep(s); }
    if e.Reap? {
      ReapStep(s, e.pid);
      assert Recorded(s, e.pid) <==> exists j :: HasPid(s.table, j, e.pid);
    }
  }

  // ----- What the table says of a job

  lemma {:induction false} FollowLast(s: State, before: seq<Event>, e: Event)
    requires Follow(s, before + [e]).Reached?
    ensures var r := Follow(s, before);
      r.Reached? && Enabled(r.state, e) && Follow(s, before + [e]).state == Step(r.state, e)
    decreases |before|
  {
    var all := before + [e];
    if before == [] {
      assert all[1..] == [];
    } else {
      assert all[1..] == before[1..] + [e];
      FollowLast(Step(s, before[0]), before[1..], e);
    }
  }

  /** The last step of a run, and the run before it. */
  lemma RunLast(events: seq<Event>)
    requires events != [] && Run(events).Reached?
    ensures var r, e := Run(events[..|events| - 1]), events[|events| - 1];
      && r.Reached? && Inv(r.state) && Enabled(r.state, e) && Run(events).state == Step(r.state, e)
  {
    var before, e := events[..|events| - 1], events[|events| - 1];
    assert events == before + [e];
    FollowLast(Start(), before, e);
    EveryRunKeepsInv(before);
  }

  /** A step that aborts leaves the table as it is. */
  lemma DeadKeeps(s: State, e: Event)
    requires Ok(s.table) && Enabled(s, e) && Step(s, e).place.Dead?
    ensures Step(s, e).table == s.table
    ensures e.CallAddJob? || e.Reap? || e.Resume? ==> Step(s, e).children == s.children
  {
    hide Ok;
  }

  /** Step `k` calls add_job when the table is full. */
  ghost predicate FoundFull(events: seq<Event>, k: nat) {
    k < |events| && events[k] == CallAddJob && Run(events[..k]).Reached? && Full(Run(events[..k]).state.table)
  }

  /** `overflowed` is the history it says: add_job has met a full table. */
  lemma {:induction false} OverflowExact(events: seq<Event>)
    requires Run(events).Reached?
    ensures Run(events).state.overflowed <==> exists k: nat :: FoundFull(events, k)
  {
    if events != [] {
      var before, e := events[..|events| - 1], events[|events| - 1];
      RunLast(events);
      OverflowExact(before);
      OverflowStep(Run(before).state, e);
      hide Run, Full, Inv, Enabled, Step, Ok;
      assert forall k :: 0 <= k <= |before| ==> events[..k] == before[..k];
      assert before[..|before|] == before && events[|before|] == e;
      assert forall k: nat :: k < |before| ==> (FoundFull(events, k) <==> FoundFull(before, k));
      assert FoundFull(events, |before|) <==> e == CallAddJob && Full(Run(before).state.table);
      if k: nat :| FoundFull(before, k) { assert FoundFull(events, k); }
    }
  }

  lemma OverflowStep(s: State, e: Event)
    requires Inv(s) && Enabled(s, e)
    ensures Step(s, e).overflowed <==> s.overflowed || (e == CallAddJob && Full(s.table))
  {
    if e.CallAddJob? { AddStep(s); }
    hide Ok, Full;
  }

  /** The command line that the process was last forked for. */
  ghost function LastFork(events: seq<Event>, pid: int): Text {
    if events == [] then NULL
    else
      var e := events[|events| - 1];
      if e.Fork? && e.pid == pid then e.cmdline else LastFork(events[..|events| - 1], pid)
  }

  /** After every run, the command line of a job is the one its process was forked for. */
  lemma {:induction false} CommandLines(events: seq<Event>, j: nat, pid: int)
    requires Run(events).Reached?
    ensures var s := Run(events).state;
      && (HasPid(s.table, j, pid) ==> HasCmdline(s.table, j, LastFork(events, pid)))
      && (s.place.Forked? && s.place.pid == pid ==> s.place.cmdline == LastFork(events, pid))
  {
    if events == [] {
      EmptyOk();
    } else {
      var before, e := events[..|events| - 1], events[|events| - 1];
      RunLast(events);
      CommandLines(before, j, pid);
      hide Run;
      CommandLineStep(Run(before).state, e, j, pid, LastFork(before, pid));
    }
  }

  lemma CommandLineStep(s: State, e: Event, j: nat, pid: int, line: Text)
    requires Inv(s) && Enabled(s, e) && (HasPid(s.table, j, pid) ==> HasCmdline(s.table, j, line))
    requires s.place.Forked? && s.place.pid == pid ==> s.place.cmdline == line
    ensures var u, now := Step(s, e), if e.Fork? && e.pid == pid then e.cmdline else line;
      && (HasPid(u.table, j, pid) ==> HasCmdline(u.table, j, now))
      && (u.place.Forked? && u.place.pid == pid ==> u.place.cmdline == now)
  {
    ForkedNext(s, e);
    if Step(s, e).place.Dead? {
      DeadKeeps(s, e);
    } else {
      JobSteps(s, e, j);
    }
    NoJobYet(s, e, j);
    hide Inv, Enabled, Step, Ok;
  }

  lemma NoJobYet(s: State, e: Event, j: nat)
    requires Inv(s) && Enabled(s, e)
    ensures e.Fork? ==> !HasPid(s.table, j, e.pid) && Step(s, e).table == s.table
  {
    hide Ok;
  }

  lemma ForkedNext(s: State, e: Event)
    requires Inv(s) && Enabled(s, e)
    ensures Step(s, e).place.Forked? ==> Step(s, e).place == if e.Fork? then Forked(e.pid, e.fg, e.cmdline) else s.place
  {
    hide Ok;
  }

  /** After every run, a job whose child is known to be stopped is recorded as stopped; and a job is recorded as
      stopped only if its child is, or has ended since, or was continued by someone else. */
  lemma StoppedJobs(events: seq<Event>, j: nat, pid: int)
    requires Run(events).Reached? && HasPid(Run(events).state.table, j, pid)
    ensures var s := Run(events).state;
      && pid in s.children
      && (s.children[pid] == Stopped(true) ==> HasState(s.table, j, ST))
      && (HasState(s.table, j, ST) && ChildContinues(pid) !in events ==>
            s.children[pid] == Stopped(true) || s.children[pid].Gone?)
  {
    EveryRunKeepsInv(events);
    if ChildContinues(pid) !in events { NotRunning(events, j, pid); }
  }

  lemma {:induction false} NotRunning(events: seq<Event>, j: nat, pid: int)
    requires Run(events).Reached? && ChildContinues(pid) !in events
    ensures StoppedOrGone(Run(events).state, j, pid)
  {
    if events == [] {
      EmptyOk();
    } else {
      var before, e := events[..|events| - 1], events[|events| - 1];
      RunLast(events);
      NotRunning(before, j, pid);
      assert e in events;
      hide Run;
      NotRunningStep(Run(before).state, e, j, pid);
    }
  }

  ghost predicate StoppedOrGone(s: State, j: nat, pid: int) {
    HasPid(s.table, j, pid) && HasState(s.table, j, ST) ==>
      pid in s.children && (s.children[pid] == Stopped(true) || s.children[pid].Gone?)
  }

  lemma NotRunningStep(s: State, e: Event, j: nat, pid: int)
    requires Inv(s) && Enabled(s, e) && e != ChildContinues(pid) && StoppedOrGone(s, j, pid)
    ensures StoppedOrGone(Step(s, e), j, pid)
  {
    var u := Step(s, e);
    StepInv(s, e);
    ChildNext(s, e, pid);
    if HasPid(u.table, j, pid) && HasState(u.table, j, ST) {
      HasChild(u, j, pid);
      StoppedNext(s, e, j, pid);
    }
    hide Inv, Enabled, Step, Ok;
  }

  lemma HasChild(s: State, j: nat, pid: int)
    requires Inv(s) && HasPid(s.table, j, pid)
    ensures pid in s.children && (s.children[pid] == Stopped(true) ==> HasState(s.table, j, ST))
  {
    hide Ok;
  }

  /** A job that is stopped was so, or its stopped child has just been reaped. */
  lemma StoppedNext(s: State, e: Event, j: nat, pid: int)
    requires Inv(s) && Enabled(s, e) && HasPid(Step(s, e).table, j, pid) && HasState(Step(s, e).table, j, ST)
    ensures
      || (HasPid(s.table, j, pid) && HasState(s.table, j, ST) &&
          (e == Resume ==> Step(s, e).place.Dead? || s.place.jid != j))
      || (e.Reap? && e.pid == pid && pid in s.children && Step(s, e).children == s.children[pid := Stopped(true)])
  {
    if Step(s, e).place.Dead? {
      DeadKeeps(s, e);
    } else {
      JobSteps(s, e, j);
      StoppedFrom(s, e, j, pid);
    }
    ReapedState(s, e, j);
    hide *;
  }

  lemma StoppedFrom(s: State, e: Event, j: nat, pid: int)
    requires Enabled(s, e) && Ok(s.table) && JobStep(s, e, j)
    requires HasPid(Step(s, e).table, j, pid) && HasState(Step(s, e).table, j, ST)
    ensures HasPid(s.table, j, pid)
    ensures (HasState(s.table, j, ST) && (e == Resume ==> s.place.jid != j)) ||
      (e.Reap? && HasPid(s.table, j, e.pid) && e.pid == pid && s.children[pid].Stopped?)
  {
    assert Live(s.table, j);
    assert e == Resume && s.place.jid == j ==> Changes(s, e, j, if s.place.toFg then FG else BG);
    hide Step, Ok;
  }

  lemma ReapedState(s: State, e: Event, j: nat)
    requires Inv(s) && Enabled(s, e)
    ensures e.Reap? ==> e.pid in s.children
    ensures e.Reap? && HasPid(s.table, j, e.pid) && s.children[e.pid].Stopped? ==>
      Step(s, e).children == s.children[e.pid := Stopped(true)]
  {
    if e.Reap? {
      OnlyJob(s, e.pid);
      hide Ok, Waitable;
      assert HasPid(s.table, j, e.pid) ==> IsJobOf(s.table, e.pid, j);
    }
  }

  /** What happens to a child. */
  lemma ChildNext(s: State, e: Event, pid: int)
    requires Inv(s) && Enabled(s, e)
    ensures var u := Step(s, e);
      && (pid in s.children && pid in u.children && u.children[pid] != s.children[pid] ==>
            || (e.Reap? && e.pid == pid && u.children[pid] == Stopped(true))
            || (e == Resume && !u.place.Dead? && HasPid(s.table, s.place.jid, pid))
            || e == ChildStops(pid) || e == ChildContinues(pid) || (e.ChildEnds? && u.children[pid].Gone?))
      && (e == ChildStops(pid) ==> s.children[pid].Running?)
  {
    hide Ok, Waitable;
  }

  /** When do_bgfg uses a job that is gone, it was reaped in between: the handler interrupted do_bgfg after its
      check and reaped the child of that very job, which had ended. */
  ghost predicate ReapedBetween(events: seq<Event>, k: nat, jid: int, toFg: bool) {
    && k < |events| && events[k].Reap? && Run(events[..k]).Reached?
    && (forall h :: k < h < |events| ==> events[h] != CheckJob)
    && var s := Run(events[..k]).state;
      && s.place == Reaping(Checked(jid, toFg)) && HasPid(s.table, jid, events[k].pid)
      && events[k].pid in s.children && s.children[events[k].pid].Gone?
  }

  lemma {:induction false} CheckedOrReaped(events: seq<Event>, jid: int, toFg: bool)
    requires Run(events).Reached?
    requires var p := Run(events).state.place; p == Checked(jid, toFg) || p == Reaping(Checked(jid, toFg))
    ensures Live(Run(events).state.table, jid) || exists k: nat :: ReapedBetween(events, k, jid, toFg)
  {
    if events != [] {
      var before, e := events[..|events| - 1], events[|events| - 1];
      RunLast(events);
      var s, u := Run(before).state, Run(events).state;
      CheckedNext(s, e, jid, toFg);
      assert events == before + [e];
      hide Run, Inv, Enabled, Step, Ok;
      if !Live(u.table, jid) {
        if Live(s.table, jid) {
          assert ReapedBetween(events, |before|, jid, toFg);
        } else {
          CheckedOrReaped(before, jid, toFg);
          var k: nat :| ReapedBetween(before, k, jid, toFg);
          StillBetween(before, e, k, jid, toFg);
        }
      }
    }
  }

  lemma StillBetween(before: seq<Event>, e: Event, k: nat, jid: int, toFg: bool)
    requires ReapedBetween(before, k, jid, toFg) && e != CheckJob
    ensures ReapedBetween(before + [e], k, jid, toFg)
  {
    hide Run;
    assert (before + [e])[..k] == before[..k];
  }

  lemma CheckedNext(s: State, e: Event, jid: int, toFg: bool)
    requires Inv(s) && Enabled(s, e)
    requires Step(s, e).place == Checked(jid, toFg) || Step(s, e).place == Reaping(Checked(jid, toFg))
    ensures e == CheckJob ==> Live(Step(s, e).table, jid)
    ensures e != CheckJob ==> s.place == Checked(jid, toFg) || s.place == Reaping(Checked(jid, toFg))
    ensures Live(s.table, jid) && !Live(Step(s, e).table, jid) ==>
      && e.Reap? && s.place == Reaping(Checked(jid, toFg)) && HasPid(s.table, jid, e.pid)
      && e.pid in s.children && s.children[e.pid].Gone?
  {
    if jid >= 0 { JobSteps(s, e, jid); }
    CheckedPlace(s, e, jid, toFg);
    hide Inv, Step, Ok;
  }

  lemma CheckedPlace(s: State, e: Event, jid: int, toFg: bool)
    requires Inv(s) && Enabled(s, e)
    requires Step(s, e).place == Checked(jid, toFg) || Step(s, e).place == Reaping(Checked(jid, toFg))
    ensures e == CheckJob ==> Live(Step(s, e).table, jid)
    ensures e != CheckJob ==> s.place == Checked(jid, toFg) || s.place == Reaping(Checked(jid, toFg))
    ensures e.Reap? ==> s.place == Reaping(Checked(jid, toFg)) && e.pid in s.children
  {
    hide Ok;
  }

  // ----- The two ways happen

  ghost predicate Goes(s: State, e: Event, u: State) {
    Ok(s.table) && Enabled(s, e) && Step(s, e) == u
  }

  lemma {:induction false} Path(states: seq<State>, events: seq<Event>)
    requires |states| == |events| + 1 && Ok(states[|events|].table)
    requires forall i :: 0 <= i < |events| ==> Goes(states[i], events[i], states[i + 1])
    ensures Follow(states[0], events) == Reached(states[|events|])
    decreases |events|
  {
    if events != [] {
      assert Goes(states[0], events[0], states[1]);
      Path(states[1..], events[1..]);
    }
  }

  lemma {:induction false} FollowBoth(s: State, a: seq<Event>, b: seq<Event>)
    requires Follow(s, a).Reached?
    ensures Follow(s, a + b) == Follow(Follow(s, a).state, b)
    decreases |a|
  {
    hide Enabled, Step, Ok;
    if a == [] {
      assert a + b == b;
    } else {
      FollowBoth(Step(s, a[0]), a[1..], b);
      assert (a + b)[1..] == a[1..] + b;
    }
  }

  /** The events by which a child ends while do_bgfg is between its check and its use of the job. */
  function EndedInBetween(jid: nat, pid: int, toFg: bool): seq<Event> {
    [NameJob(jid, toFg), CheckJob, ChildEnds(pid, false)] + [Deliver, Reap(pid), LeaveHandler, Resume]
  }

  /** Every run that comes to the prompt with a running job goes on, in one way, to an abort in do_bgfg. */
  lemma ReapedAfterCheck(events: seq<Event>, jid: nat, pid: int, toFg: bool)
    requires Run(events).Reached?
    requires var s := Run(events).state;
      s.place == Prompt && !s.pending && HasPid(s.table, jid, pid) && pid in s.children && s.children[pid].Running?
    ensures var r := Run(events + EndedInBetween(jid, pid, toFg)); r.Reached? && r.state.place == Dead
  {
    EveryRunKeepsInv(events);
    var s := Run(events).state;
    FollowBoth(Start(), events, EndedInBetween(jid, pid, toFg));
    hide Inv, Follow, HasPid;
    AtPrompt(s, jid, pid, toFg);
    var u := NamedAndChecked(s, jid, pid, toFg);
    FollowBoth(s, [NameJob(jid, toFg), CheckJob, ChildEnds(pid, false)], [Deliver, Reap(pid), LeaveHandler, Resume]);
    ResumedWithoutJob(u, jid, pid, toFg);
  }

  /** At the prompt, with nothing pending, no child waits to be reported. */
  lemma AtPrompt(s: State, jid: nat, pid: int, toFg: bool)
    requires Inv(s) && s.place == Prompt && !s.pending && HasPid(s.table, jid, pid) && pid in s.children
    ensures Ok(s.table)
    ensures var u := s.(children := s.children[pid := Gone(false)], pending := true, place := Checked(jid, toFg));
      Matched(u) && HasPid(u.table, jid, pid) && forall p :: p in u.children && p != pid ==> !Reportable(u.children[p])
  {
    hide Ok;
  }

  lemma NamedAndChecked(s: State, jid: nat, pid: int, toFg: bool) returns (s3: State)
    requires Ok(s.table) && s.place == Prompt && HasPid(s.table, jid, pid)
    requires pid in s.children && s.children[pid].Running?
    ensures Follow(s, [NameJob(jid, toFg), CheckJob, ChildEnds(pid, false)]) == Reached(s3)
    ensures s3 == s.(children := s.children[pid := Gone(false)], pending := true, place := Checked(jid, toFg))
  {
    var s1 := s.(place := Named(jid, toFg));
    var s2 := s.(place := Checked(jid, toFg));
    s3 := s2.(children := s.children[pid := Gone(false)], pending := true);
    assert Goes(s, NameJob(jid, toFg), s1) && Goes(s1, CheckJob, s2) && Goes(s2, ChildEnds(pid, false), s3);
    hide Goes, Ok, Follow;
    Path([s, s1, s2, s3], [NameJob(jid, toFg), CheckJob, ChildEnds(pid, false)]);
  }

  lemma ResumedWithoutJob(s: State, jid: nat, pid: int, toFg: bool)
    requires Ok(s.table) && Matched(s) && s.place == Checked(jid, toFg) && s.pending && HasPid(s.table, jid, pid)
    requires s.children[pid].Gone? && forall p :: p in s.children && p != pid ==> !Reportable(s.children[p])
    ensures var r := Follow(s, [Deliver, Reap(pid), LeaveHandler, Resume]); r.Reached? && r.state.place == Dead
  {
    hide *;
    var s1, s2 := EndedAndReaped(s, jid, pid);
    var s3, s4 := BackWithoutJob(s2, jid, pid, toFg);
    Path([s, s1, s2, s3, s4], [Deliver, Reap(pid), LeaveHandler, Resume]);
  }

  lemma EndedAndReaped(s: State, jid: nat, pid: int) returns (s1: State, s2: State)
    requires Ok(s.table) && Matched(s) && s.place.Checked? && s.pending && HasPid(s.table, jid, pid)
    requires s.children[pid].Gone?
    ensures Goes(s, Deliver, s1) && Goes(s1, Reap(pid), s2)
    ensures Ok(s2.table) && !Live(s2.table, jid) && s2.children == s.children - {pid} && s2.place == Reaping(s.place)
  {
    s1 := s.(pending := false, place := Reaping(s.place));
    ReapOnly(s1, pid, jid);
    DeletedOk(s.table, jid);
    hide Ok, Matched, HasPid;
    s2 := ReapJob(s1, pid, jid);
  }

  lemma BackWithoutJob(s: State, jid: nat, pid: int, toFg: bool) returns (s1: State, s2: State)
    requires Ok(s.table) && s.place == Reaping(Checked(jid, toFg)) && !Live(s.table, jid)
    requires forall p :: p in s.children ==> !Reportable(s.children[p])
    ensures Goes(s, LeaveHandler, s1) && Goes(s1, Resume, s2) && Ok(s2.table) && s2.place == Dead
  {
    s1 := s.(place := Checked(jid, toFg));
    s2 := s.(place := Dead);
  }

  lemma ReapOnly(s: State, pid: int, j: nat)
    requires Matched(s) && Ok(s.table) && Enabled(s, Reap(pid)) && HasPid(s.table, j, pid)
    ensures j > 0 && AfterReap(s, pid) == ReapJob(s, pid, j)
  {
    OnlyJob(s, pid);
    assert IsJobOf(s.table, pid, j);
  }

  /** Every run that has forked a background child when the table is full goes on, in one way, to an abort in
      the handler: the child, for which add_job had no room, is stopped. */
  lemma StoppedWithoutJob(events: seq<Event>, pid: int)
    requires Run(events).Reached?
    requires var s := Run(events).state;
      s.place.Forked? && !s.place.fg && s.place.pid == pid &&
        Full(s.table) && pid in s.children && s.children[pid].Running?
    ensures var r := Run(events + [CallAddJob, ChildStops(pid), Deliver, Reap(pid)]);
      r.Reached? && r.state.overflowed && r.state.place == Dead
  {
    EveryRunKeepsInv(events);
    var s := Run(events).state;
    FollowBoth(Start(), events, [CallAddJob, ChildStops(pid), Deliver, Reap(pid)]);
    var s1 := s.(place := Prompt, overflowed := true);
    var s2 := s1.(children := s.children[pid := Stopped(false)], pending := true);
    var s3 := s2.(pending := false, place := Reaping(Prompt));
    var s4 := s3.(place := Dead);
    NoRoom(s, pid);
    ReportedWithoutJob(s, pid);
    hide Goes, Ok, Follow, Inv, Enabled, Step;
    Path([s, s1, s2, s3, s4], [CallAddJob, ChildStops(pid), Deliver, Reap(pid)]);
  }

  lemma NoRoom(s: State, pid: int)
    requires Inv(s) && s.place.Forked? && !s.place.fg && s.place.pid == pid
    requires Full(s.table) && pid in s.children && s.children[pid].Running?
    ensures var s1 := s.(place := Prompt, overflowed := true);
      && Goes(s, CallAddJob, s1)
      && Goes(s1, ChildStops(pid), s1.(children := s.children[pid := Stopped(false)], pending := true))
  {
  }

  lemma ReportedWithoutJob(s: State, pid: int)
    requires Inv(s) && s.place.Forked? && s.place.pid == pid && pid in s.children
    ensures var s2 := s.(place := Prompt, overflowed := true,
        children := s.children[pid := Stopped(false)], pending := true);
      var s3 := s2.(pending := false, place := Reaping(Prompt));
      Goes(s2, Deliver, s3) && Goes(s3, Reap(pid), s3.(place := Dead)) && Ok(s.table)
  {
    hide Ok;
  }

  // ----- From the start

  /** The state at the prompt with `n` background jobs, processes 1 to n, all running. */
  ghost predicate Busy(s: State, n: nat) {
    && s.place == Prompt && !s.pending && Ok(s.table) && s.table.nextjid == n + 1
    && (forall pid :: pid in s.children <==> 1 <= pid <= n)
    && (forall pid :: pid in s.children ==> s.children[pid].Running?)
    && (n > 0 ==> HasPid(s.table, n, n))
  }

  /** A run that starts `n` background jobs. */
  lemma {:induction false} StartJobs(n: nat) returns (events: seq<Event>)
    requires n <= MAXJOBS
    ensures Run(events).Reached? && Busy(Run(events).state, n)
  {
    events := [];
    if n == 0 {
      EmptyOk();
    } else {
      var before := StartJobs(n - 1);
      EveryRunKeepsInv(before);
      events := NextJob(before, n);
    }
  }

  lemma NextJob(before: seq<Event>, n: nat) returns (events: seq<Event>)
    requires 0 < n <= MAXJOBS && Run(before).Reached? && Inv(Run(before).state) && Busy(Run(before).state, n - 1)
    ensures Run(events).Reached? && Busy(Run(events).state, n)
  {
    hide Inv, Follow, Busy, Goes, Ok;
    var s := Run(before).state;
    var more := [Fork(n, false, Text("")), CallAddJob];
    events := before + more;
    var s1, s2 := OneMore(s, n);
    FollowBoth(Start(), before, more);
    Path([s, s1, s2], more);
  }

  lemma OneMore(s: State, n: nat) returns (s1: State, s2: State)
    requires 0 < n <= MAXJOBS && Inv(s) && Busy(s, n - 1)
    ensures Goes(s, Fork(n, false, Text("")), s1) && Goes(s1, CallAddJob, s2) && Busy(s2, n) && Ok(s2.table)
  {
    s1 := s.(children := s.children[n as int := Running], place := Forked(n, false, Text("")));
    AddedOk(s.table, n, BG, Text(""));
    s2 := AfterAdd(s1);
  }

  /** The shell can abort in do_bgfg, for fg and for bg. */
  lemma AbortInBgfg(toFg: bool) returns (events: seq<Event>)
    ensures Run(events).Reached? && Run(events).state.place == Dead
    ensures events != [] && events[|events| - 1] == Resume
  {
    var before := StartJobs(1);
    ReapedAfterCheck(before, 1, 1, toFg);
    events := before + EndedInBetween(1, 1, toFg);
  }

  /** The shell can abort in sigchld_handler. */
  lemma AbortInHandler() returns (events: seq<Event>)
    ensures Run(events).Reached? && Run(events).state.place == Dead
    ensures events != [] && events[|events| - 1].Reap?
  {
    var before := StartJobs(MAXJOBS);
    var s := Run(before).state;
    var pid := MAXJOBS + 1;
    var s1 := s.(children := s.children[pid as int := Running], place := Forked(pid, false, Text("")));
    assert Goes(s, Fork(pid, false, Text("")), s1);
    FollowBoth(Start(), before, [Fork(pid, false, Text(""))]);
    assert Follow(s, [Fork(pid, false, Text(""))]) == Reached(s1) by {
      hide Goes;
      Path([s, s1], [Fork(pid, false, Text(""))]);
    }
    events := before + [Fork(pid, false, Text(""))];
    hide Follow, Goes, Busy;
    StoppedWithoutJob(events, pid);
    events := events + [CallAddJob, ChildStops(pid), Deliver, Reap(pid)];
  }
}
