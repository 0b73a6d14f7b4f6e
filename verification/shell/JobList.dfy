/** tsh_helper.c: the static job list, updated in place. Calls that would abort the program return Aborted. */
module JobList {
  import opened JobTable

  class JobList {
    const jobs: array<Job>
    var nextjid: nat

    ghost function Table(): Table
      reads this, jobs
    {
      JobTable.Table(jobs[..], nextjid)
    }

    ghost predicate Valid()
      reads this, jobs
    {
      Ok(Table())
    }

    /** init_job_list. */
    constructor ()
      ensures Valid() && Table() == Empty() && fresh(jobs)
    {
      jobs := new Job[MAXJOBS](_ => Job(0, 0, UNDEF, NULL));
      nextjid := 1;
      new;
      assert jobs[..] == Empty().slots;
      EmptyOk();
    }

    /** job_exists. */
    method JobExists(jid: int) returns (r: bool)
      requires Valid()
      ensures r <==> Live(Table(), jid)
    {
      r := !(jid < 1 || jid > MAXJOBS) && jobs[jid - 1].state != UNDEF;
    }

    /** maxjid: the search runs from the last slot down. */
    method MaxJid() returns (jid: nat)
      requires jobs.Length == MAXJOBS
      ensures jid == MaxLive(jobs[..])
    {
      jid := MAXJOBS;
      while jid >= 1 && jobs[jid - 1].state == UNDEF
        invariant jid <= MAXJOBS && forall i :: jid <= i < MAXJOBS ==> jobs[i].state == UNDEF
      {
        jid := jid - 1;
      }
      MaxLiveIs(jobs[..], jid);
    }

    /** fg_job: the foreground job, or 0. */
    method FgJob() returns (jid: nat)
      requires Valid()
      ensures IsForeground(Table(), jid) && (jid != 0 <==> HasForeground(Table()))
    {
      var k := 1;
      while k <= MAXJOBS
        invariant 1 <= k <= MAXJOBS + 1 && forall h :: h < k ==> !HasState(Table(), h, FG)
      {
        if jobs[k - 1].state == FG {
          assert HasState(Table(), k, FG);
          return k;
        }
        k := k + 1;
      }
      return 0;
    }

    /** job_from_pid: the first job with the process id, or 0. */
    method JobFromPid(pid: int) returns (jid: nat)
      requires Valid()
      ensures IsJobOf(Table(), pid, jid)
    {
      if pid < 1 {
        return 0;
      }
      var k := 1;
      while k <= MAXJOBS
        invariant 1 <= k <= MAXJOBS + 1 && forall h :: h < k ==> !HasPid(Table(), h, pid)
      {
        if jobs[k - 1].state != UNDEF && jobs[k - 1].pid == pid {
          return k;
        }
        k := k + 1;
      }
      return 0;
    }

    /** add_job aborts on a bad argument or a second foreground job; if no id is left it returns 0. */
    method AddJob(pid: int, state: JobState, cmdline: Text) returns (r: Outcome<nat>)
      requires Valid()
      modifies this, jobs
      ensures Valid()
      ensures r == Aborted <==>
        state == UNDEF || (state == FG && HasForeground(old(Table()))) || pid <= 0 || cmdline == NULL
      ensures r == Aborted || Full(old(Table())) ==> Table() == old(Table())
      ensures r.Done? ==> (r.value == 0 <==> Full(old(Table())))
      ensures r.Done? && r.value != 0 ==> r.value == old(nextjid) && Table() == Added(old(Table()), pid, state, cmdline)
    {
      var fg := FgJob();
      if !((state == FG && fg == 0) || state == BG || state == ST) || pid <= 0 || cmdline == NULL {
        return Aborted;
      }
      NextIsFree(Table());
      if nextjid > MAXJOBS {
        return Done(0);
      }
      AddedStaysOk(Table(), pid, state, cmdline);
      assert jobs[nextjid - 1].state == UNDEF;
      jobs[nextjid - 1] := Job(pid, nextjid, state, cmdline);
      nextjid := nextjid + 1;
      assert Table() == Added(old(Table()), pid, state, cmdline);
      return Done(nextjid - 1);
    }

    /** delete_job: false if there is no such job. The id after the largest one left is given out next. */
    method DeleteJob(jid: int) returns (ok: bool)
      requires Valid()
      modifies this, jobs
      ensures Valid() && (ok <==> Live(old(Table()), jid))
      ensures Table() == if ok then Deleted(old(Table()), jid) else old(Table())
    {
      ok := JobExists(jid);
      if ok {
        DeletedOk(Table(), jid);
        jobs[jid - 1] := Job(0, 0, UNDEF, jobs[jid - 1].cmdline);
        var m := MaxJid();
        nextjid := m + 1;
        assert Table() == Deleted(old(Table()), jid);
      }
    }

    /** job_set_state. */
    method JobSetState(jid: int, state: JobState) returns (r: Outcome<()>)
      requires Valid()
      modifies jobs
      ensures Valid()
      ensures r == Aborted <==>
        !Live(old(Table()), jid) || state == UNDEF || (state == FG && HasForeground(old(Table())))
      ensures Table() == if r == Aborted then old(Table()) else WithState(old(Table()), jid, state)
    {
      var found := JobExists(jid);
      var fg := FgJob();
      if !found || (state != FG && state != BG && state != ST) || (state == FG && fg != 0) {
        return Aborted;
      }
      WithStateOk(Table(), jid, state);
      jobs[jid - 1] := jobs[jid - 1].(state := state);
      assert Table() == WithState(old(Table()), jid, state);
      return Done(());
    }

    /** job_get_pid. */
    method JobGetPid(jid: int) returns (r: Outcome<int>)
      requires Valid()
      ensures r == Aborted <==> !Live(Table(), jid)
      ensures r.Done? ==> HasPid(Table(), jid, r.value)
    {
      var found := JobExists(jid);
      if !found {
        return Aborted;
      }
      return Done(jobs[jid - 1].pid);
    }

    /** job_get_cmdline. */
    method JobGetCmdline(jid: int) returns (r: Outcome<Text>)
      requires Valid()
      ensures r == Aborted <==> !Live(Table(), jid)
      ensures r.Done? ==> HasCmdline(Table(), jid, r.value)
    {
      var found := JobExists(jid);
      if !found {
        return Aborted;
      }
      return Done(jobs[jid - 1].cmdline);
    }

    /** job_get_state. */
    method JobGetState(jid: int) returns (r: Outcome<JobState>)
      requires Valid()
      ensures r == Aborted <==> !Live(Table(), jid)
      ensures r.Done? ==> HasState(Table(), jid, r.value)
    {
      var found := JobExists(jid);
      if !found {
        return Aborted;
      }
      return Done(jobs[jid - 1].state);
    }
  }
}
