/** The stretches of tsh.c that change the job list, on the job list itself: each is the step of that name. */
module Shell {
  import opened JobTable
  import opened JobList
  import opened ShellSteps

  /** eval, after fork: add_job is called in the foreground or the background. */
  method EvalAdd(list: JobList, ghost s: State, pid: int, fg: bool, cmdline: Text)
    returns (aborted: bool, wait: bool)
    requires list.Valid() && s.table == list.Table() && Inv(s) && s.place == Forked(pid, fg, cmdline)
    modifies list, list.jobs
    ensures list.Valid() && !aborted && !AfterAdd(s).place.Dead?
    ensures list.Table() == AfterAdd(s).table
    ensures wait <==> AfterAdd(s).place.Waiting?
  {
    AddStep(s);
    var r := list.AddJob(pid, if fg then FG else BG, cmdline);
    aborted := r.Aborted?;
    wait := fg;
  }

  /** sigchld_handler: the body of its loop, for a child that waitpid reports as stopped or ended. */
  method ReapChild(list: JobList, ghost s: State, pid: int, stopped: bool) returns (aborted: bool)
    requires list.Valid() && s.table == list.Table() && Inv(s) && Enabled(s, Reap(pid))
    requires stopped <==> s.children[pid].Stopped?
    modifies list, list.jobs
    ensures list.Valid() && (aborted <==> AfterReap(s, pid).place.Dead?)
    ensures !aborted ==> list.Table() == AfterReap(s, pid).table
  {
    OnlyJob(s, pid);
    var jid := list.JobFromPid(pid);
    aborted := false;
    if stopped {
      var r := list.JobSetState(jid, ST);
      aborted := r.Aborted?;
    } else {
      var ok := list.DeleteJob(jid);
    }
  }

  /** do_bgfg, for an argument that is a process id: back to the prompt, or on with the job of the process. */
  method BgfgName(list: JobList, ghost s: State, pid: int, toFg: bool) returns (jid: nat)
    requires list.Valid() && s.table == list.Table() && Inv(s) && s.place == Prompt
    ensures Step(s, NamePid(pid, toFg)) == if jid == 0 then s else s.(place := Named(jid, toFg))
  {
    OnlyJob(s, pid);
    jid := list.JobFromPid(pid);
  }

  /** do_bgfg, job_exists: back to the prompt, or on with the job. */
  method BgfgCheck(list: JobList, ghost s: State, jid: int, toFg: bool) returns (found: bool)
    requires list.Valid() && s.table == list.Table() && Inv(s) && s.place == Named(jid, toFg)
    ensures Step(s, CheckJob) == s.(place := if found then Checked(jid, toFg) else Prompt)
  {
    found := list.JobExists(jid);
  }

  /** do_bgfg, from job_get_pid on; the command line is printed when the job goes on in the background. */
  method BgfgResume(list: JobList, ghost s: State, jid: int, toFg: bool)
    returns (aborted: bool, cmdline: Text)
    requires list.Valid() && s.table == list.Table() && Inv(s) && s.place == Checked(jid, toFg)
    modifies list, list.jobs
    ensures list.Valid() && (aborted <==> AfterResume(s).place.Dead?)
    ensures !aborted ==> list.Table() == AfterResume(s).table && HasCmdline(s.table, jid, cmdline)
  {
    var pid := list.JobGetPid(jid);
    if pid.Aborted? {
      return true, NULL;
    }
    var line := list.JobGetCmdline(jid);
    var r := list.JobSetState(jid, if toFg then FG else BG);
    return r.Aborted?, line.value;
  }

  /** The test of the wait loops in eval and do_bgfg. */
  method MustWait(list: JobList, ghost s: State) returns (wait: bool)
    requires list.Valid() && s.table == list.Table() && Inv(s) && s.place.Waiting?
    ensures wait <==> Step(s, TestForeground).place.Suspended?
  {
    var jid := list.FgJob();
    wait := jid != 0;
  }
}
