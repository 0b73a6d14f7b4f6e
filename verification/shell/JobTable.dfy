/** The job table of tsh_helper.c as a value: what each operation does to it, and what every operation keeps. */
module JobTable {

  const MAXJOBS: nat := 64

  datatype JobState = UNDEF | FG | BG | ST

  /** A `char *`. */
  datatype Text = NULL | Text(chars: string)

  datatype Job = Job(pid: int, jid: nat, state: JobState, cmdline: Text)

  /** The slots (slot `i` is for job `i + 1`) and the next job id to give out. */
  datatype Table = Table(slots: seq<Job>, nextjid: nat)

  /** What a call that may abort the program returns. */
  datatype Outcome<T> = Done(value: T) | Aborted

  ghost predicate Live(t: Table, jid: int) {
    1 <= jid <= |t.slots| && t.slots[jid - 1].state != UNDEF
  }

  ghost predicate HasState(t: Table, jid: int, state: JobState) {
    Live(t, jid) && t.slots[jid - 1].state == state
  }

  ghost predicate HasPid(t: Table, jid: int, pid: int) {
    Live(t, jid) && t.slots[jid - 1].pid == pid
  }

  ghost predicate HasCmdline(t: Table, jid: int, cmdline: Text) {
    Live(t, jid) && t.slots[jid - 1].cmdline == cmdline
  }

  /** The slots of all jobs but one are as they were. */
  ghost predicate SameOthers(t: Table, u: Table, jid: nat) {
    && |u.slots| == |t.slots|
    && forall i :: 0 <= i < |t.slots| && i + 1 != jid ==> u.slots[i] == t.slots[i]
  }

  /** The largest live job id among the first `n` slots, or 0. */
  ghost function MaxLive(slots: seq<Job>): (r: nat)
    ensures r <= |slots| && (r > 0 ==> slots[r - 1].state != UNDEF)
    ensures forall i :: r <= i < |slots| ==> slots[i].state == UNDEF
  {
    if slots == [] then 0
    else if slots[|slots| - 1].state != UNDEF then |slots|
    else MaxLive(slots[..|slots| - 1])
  }

  /** Every job is in the slot of its id, at most one is in the foreground, and the next id is one more than
      the largest in use. */
  ghost predicate Ok(t: Table) {
    && |t.slots| == MAXJOBS
    && (forall jid :: Live(t, jid) ==> t.slots[jid - 1].jid == jid)
    && (forall j, k :: HasState(t, j, FG) && HasState(t, k, FG) ==> j == k)
    && t.nextjid == MaxLive(t.slots) + 1
  }

  ghost predicate IsForeground(t: Table, jid: nat) {
    && (jid > 0 ==> HasState(t, jid, FG))
    && (jid == 0 ==> forall k :: !HasState(t, k, FG))
  }

  ghost predicate IsJobOf(t: Table, pid: int, jid: nat) {
    && (jid > 0 ==> HasPid(t, jid, pid) && pid >= 1 && forall k :: k < jid ==> !HasPid(t, k, pid))
    && (jid == 0 ==> pid < 1 || forall k :: !HasPid(t, k, pid))
  }

  /** There is a foreground job. */
  ghost predicate HasForeground(t: Table) {
    exists jid :: HasState(t, jid, FG)
  }

  // ----- The operations

  ghost function Empty(): Table {
    Table(seq(MAXJOBS, _ => Job(0, 0, UNDEF, NULL)), 1)
  }

  /** The table has no id left to give out: job 64 is live, whatever the other slots hold. */
  ghost predicate Full(t: Table) {
    t.nextjid > MAXJOBS
  }

  ghost function Added(t: Table, pid: int, state: JobState, cmdline: Text): Table
    requires |t.slots| == MAXJOBS && 1 <= t.nextjid <= MAXJOBS
  {
    Table(t.slots[t.nextjid - 1 := Job(pid, t.nextjid, state, cmdline)], t.nextjid + 1)
  }

  ghost function Cleared(j: Job): Job {
    Job(0, 0, UNDEF, j.cmdline)
  }

  ghost function Deleted(t: Table, jid: nat): Table
    requires Live(t, jid)
  {
    var slots := t.slots[jid - 1 := Cleared(t.slots[jid - 1])];
    Table(slots, MaxLive(slots) + 1)
  }

  ghost function WithState(t: Table, jid: nat, state: JobState): Table
    requires Live(t, jid)
  {
    t.(slots := t.slots[jid - 1 := t.slots[jid - 1].(state := state)])
  }

  // ----- What they keep

  lemma EmptyOk()
    ensures Ok(Empty()) && forall jid :: !Live(Empty(), jid)
  {
  }

  lemma {:induction false} MaxLiveIs(slots: seq<Job>, r: nat)
    requires r <= |slots| && (r > 0 ==> slots[r - 1].state != UNDEF)
    requires forall i :: r <= i < |slots| ==> slots[i].state == UNDEF
    ensures MaxLive(slots) == r
  {
    if slots != [] && r < |slots| {
      MaxLiveIs(slots[..|slots| - 1], r);
    }
  }

  /** The id that is given out is free: the assertion in add_job never fires. */
  lemma NextIsFree(t: Table)
    requires Ok(t)
    ensures 1 <= t.nextjid <= MAXJOBS + 1
    ensures !Live(t, t.nextjid)
    ensures Full(t) <==> Live(t, MAXJOBS)
  {
  }

  /** The job in one slot changes. */
  lemma SlotChange(t: Table, u: Table, jid: nat, job: Job)
    requires 1 <= jid <= |t.slots| && u.slots == t.slots[jid - 1 := job]
    ensures forall j :: Live(u, j) <==> if j == jid then job.state != UNDEF else Live(t, j)
    ensures forall j, p :: HasPid(u, j, p) <==> if j == jid then job.state != UNDEF && job.pid == p else HasPid(t, j, p)
    ensures forall j, s :: HasState(u, j, s) <==>
      if j == jid then job.state != UNDEF && job.state == s else HasState(t, j, s)
    ensures forall j :: Live(u, j) ==> u.slots[j - 1] == if j == jid then job else t.slots[j - 1]
  {
  }

  lemma ChangedOk(t: Table, u: Table, jid: nat, job: Job)
    requires Ok(t) && 1 <= jid <= |t.slots| && u.slots == t.slots[jid - 1 := job]
    requires u.nextjid == MaxLive(u.slots) + 1 && (job.state != UNDEF ==> job.jid == jid)
    requires job.state == FG ==> forall k :: HasState(t, k, FG) ==> k == jid
    ensures Ok(u)
  {
    SlotChange(t, u, jid, job);
    assert forall j :: Live(u, j) && j != jid ==> Live(t, j) && u.slots[j - 1] == t.slots[j - 1];
    forall j, k | HasState(u, j, FG) && HasState(u, k, FG)
      ensures j == k
    {
    }
  }

  lemma AddedStaysOk(t: Table, pid: int, state: JobState, cmdline: Text)
    requires Ok(t) && !Full(t) && state != UNDEF && (state == FG ==> forall k :: !HasState(t, k, FG))
    ensures Ok(Added(t, pid, state, cmdline))
  {
    var u := Added(t, pid, state, cmdline);
    NextIsFree(t);
    MaxLiveIs(u.slots, t.nextjid);
    ChangedOk(t, u, t.nextjid, u.slots[t.nextjid - 1]);
  }

  lemma AddedOk(t: Table, pid: int, state: JobState, cmdline: Text)
    requires Ok(t) && !Full(t) && state != UNDEF && (state == FG ==> forall k :: !HasState(t, k, FG))
    ensures Ok(Added(t, pid, state, cmdline))
    ensures var u := Added(t, pid, state, cmdline);
      && (forall j :: Live(u, j) <==> Live(t, j) || j == t.nextjid)
      && (forall j, p :: HasPid(u, j, p) <==> HasPid(t, j, p) || (j == t.nextjid && p == pid))
      && (forall j, s :: HasState(u, j, s) <==> HasState(t, j, s) || (j == t.nextjid && s == state))
      && HasCmdline(u, t.nextjid, cmdline) && SameOthers(t, u, t.nextjid)
  {
    var u := Added(t, pid, state, cmdline);
    AddedStaysOk(t, pid, state, cmdline);
    NextIsFree(t);
    hide Ok;
    SlotChange(t, u, t.nextjid, u.slots[t.nextjid - 1]);
  }

  lemma DeletedOk(t: Table, jid: nat)
    requires Ok(t) && Live(t, jid)
    ensures Ok(Deleted(t, jid))
    ensures var u := Deleted(t, jid);
      && (forall j :: Live(u, j) <==> Live(t, j) && j != jid)
      && (forall j, p :: HasPid(u, j, p) <==> HasPid(t, j, p) && j != jid)
      && (forall j, s :: HasState(u, j, s) <==> HasState(t, j, s) && j != jid)
      && SameOthers(t, u, jid)
  {
    var u := Deleted(t, jid);
    SlotChange(t, u, jid, u.slots[jid - 1]);
    ChangedOk(t, u, jid, u.slots[jid - 1]);
  }

  lemma WithStateOk(t: Table, jid: nat, state: JobState)
    requires Ok(t) && Live(t, jid) && state != UNDEF
    requires state == FG ==> forall k :: HasState(t, k, FG) ==> k == jid
    ensures Ok(WithState(t, jid, state))
    ensures var u := WithState(t, jid, state);
      && (forall j :: Live(u, j) <==> Live(t, j))
      && (forall j, p :: HasPid(u, j, p) <==> HasPid(t, j, p))
      && (forall j, s :: HasState(u, j, s) <==> if j == jid then s == state else HasState(t, j, s))
      && (forall c :: HasCmdline(u, jid, c) <==> HasCmdline(t, jid, c)) && SameOthers(t, u, jid)
  {
    var u := WithState(t, jid, state);
    MaxLiveIs(u.slots, MaxLive(t.slots));
    SlotChange(t, u, jid, u.slots[jid - 1]);
    ChangedOk(t, u, jid, u.slots[jid - 1]);
  }

  // ----- The same for one job

  lemma AddedSlot(t: Table, pid: int, state: JobState, cmdline: Text, j: nat)
    requires Ok(t) && !Full(t) && state != UNDEF
    ensures var u := Added(t, pid, state, cmdline);
      && (Live(u, j) <==> Live(t, j) || j == t.nextjid) && !Live(t, t.nextjid)
      && (j == t.nextjid ==> HasPid(u, j, pid) && HasState(u, j, state) && HasCmdline(u, j, cmdline))
      && (Live(t, j) ==> u.slots[j - 1] == t.slots[j - 1])
  {
    NextIsFree(t);
  }

  lemma DeletedSlot(t: Table, jid: nat, j: nat)
    requires Live(t, jid)
    ensures var u := Deleted(t, jid);
      && (Live(u, j) <==> Live(t, j) && j != jid)
      && (Live(u, j) ==> u.slots[j - 1] == t.slots[j - 1])
  {
  }

  lemma WithStateSlot(t: Table, jid: nat, state: JobState, j: nat)
    requires Live(t, jid) && state != UNDEF
    ensures var u := WithState(t, jid, state);
      && (Live(u, j) <==> Live(t, j))
      && (Live(t, j) && j != jid ==> u.slots[j - 1] == t.slots[j - 1])
      && (j == jid ==> u.slots[j - 1] == t.slots[j - 1].(state := state))
  {
  }
}
