/**
 * The log-upload child process (plugin/SystemServicesImplementation.cpp): UploadLogsAsync,
 * AbortLogUpload, OnLogUpload and the power-state handler, interleaved at the granularity of the
 * sections they run under m_uploadLogsMutex.
 */
module LogUploadProtocol {
  const NO_PID := -1

  datatype Status = UploadSuccess | UploadFailure | UploadAborted

  /** A terminal ONLOGUPLOAD event; `child` is the child that was reaped in the same section. */
  datatype Notice = Notice(child: int, status: Status)

  /** The stored pid and, in order, the children forked, reaped, and overwritten while unreaped. */
  datatype Uploads = Uploads(pid: int, forked: seq<int>, reaped: seq<int>, lost: seq<int>, notices: seq<Notice>)

  const NO_UPLOADS := Uploads(NO_PID, [], [], [], [])

  /** The section of OnLogUpload, with the reported state already mapped to a status. */
  function Complete(u: Uploads, status: Status): Uploads {
    if u.pid == NO_PID then u
    else u.(pid := NO_PID, reaped := u.reaped + [u.pid], notices := u.notices + [Notice(u.pid, status)])
  }

  /** The section of AbortLogUpload. */
  function Abort(u: Uploads): Uploads {
    Complete(u, UploadAborted)
  }

  /** The last section of UploadLogsAsync; `child` is -1 when no process could be started. */
  function Fork(u: Uploads, child: int): Uploads {
    u.(pid := child,
       forked := if child == NO_PID then u.forked else u.forked + [child],
       lost := if u.pid == NO_PID then u.lost else u.lost + [u.pid])
  }

  type Thread = nat

  /** Where a thread stands; `since` is the number of sections run when it last knew of no child. */
  datatype Pc = ToAbort | ToFork(since: nat) | ToPowerAbort

  datatype Section =
    | Snapshot(t: Thread)            // UploadLogsAsync reads the pid
    | AbortBefore(t: Thread)         // UploadLogsAsync aborts what it saw
    | ForkChild(t: Thread, child: int)
    | PowerSnapshot(t: Thread)       // the handler of DEEP_SLEEP reads the pid
    | PowerAbort(t: Thread)
    | AbortRequest
    | Completed(status: Status)

  datatype System = System(uploads: Uploads, pcs: map<Thread, Pc>, ran: seq<Section>)

  const START := System(NO_UPLOADS, map[], [])

  predicate At(s: System, t: Thread, pc: Pc) {
    t in s.pcs && s.pcs[t] == pc
  }

  predicate Forking(s: System, t: Thread) {
    t in s.pcs && s.pcs[t].ToFork?
  }

  /** A section runs where its thread stands; logUploadAsync returns -1 or a positive pid. */
  predicate Enabled(s: System, e: Section) {
    match e
    case Snapshot(t) => t !in s.pcs
    case AbortBefore(t) => At(s, t, ToAbort)
    case ForkChild(t, child) => Forking(s, t) && (child == NO_PID || child > 0)
    case PowerSnapshot(t) => t !in s.pcs
    case PowerAbort(t) => At(s, t, ToPowerAbort)
    case AbortRequest => true
    case Completed(_) => true
  }

  function Advance(s: System, e: Section): System
    requires Enabled(s, e)
  {
    var ran := s.ran + [e];
    match e
    case Snapshot(t) =>
      System(s.uploads, s.pcs[t := if s.uploads.pid == NO_PID then ToFork(|ran|) else ToAbort], ran)
    case AbortBefore(t) => System(Abort(s.uploads), s.pcs[t := ToFork(|ran|)], ran)
    case ForkChild(t, child) => System(Fork(s.uploads, child), s.pcs - {t}, ran)
    case PowerSnapshot(t) =>
      System(s.uploads, if s.uploads.pid == NO_PID then s.pcs else s.pcs[t := ToPowerAbort], ran)
    case PowerAbort(t) => System(Abort(s.uploads), s.pcs - {t}, ran)
    case AbortRequest => System(Abort(s.uploads), s.pcs, ran)
    case Completed(status) => System(Complete(s.uploads, status), s.pcs, ran)
  }

  /** The sections can run in this order. */
  ghost predicate Possible(s: System, sections: seq<Section>)
    decreases |sections|
  {
    sections == [] || (Enabled(s, sections[0]) && Possible(Advance(s, sections[0]), sections[1..]))
  }

  ghost function Run(s: System, sections: seq<Section>): System
    requires Possible(s, sections)
    decreases |sections|
  {
    if sections == [] then s else Run(Advance(s, sections[0]), sections[1..])
  }

  // ---------------------------------------------------------------------------------------------
  // Conservation of children
  // ---------------------------------------------------------------------------------------------

  ghost function Stored(u: Uploads): multiset<int> {
    if u.pid == NO_PID then multiset{} else multiset{u.pid}
  }

  ghost function Children(notices: seq<Notice>): (children: seq<int>)
    ensures |children| == |notices|
    ensures forall i :: 0 <= i < |notices| ==> children[i] == notices[i].child
  {
    seq(|notices|, i requires 0 <= i < |notices| => notices[i].child)
  }

  ghost predicate Conserved(u: Uploads) {
    && multiset(u.forked) == multiset(u.reaped) + multiset(u.lost) + Stored(u)
    && Children(u.notices) == u.reaped
    && (u.pid == NO_PID || u.pid > 0)
  }

  lemma CompleteConserves(u: Uploads, status: Status)
    requires Conserved(u)
    ensures Conserved(Complete(u, status))
  {
    if u.pid != NO_PID {
      assert Children(u.notices + [Notice(u.pid, status)]) == u.reaped + [u.pid];
    }
  }

  lemma ForkConserves(u: Uploads, child: int)
    requires Conserved(u) && (child == NO_PID || child > 0)
    ensures Conserved(Fork(u, child))
  {
  }

  lemma AdvanceConserves(s: System, e: Section)
    requires Conserved(s.uploads) && Enabled(s, e)
    ensures Conserved(Advance(s, e).uploads)
  {
    match e
    case ForkChild(_, child) => ForkConserves(s.uploads, child);
    case Completed(status) => CompleteConserves(s.uploads, status);
    case _ => CompleteConserves(s.uploads, UploadAborted);
  }

  /**
   * Every forked child is, exactly once, reaped, stored or lost by being overwritten; and the
   * terminal events are one per reaped child, in the order of reaping.
   */
  lemma {:induction false} ChildrenAreConserved(s: System, sections: seq<Section>)
    requires Conserved(s.uploads) && Possible(s, sections)
    ensures Conserved(Run(s, sections).uploads)
    decreases |sections|
  {
    if sections != [] {
      AdvanceConserves(s, sections[0]);
      ChildrenAreConserved(Advance(s, sections[0]), sections[1..]);
    }
  }

  ghost predicate AllDifferent(children: seq<int>) {
    forall i, j :: 0 <= i < j < |children| ==> children[i] != children[j]
  }

  lemma {:induction false} DifferentAreSingle(children: seq<int>, child: int)
    requires AllDifferent(children)
    ensures multiset(children)[child] <= 1
    decreases |children|
  {
    if children != [] {
      var front, last := children[..|children| - 1], children[|children| - 1];
      assert children == front + [last];
      DifferentAreSingle(front, child);
    }
  }

  lemma {:induction false} LostOnlyGrows(s: System, sections: seq<Section>)
    requires Possible(s, sections)
    ensures s.uploads.lost <= Run(s, sections).uploads.lost
    decreases |sections|
  {
    if sections != [] {
      LostOnlyGrows(Advance(s, sections[0]), sections[1..]);
    }
  }

  /** A lost child is not reaped before or later, as long as no two children have the same pid. */
  lemma LostIsNeverReaped(s: System, sections: seq<Section>, child: int)
    requires Conserved(s.uploads) && child in s.uploads.lost && Possible(s, sections)
    requires AllDifferent(Run(s, sections).uploads.forked)
    ensures child !in Run(s, sections).uploads.reaped
  {
    var u := Run(s, sections).uploads;
    ChildrenAreConserved(s, sections);
    LostOnlyGrows(s, sections);
    DifferentAreSingle(u.forked, child);
    assert child in u.lost;
    assert multiset(u.lost)[child] >= 1;
  }

  // ---------------------------------------------------------------------------------------------
  // No child is lost without overlapping uploads
  // ---------------------------------------------------------------------------------------------

  /** Thread t is inside UploadLogsAsync. */
  ghost predicate Uploading(s: System, t: Thread) {
    t in s.pcs && !s.pcs[t].ToPowerAbort?
  }

  /** No UploadLogsAsync begins while another one is running. */
  ghost predicate Serial(s: System, sections: seq<Section>)
    requires Possible(s, sections)
    decreases |sections|
  {
    sections == [] ||
    (&& (sections[0].Snapshot? ==> forall t :: !Uploading(s, t))
     && Serial(Advance(s, sections[0]), sections[1..]))
  }

  /** At most one upload is under way, and a thread about to fork overwrites nothing. */
  ghost predicate Safe(s: System) {
    && (forall t, t' :: Uploading(s, t) && Uploading(s, t') ==> t == t')
    && (forall t :: Forking(s, t) ==> s.uploads.pid == NO_PID)
  }

  lemma AdvanceStaysSafe(s: System, e: Section)
    requires Safe(s) && Enabled(s, e)
    requires e.Snapshot? ==> forall t :: !Uploading(s, t)
    ensures Safe(Advance(s, e))
  {
    var s' := Advance(s, e);
    forall t, t' | Uploading(s', t) && Uploading(s', t')
      ensures t == t'
    {
      if e.Snapshot? {
        assert (t == e.t || Uploading(s, t)) && (t' == e.t || Uploading(s, t'));
      } else {
        assert Uploading(s, t) && Uploading(s, t');
      }
    }
    forall t | Forking(s', t)
      ensures s'.uploads.pid == NO_PID
    {
      if Forking(s, t) && e.ForkChild? {
        assert Uploading(s, t) && Uploading(s, e.t);
      }
    }
  }

  /** In a serial run no child is lost, and the children not yet reaped are the stored pid, if any. */
  lemma {:induction false} SerialRunsLoseNothing(s: System, sections: seq<Section>)
    requires Safe(s) && Conserved(s.uploads) && s.uploads.lost == []
    requires Possible(s, sections) && Serial(s, sections)
    ensures var u := Run(s, sections).uploads;
            u.lost == [] && multiset(u.forked) - multiset(u.reaped) == Stored(u)
    decreases |sections|
  {
    if sections != [] {
      AdvanceConserves(s, sections[0]);
      AdvanceStaysSafe(s, sections[0]);
      SerialRunsLoseNothing(Advance(s, sections[0]), sections[1..]);
    }
  }

  // ---------------------------------------------------------------------------------------------
  // Why a child is lost
  // ---------------------------------------------------------------------------------------------

  ghost predicate Reaps(e: Section) {
    e.AbortBefore? || e.PowerAbort? || e.AbortRequest? || e.Completed?
  }

  /** The i-th section started a child, and no later one reaped or replaced it. */
  ghost predicate ChildFrom(ran: seq<Section>, i: nat, child: int)
    requires i < |ran|
  {
    && ran[i].ForkChild? && ran[i].child == child && child != NO_PID
    && forall j :: i < j < |ran| ==> !Reaps(ran[j]) && !ran[j].ForkChild?
  }

  /** The pid that the sections run so far leave behind. */
  ghost function LastPid(ran: seq<Section>): int
    decreases |ran|
  {
    if ran == [] then NO_PID
    else
      var last := ran[|ran| - 1];
      if last.ForkChild? then last.child
      else if Reaps(last) then NO_PID
      else LastPid(ran[..|ran| - 1])
  }

  lemma {:induction false} LastPidMeaning(ran: seq<Section>, since: nat, child: int)
    requires since <= |ran| && LastPid(ran[..since]) == NO_PID && child != NO_PID
    ensures LastPid(ran) == child <==> exists i :: since <= i < |ran| && ChildFrom(ran, i, child)
    decreases |ran|
  {
    if |ran| == since {
      assert ran[..since] == ran;
    } else {
      var front, last := ran[..|ran| - 1], ran[|ran| - 1];
      assert front[..since] == ran[..since];
      LastPidMeaning(front, since, child);
      if last.ForkChild? {
        assert last.child == child ==> ChildFrom(ran, |ran| - 1, child);
      } else if !Reaps(last) {
        forall i | since <= i < |front| ensures ChildFrom(front, i, child) <==> ChildFrom(ran, i, child) {
          assert forall j :: i < j < |front| ==> front[j] == ran[j];
        }
      }
    }
  }

  /** When thread t last looked there was no child, and it has forked none since. */
  ghost predicate KnowsSince(s: System, t: Thread)
    requires Forking(s, t)
  {
    var since := s.pcs[t].since;
    && since <= |s.ran|
    && LastPid(s.ran[..since]) == NO_PID
    && forall i :: since <= i < |s.ran| && s.ran[i].ForkChild? ==> s.ran[i].t != t
  }

  /** The stored pid and every thread's knowledge are what the sections run so far say. */
  ghost predicate Recorded(s: System) {
    && s.uploads.pid == LastPid(s.ran)
    && forall t :: Forking(s, t) ==> KnowsSince(s, t)
  }

  lemma LastPidAppend(ran: seq<Section>, e: Section)
    ensures LastPid(ran + [e]) == if e.ForkChild? then e.child else if Reaps(e) then NO_PID else LastPid(ran)
  {
    assert (ran + [e])[..|ran|] == ran;
  }

  lemma LooksNow(s: System, e: Section, t: Thread)
    requires s.uploads.pid == LastPid(s.ran) && Enabled(s, e)
    requires !Forking(s, t) && Forking(Advance(s, e), t)
    ensures KnowsSince(Advance(s, e), t)
  {
    var ran := s.ran + [e];
    LastPidAppend(s.ran, e);
    assert ran[..|ran|] == ran;
  }

  lemma StillKnows(s: System, e: Section, t: Thread)
    requires Forking(s, t) && KnowsSince(s, t) && Enabled(s, e) && Forking(Advance(s, e), t)
    ensures KnowsSince(Advance(s, e), t)
  {
    var since, ran := s.pcs[t].since, s.ran + [e];
    assert ran[..since] == s.ran[..since];
    assert forall i :: 0 <= i < |s.ran| ==> ran[i] == s.ran[i];
  }

  lemma AdvanceIsRecorded(s: System, e: Section)
    requires Recorded(s) && Enabled(s, e)
    ensures Recorded(Advance(s, e))
  {
    LastPidAppend(s.ran, e);
    forall t | Forking(Advance(s, e), t)
      ensures KnowsSince(Advance(s, e), t)
    {
      if Forking(s, t) {
        StillKnows(s, e, t);
      } else {
        LooksNow(s, e, t);
      }
    }
  }

  lemma {:induction false} RunsAreRecorded(s: System, sections: seq<Section>)
    requires Recorded(s) && Possible(s, sections)
    ensures Recorded(Run(s, sections))
    decreases |sections|
  {
    if sections != [] {
      AdvanceIsRecorded(s, sections[0]);
      RunsAreRecorded(Advance(s, sections[0]), sections[1..]);
    }
  }

  /**
   * In every run, a thread's fork loses a child exactly when, since the thread last knew of no
   * child, another upload started one that nothing has reaped.
   */
  lemma LossExplained(sections: seq<Section>, t: Thread, child: int)
    requires Possible(START, sections)
    requires Enabled(Run(START, sections), ForkChild(t, child))
    ensures var s := Run(START, sections);
            var since := s.pcs[t].since;
            Advance(s, ForkChild(t, child)).uploads.lost != s.uploads.lost <==>
            exists i, c :: since <= i < |s.ran| && ChildFrom(s.ran, i, c) && s.ran[i].t != t
  {
    RunsAreRecorded(START, sections);
    var s := Run(START, sections);
    var since := s.pcs[t].since;
    if s.uploads.pid != NO_PID {
      LastPidMeaning(s.ran, since, s.uploads.pid);
    }
    forall i, c | since <= i < |s.ran| && ChildFrom(s.ran, i, c)
      ensures s.uploads.pid == c
    {
      LastPidMeaning(s.ran, since, c);
    }
  }

  /** Two overlapping uploads that both saw no child lose the first one for good. */
  lemma OverlapLosesAChild(first: int, second: int)
    requires first > 0 && second > 0
    ensures var sections := [Snapshot(0), Snapshot(1), ForkChild(0, first), ForkChild(1, second)];
            Possible(START, sections) && Run(START, sections).uploads.lost == [first]
  {
    var s1 := Advance(START, Snapshot(0));
    var s2 := Advance(s1, Snapshot(1));
    var s3 := Advance(s2, ForkChild(0, first));
    var s4 := Advance(s3, ForkChild(1, second));
    assert Possible(s4, []) && Run(s4, []) == s4;
    assert Possible(s3, [ForkChild(1, second)]) && Run(s3, [ForkChild(1, second)]) == s4;
    var two := [ForkChild(0, first), ForkChild(1, second)];
    assert two[1..] == [ForkChild(1, second)];
    assert Possible(s2, two) && Run(s2, two) == s4;
    var three := [Snapshot(1)] + two;
    assert three[1..] == two;
    assert Possible(s1, three) && Run(s1, three) == s4;
    var four := [Snapshot(0)] + three;
    assert four[1..] == three;
    assert four == [Snapshot(0), Snapshot(1), ForkChild(0, first), ForkChild(1, second)];
  }
}
