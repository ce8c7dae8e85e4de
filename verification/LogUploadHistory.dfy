/** What the upload members did, told from the sections alone; and the handlers as sections in a row. */
module LogUploadHistory {
  import opened LogUploadProtocol

  // ---------------------------------------------------------------------------------------------
  // The record of a run
  // ---------------------------------------------------------------------------------------------

  /**
   * The events: one for each reaping section that finds a stored child, about that child, with the
   * reported status for a completion and an abort for everything else.
   */
  ghost function NoticesTold(ran: seq<Section>): seq<Notice>
    decreases |ran|
  {
    if ran == [] then []
    else
      var front, last := ran[..|ran| - 1], ran[|ran| - 1];
      NoticesTold(front) +
      if LastPid(front) == NO_PID then []
      else
        match last
        case Completed(status) => [Notice(LastPid(front), status)]
        case AbortRequest => [Notice(LastPid(front), UploadAborted)]
        case AbortBefore(_) => [Notice(LastPid(front), UploadAborted)]
        case PowerAbort(_) => [Notice(LastPid(front), UploadAborted)]
        case _ => []
  }

  /** The children started. */
  ghost function ForkedTold(ran: seq<Section>): seq<int>
    decreases |ran|
  {
    if ran == [] then []
    else
      var front, last := ran[..|ran| - 1], ran[|ran| - 1];
      ForkedTold(front) + if last.ForkChild? && last.child != NO_PID then [last.child] else []
  }

  /** The children that a later start found stored. */
  ghost function LostTold(ran: seq<Section>): seq<int>
    decreases |ran|
  {
    if ran == [] then []
    else
      var front, last := ran[..|ran| - 1], ran[|ran| - 1];
      LostTold(front) + if last.ForkChild? && LastPid(front) != NO_PID then [LastPid(front)] else []
  }

  ghost predicate Told(u: Uploads, ran: seq<Section>) {
    && u.pid == LastPid(ran)
    && u.notices == NoticesTold(ran)
    && u.reaped == Children(NoticesTold(ran))
    && u.forked == ForkedTold(ran)
    && u.lost == LostTold(ran)
  }

  lemma AdvanceIsTold(s: System, e: Section)
    requires Told(s.uploads, s.ran) && Enabled(s, e)
    ensures Told(Advance(s, e).uploads, s.ran + [e])
  {
    LastPidAppend(s.ran, e);
    assert (s.ran + [e])[..|s.ran|] == s.ran;
    var before, after := s.uploads.notices, NoticesTold(s.ran + [e]);
    if Reaps(e) && s.uploads.pid != NO_PID {
      assert after == before + [after[|before|]];
      assert Children(after) == Children(before) + [after[|before|].child];
    } else {
      assert after == before;
    }
  }

  lemma {:induction false} RunRanAll(s: System, sections: seq<Section>)
    requires Possible(s, sections)
    ensures Run(s, sections).ran == s.ran + sections
    decreases |sections|
  {
    if sections == [] {
      assert s.ran + sections == s.ran;
    } else {
      RunRanAll(Advance(s, sections[0]), sections[1..]);
      assert s.ran + [sections[0]] + sections[1..] == s.ran + sections;
    }
  }

  ghost predicate TellsItself(s: System) {
    Told(s.uploads, s.ran)
  }

  lemma {:induction false} RunTellsItself(s: System, sections: seq<Section>)
    requires TellsItself(s) && Possible(s, sections)
    ensures TellsItself(Run(s, sections))
    decreases |sections|
  {
    if sections != [] {
      AdvanceIsTold(s, sections[0]);
      RunTellsItself(Advance(s, sections[0]), sections[1..]);
    }
  }

  /** Over every interleaving the events with their statuses, and all that became of the children, in order. */
  lemma UploadsAreTold(sections: seq<Section>)
    requires Possible(START, sections)
    ensures Told(Run(START, sections).uploads, sections)
  {
    RunTellsItself(START, sections);
    RunRanAll(START, sections);
    assert [] + sections == sections;
  }

  // ---------------------------------------------------------------------------------------------
  // Handlers that nothing interrupts
  // ---------------------------------------------------------------------------------------------

  /** Thread t runs these sections in a row: they are possible, have this effect, and are all there is. */
  ghost predicate RunsAs(s: System, t: Thread, sections: seq<Section>, after: Uploads) {
    && Possible(s, sections)
    && Run(s, sections).uploads == after
    && Run(s, sections).pcs == s.pcs - {t}
  }

  lemma TwoSections(s: System, e: Section, f: Section)
    requires Enabled(s, e) && Enabled(Advance(s, e), f)
    ensures Possible(s, [e, f]) && Run(s, [e, f]) == Advance(Advance(s, e), f)
  {
    var s1, s2 := Advance(s, e), Advance(Advance(s, e), f);
    assert [e, f][1..] == [f] && [f][1..] == [];
    assert Possible(s2, []) && Run(s2, []) == s2;
    assert Possible(s1, [f]) && Run(s1, [f]) == s2;
  }

  /** UploadLogsAsync aborts what it saw, then stores its child; it passes through no other section. */
  lemma UndisturbedUpload(s: System, t: Thread, child: int)
    requires t !in s.pcs && (child == NO_PID || child > 0)
    ensures var sections := if s.uploads.pid == NO_PID then [Snapshot(t), ForkChild(t, child)]
                            else [Snapshot(t), AbortBefore(t), ForkChild(t, child)];
            RunsAs(s, t, sections, Fork(Abort(s.uploads), child))
  {
    var s1 := Advance(s, Snapshot(t));
    if s.uploads.pid == NO_PID {
      TwoSections(s, Snapshot(t), ForkChild(t, child));
    } else {
      var sections := [Snapshot(t), AbortBefore(t), ForkChild(t, child)];
      TwoSections(s1, AbortBefore(t), ForkChild(t, child));
      assert sections[1..] == [AbortBefore(t), ForkChild(t, child)];
      assert Possible(s, sections);
    }
  }

  /** The handler of DEEP_SLEEP aborts what it saw. */
  lemma UndisturbedDeepSleep(s: System, t: Thread)
    requires t !in s.pcs
    ensures var sections := if s.uploads.pid == NO_PID then [PowerSnapshot(t)] else [PowerSnapshot(t), PowerAbort(t)];
            RunsAs(s, t, sections, Abort(s.uploads))
  {
    if s.uploads.pid == NO_PID {
      var s1 := Advance(s, PowerSnapshot(t));
      assert [PowerSnapshot(t)][1..] == [];
      assert Possible(s1, []) && Run(s1, []) == s1;
      assert Possible(s, [PowerSnapshot(t)]);
    } else {
      TwoSections(s, PowerSnapshot(t), PowerAbort(t));
    }
  }
}
