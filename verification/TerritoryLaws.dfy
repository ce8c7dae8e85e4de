/** Round trip, validity and event chaining of the territory store. */
module TerritoryLaws {
  import opened Wrappers
  import opened Text
  import opened Territory

  lemma FieldAfterColon(tag: string, value: string)
    requires ':' !in tag && value != ""
    ensures AfterColon(tag + ":" + value) == value
  {
    var line := tag + ":" + value;
    assert line[..|tag|] == tag && line[|tag|] == ':' && line[|tag| + 1..] == value;
    FindIsFirst(line, ':', |tag|);
  }

  lemma LabelledLine(tag: string, value: string, rest: string)
    requires ':' !in tag && '\n' !in tag && '\n' !in value && value != ""
    ensures var text := tag + ":" + value + "\n" + rest;
            && FirstLine(text) != "" && AfterColon(FirstLine(text)) == value
            && Find(text, '\n') < |text| && text[Find(text, '\n') + 1..] == rest
  {
    var line := tag + ":" + value;
    var text := line + "\n" + rest;
    assert text[..|line|] == line && text[|line|] == '\n' && text[|line| + 1..] == rest;
    FindIsFirst(text, '\n', |line|);
    FieldAfterColon(tag, value);
  }

  lemma AcceptedIsOneLine(list: string, territory: string)
    requires Accepted(list, territory) && '\n' !in list
    ensures '\n' !in territory
  {
    var k :| 0 <= k <= LAST_INDEX && OccursAt(list, territory, k);
    forall i | 0 <= i < |territory| ensures territory[i] != '\n' {
      assert territory[i] == list[k + i];
    }
  }

  lemma RegionIsOneLine(region: string)
    requires RegionShape(region)
    ensures '\n' !in region
  {
    if |region| != 2 {
      forall i | 0 <= i < |region| ensures region[i] != '\n' {
        assert i < 2 ==> region[i] == region[..2][i];
        assert i > 2 ==> region[i] == region[3..][i - 3];
      }
    }
  }

  lemma RegionLine(region: string)
    requires region != "" && '\n' !in region
    ensures var text := REGION_TAG + ":" + region + "\n";
            FirstLine(text) != "" && AfterColon(FirstLine(text)) == region
  {
    LabelledLine(REGION_TAG, region, "");
    var text := REGION_TAG + ":" + region + "\n";
    assert text + "" == text;
  }

  lemma FileParses(territory: string, region: string)
    requires territory != "" && '\n' !in territory && '\n' !in region
    ensures var text := FileText(territory, region);
            && FirstLine(text) != ""
            && AfterColon(FirstLine(text)) == territory
            && (SecondLine(text) == "" <==> region == "")
            && (region != "" ==> AfterColon(SecondLine(text)) == region)
  {
    var rest := if region == "" then "" else REGION_TAG + ":" + region + "\n";
    LabelledLine(TERRITORY_TAG, territory, rest);
    if region != "" {
      RegionLine(region);
    }
  }

  /** Reading a file that SetTerritory wrote finds what was set, and no region where none was. */
  lemma ReadsWhatWasWritten(list: string, s: Store, territory: string, region: string)
    requires '\n' !in list && Settable(list, territory, region)
    requires s.file == Some(FileText(territory, region))
    ensures AfterRead(list, s) == s.(territory := territory, region := if region == "" then s.region else region)
  {
    AcceptedIsOneLine(list, territory);
    if region != "" {
      RegionIsOneLine(region);
    }
    FileParses(territory, region);
  }

  /** Whatever the file held before, a successful set is what the next get returns. */
  lemma RoundTrip(list: string, s: Store, territory: string, region: string)
    requires '\n' !in list && Settable(list, territory, region)
    ensures var got := AfterGet(list, AfterSet(list, s, territory, region, true));
            got.territory == territory && got.region == region
  {
    var written := AfterSet(list, s, territory, region, true);
    ReadsWhatWasWritten(list, written.(territory := "", region := ""), territory, region);
  }

  /** A remark on AfterRead: its guards let a get return nothing but a pair that could be set, or no pair. */
  lemma GetIsValid(list: string, s: Store)
    ensures var got := AfterGet(list, s);
            (got.territory == "" && got.region == "") || Settable(list, got.territory, got.region)
  {
  }

  // ---------------------------------------------------------------------------------------------
  // Runs
  // ---------------------------------------------------------------------------------------------

  datatype Op = Get | Set(territory: string, region: string, writable: bool)

  ghost function Apply(list: string, s: Store, op: Op): Store {
    match op
    case Get => AfterGet(list, s)
    case Set(territory, region, writable) => AfterSet(list, s, territory, region, writable)
  }

  ghost function Run(list: string, s: Store, ops: seq<Op>): Store
    decreases |ops|
  {
    if ops == [] then s else Apply(list, Run(list, s, ops[..|ops| - 1]), ops[|ops| - 1])
  }

  ghost predicate Effective(list: string, op: Op) {
    op.Set? && op.writable && Settable(list, op.territory, op.region)
  }

  /** The last pair that was set. */
  ghost function InForce(list: string, ops: seq<Op>): (string, string)
    decreases |ops|
  {
    if ops == [] then ("", "")
    else
      var op := ops[|ops| - 1];
      if Effective(list, op) then (op.territory, op.region) else InForce(list, ops[..|ops| - 1])
  }

  /** The region that a set finds: a get without a region in force clears it, a set of one replaces it. */
  ghost function Lingering(list: string, ops: seq<Op>): string
    decreases |ops|
  {
    if ops == [] then ""
    else
      var front, op := ops[..|ops| - 1], ops[|ops| - 1];
      if op.Get? && InForce(list, front).1 == "" then ""
      else if Effective(list, op) && op.region != "" then op.region
      else Lingering(list, front)
  }

  /** The events of a run from an absent file, told from the operations alone. */
  ghost function Expected(list: string, ops: seq<Op>): seq<Event>
    decreases |ops|
  {
    if ops == [] then []
    else
      var front, op := ops[..|ops| - 1], ops[|ops| - 1];
      if !Effective(list, op) then Expected(list, front)
      else
        var regions := if op.region == "" then None else Some((Lingering(list, front), op.region));
        Expected(list, front) + [Changed(InForce(list, front).0, op.territory, regions)]
  }

  lemma LastOperation(list: string, front: seq<Op>, op: Op)
    ensures (front + [op])[..|front|] == front
  {
  }

  /** The store holds what the operations so far say. */
  ghost predicate Tells(list: string, s: Store, ops: seq<Op>) {
    var (territory, region) := InForce(list, ops);
    && s.events == Expected(list, ops)
    && Lingering(list, ops) == (if region == "" then s.region else region)
    && if territory == "" then s.file == None && s.territory == "" && s.region == "" && region == ""
       else Settable(list, territory, region) && s.file == Some(FileText(territory, region))
  }

  lemma ReadTells(list: string, s: Store, ops: seq<Op>)
    requires '\n' !in list && Tells(list, s, ops)
    ensures AfterRead(list, s) == s.(territory := InForce(list, ops).0, region := Lingering(list, ops))
    ensures AfterGet(list, s) == s.(territory := InForce(list, ops).0, region := InForce(list, ops).1)
  {
    var (territory, region) := InForce(list, ops);
    if territory != "" {
      ReadsWhatWasWritten(list, s, territory, region);
      ReadsWhatWasWritten(list, s.(territory := "", region := ""), territory, region);
    }
  }

  lemma ApplyTells(list: string, s: Store, front: seq<Op>, op: Op)
    requires '\n' !in list && Tells(list, s, front)
    ensures Tells(list, Apply(list, s, op), front + [op])
  {
    LastOperation(list, front, op);
    ReadTells(list, s, front);
  }

  lemma NothingTold(list: string)
    ensures Tells(list, EMPTY_STORE, [])
  {
  }

  lemma RunLast(list: string, s: Store, front: seq<Op>, op: Op)
    ensures Run(list, s, front + [op]) == Apply(list, Run(list, s, front), op)
  {
    LastOperation(list, front, op);
  }

  lemma {:induction false} RunTells(list: string, ops: seq<Op>)
    requires '\n' !in list
    ensures Tells(list, Run(list, EMPTY_STORE, ops), ops)
    decreases |ops|
  {
    if ops == [] {
      NothingTold(list);
    } else {
      var front, op := ops[..|ops| - 1], ops[|ops| - 1];
      assert ops == front + [op];
      RunTells(list, front);
      ApplyTells(list, Run(list, EMPTY_STORE, front), front, op);
      RunLast(list, EMPTY_STORE, front, op);
    }
  }

  /**
   * In every run from an absent file the events are those that the operations tell: one for each
   * effective set, with the territory in force as the old one and the lingering region as the old region.
   */
  lemma EventsAreExact(list: string, ops: seq<Op>)
    requires '\n' !in list
    ensures Run(list, EMPTY_STORE, ops).events == Expected(list, ops)
  {
    RunTells(list, ops);
  }

  ghost predicate Chained(events: seq<Event>) {
    && (events != [] ==> events[0].oldTerritory == "")
    && forall i :: 0 < i < |events| ==> events[i].oldTerritory == events[i - 1].newTerritory
  }

  function NewRegion(e: Event): string {
    if e.regions.Some? then e.regions.value.1 else ""
  }

  function LastPair(events: seq<Event>): (string, string) {
    if events == [] then ("", "") else (events[|events| - 1].newTerritory, NewRegion(events[|events| - 1]))
  }

  lemma {:induction false} ExpectedChain(list: string, ops: seq<Op>)
    ensures Chained(Expected(list, ops)) && LastPair(Expected(list, ops)) == InForce(list, ops)
    decreases |ops|
  {
    if ops != [] {
      ExpectedChain(list, ops[..|ops| - 1]);
    }
  }

  /**
   * In every run from an absent file each event's old territory is the previous event's new one, and
   * a get returns what the last event announced.
   */
  lemma TerritoriesChain(list: string, ops: seq<Op>)
    requires '\n' !in list
    ensures var s := Run(list, EMPTY_STORE, ops);
            && Chained(s.events)
            && (AfterGet(list, s).territory, AfterGet(list, s).region) == LastPair(s.events)
  {
    RunTells(list, ops);
    ReadTells(list, Run(list, EMPTY_STORE, ops), ops);
    ExpectedChain(list, ops);
  }

  // ---------------------------------------------------------------------------------------------
  // The old region
  // ---------------------------------------------------------------------------------------------

  ghost predicate SetsRegion(list: string, op: Op) {
    Effective(list, op) && op.region != ""
  }

  ghost predicate Drops(list: string, op: Op) {
    Effective(list, op) && op.region == ""
  }

  /** The i-th operation is the last one to set a region. */
  ghost predicate LastRegionAt(list: string, ops: seq<Op>, i: nat)
    requires i < |ops|
  {
    SetsRegion(list, ops[i]) && forall j :: i < j < |ops| ==> !SetsRegion(list, ops[j])
  }

  ghost predicate DroppedSince(list: string, ops: seq<Op>, i: nat) {
    exists d :: i < d < |ops| && Drops(list, ops[d])
  }

  ghost predicate GetAfterDrop(list: string, ops: seq<Op>, i: nat) {
    exists g :: i < g < |ops| && ops[g].Get? && DroppedSince(list, ops[..g], i)
  }

  lemma OneOperationMore(list: string, front: seq<Op>, op: Op, i: nat)
    requires i < |front|
    ensures LastRegionAt(list, front + [op], i) <==> LastRegionAt(list, front, i) && !SetsRegion(list, op)
    ensures DroppedSince(list, front + [op], i) <==> DroppedSince(list, front, i) || Drops(list, op)
    ensures GetAfterDrop(list, front + [op], i) <==>
            GetAfterDrop(list, front, i) || (op.Get? && DroppedSince(list, front, i))
  {
    var ops := front + [op];
    assert ops[|front|] == op && ops[..|front|] == front;
    assert forall j :: 0 <= j < |front| ==> ops[j] == front[j] && ops[..j] == front[..j];
  }

  /** The region in force and the lingering one, told from the last operation that set a region. */
  ghost predicate Told(list: string, ops: seq<Op>, i: nat)
    requires i < |ops| && ops[i].Set?
  {
    && InForce(list, ops).1 == (if DroppedSince(list, ops, i) then "" else ops[i].region)
    && Lingering(list, ops) == (if GetAfterDrop(list, ops, i) then "" else ops[i].region)
  }

  lemma ToldFirst(list: string, front: seq<Op>, op: Op)
    requires SetsRegion(list, op)
    ensures Told(list, front + [op], |front|)
  {
    LastOperation(list, front, op);
  }

  lemma StillTold(list: string, front: seq<Op>, op: Op, i: nat)
    requires i < |front| && LastRegionAt(list, front, i) && Told(list, front, i) && !SetsRegion(list, op)
    ensures Told(list, front + [op], i)
  {
    LastOperation(list, front, op);
    OneOperationMore(list, front, op, i);
    var ops := front + [op];
    assert ops[i] == front[i];
    assert Lingering(list, ops) ==
           if op.Get? && InForce(list, front).1 == "" then "" else Lingering(list, front);
  }

  lemma {:induction false} RegionIsTold(list: string, ops: seq<Op>, i: nat)
    requires i < |ops| && LastRegionAt(list, ops, i)
    ensures Told(list, ops, i)
    decreases |ops|
  {
    var front, op := ops[..|ops| - 1], ops[|ops| - 1];
    assert ops == front + [op];
    if i == |front| {
      ToldFirst(list, front, op);
    } else {
      OneOperationMore(list, front, op, i);
      RegionIsTold(list, front, i);
      StillTold(list, front, op, i);
    }
  }

  lemma {:induction false} SomeRegionWasSet(list: string, ops: seq<Op>)
    requires InForce(list, ops).1 != "" || Lingering(list, ops) != ""
    ensures exists i :: 0 <= i < |ops| && LastRegionAt(list, ops, i)
    decreases |ops|
  {
    var front, op := ops[..|ops| - 1], ops[|ops| - 1];
    if SetsRegion(list, op) {
      assert LastRegionAt(list, ops, |front|);
    } else {
      SomeRegionWasSet(list, front);
      var i :| 0 <= i < |front| && LastRegionAt(list, front, i);
      OneOperationMore(list, front, op, i);
      assert ops == front + [op];
    }
  }

  /**
   * In every run from an absent file, a set with a region announces the region in force as the old
   * one, except exactly when the last region set was dropped and no get came after that.
   */
  lemma OldRegionExactly(list: string, ops: seq<Op>, territory: string, region: string)
    requires '\n' !in list && Settable(list, territory, region) && region != ""
    ensures var s := Run(list, EMPTY_STORE, ops);
            var events := AfterSet(list, s, territory, region, true).events;
            && |events| == |s.events| + 1
            && var e := events[|s.events|];
               && e.newTerritory == territory && e.regions.Some? && e.regions.value.1 == region
               && (e.regions.value.0 != InForce(list, ops).1 <==>
                   exists i :: 0 <= i < |ops| && LastRegionAt(list, ops, i)
                               && DroppedSince(list, ops, i) && !GetAfterDrop(list, ops, i))
  {
    var s := Run(list, EMPTY_STORE, ops);
    RunTells(list, ops);
    ReadTells(list, s, ops);
    if InForce(list, ops).1 != Lingering(list, ops) {
      SomeRegionWasSet(list, ops);
    }
    forall i | 0 <= i < |ops| && LastRegionAt(list, ops, i) {
      RegionIsTold(list, ops, i);
    }
  }

  /** Dropping the region and setting another territory announces the dropped region as the old one. */
  lemma DroppedRegionReappears(list: string, s: Store, t1: string, r1: string, t2: string, t3: string, r3: string)
    requires '\n' !in list
    requires Settable(list, t1, r1) && r1 != "" && Settable(list, t2, "") && Settable(list, t3, r3) && r3 != ""
    ensures var s1 := AfterSet(list, s, t1, r1, true);
            var s2 := AfterSet(list, s1, t2, "", true);
            var s3 := AfterSet(list, s2, t3, r3, true);
            && s3.events == s2.events + [Changed(t2, t3, Some((r1, r3)))]
            && AfterSet(list, AfterGet(list, s2), t3, r3, true).events == s2.events + [Changed(t2, t3, Some(("", r3)))]
  {
    var s1 := AfterSet(list, s, t1, r1, true);
    ReadsWhatWasWritten(list, s1, t1, r1);
    var s2 := AfterSet(list, s1, t2, "", true);
    ReadsWhatWasWritten(list, s2, t2, "");
    ReadsWhatWasWritten(list, s2.(territory := "", region := ""), t2, "");
  }
}
