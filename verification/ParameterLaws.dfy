/**
 * The laws of the key=value store. Most hold exactly for the names without '=' and newline: no line
 * can assign any other name, so each write of one appends.
 */
module ParameterLaws {
  import opened Wrappers
  import opened Text
  import opened ParameterStore

  predicate Clean(param: string) {
    '=' !in param && '\n' !in param
  }

  /** A line assigns the text behind its first '=' to the name before it. */
  lemma AssignsExactly(line: string, param: string, text: string)
    ensures Key(line) == Some(param) && Value(line) == text <==> '=' !in param && line == param + "=" + text
  {
    if '=' !in param && line == param + "=" + text {
      CutAt(line, '=', param, text);
    }
    if Key(line).Some? {
      SplitsAt(line, '=');
    }
  }

  lemma AssignmentAssigns(param: string, value: bool)
    requires '=' !in param
    ensures Assigns(Assignment(param, value), param)
    ensures Value(Assignment(param, value)) == BoolText(value)
  {
    var line := Assignment(param, value);
    assert line[..|param|] == param && line[|param| + 1..] == BoolText(value);
    FindIsFirst(line, '=', |param|);
  }

  lemma OnlyCleanNamesAssign(line: string, param: string)
    requires '\n' !in line && !Clean(param)
    ensures !Assigns(line, param)
  {
  }

  ghost function Appended(param: string, value: bool): seq<string> {
    SplitLines(Assignment(param, value) + "\n")
  }

  lemma JoinKeepsLines(lines: seq<string>)
    requires Whole(lines)
    ensures SplitLines(JoinLines(lines)) == lines
  {
    SplitAfterJoin(lines, "");
    assert JoinLines(lines) + "" == JoinLines(lines);
  }

  lemma NoLineAssigns(lines: seq<string>, param: string)
    requires Whole(lines) && !Clean(param)
    ensures forall i :: 0 <= i < |lines| ==> !Assigns(lines[i], param)
  {
    forall i | 0 <= i < |lines| ensures !Assigns(lines[i], param) {
      OnlyCleanNamesAssign(lines[i], param);
    }
  }

  lemma CleanLines(file: Option<string>, param: string, value: bool)
    requires Clean(param)
    ensures Lines(AfterWrite(file, param, value)) == NewLines(Lines(file), param, value)
  {
    assert '\n' !in Assignment(param, value);
    JoinKeepsLines(NewLines(Lines(file), param, value));
  }

  lemma UncleanLines(file: Option<string>, param: string, value: bool)
    requires !Clean(param)
    ensures Lines(AfterWrite(file, param, value)) == Lines(file) + Appended(param, value)
  {
    var lines, line := Lines(file), Assignment(param, value);
    NoLineAssigns(lines, param);
    JoinAppend(lines, line);
    Regroup(JoinLines(lines), line, "\n");
    SplitAfterJoin(lines, line + "\n");
  }

  /** The lines of the file after a write. */
  lemma LinesAfterWrite(file: Option<string>, param: string, value: bool)
    ensures Clean(param) ==> Lines(AfterWrite(file, param, value)) == NewLines(Lines(file), param, value)
    ensures !Clean(param) ==>
              && Lines(AfterWrite(file, param, value)) == Lines(file) + Appended(param, value)
              && forall i :: 0 <= i < |Appended(param, value)| ==> !Assigns(Appended(param, value)[i], param)
  {
    if Clean(param) {
      CleanLines(file, param, value);
    } else {
      UncleanLines(file, param, value);
      NoLineAssigns(Appended(param, value), param);
    }
  }

  lemma JoinOne(line: string)
    ensures JoinLines([line]) == line + "\n"
  {
    assert [line][1..] == [];
    assert line + "\n" + "" == line + "\n";
  }

  lemma OneLineReads(param: string, value: bool)
    requires Clean(param)
    ensures Read(Some(Assignment(param, value) + "\n"), param) == Some(value)
  {
    var line := Assignment(param, value);
    AssignmentAssigns(param, value);
    assert '\n' !in line;
    JoinOne(line);
    JoinKeepsLines([line]);
  }

  /** What a write of a clean name puts in an absent file, and how that reads. */
  lemma OneLineFile(param: string, value: bool)
    requires Clean(param)
    ensures var text := param + "=" + (if value then "true" else "false") + "\n";
            AfterWrite(None, param, value) == Some(text) && Read(Some(text), param) == Some(value)
  {
    assert NewLines([], param, value) == [Assignment(param, value)];
    JoinOne(Assignment(param, value));
    OneLineReads(param, value);
  }

  // ---------------------------------------------------------------------------------------------
  // Round trip
  // ---------------------------------------------------------------------------------------------

  lemma {:induction false} FirstValueIsFirst(lines: seq<string>, param: string)
    ensures FirstValue(lines, param).Some? <==> Mentions(lines, param)
    ensures FirstValue(lines, param).Some? ==>
              exists i :: 0 <= i < |lines| && Assigns(lines[i], param)
                          && Value(lines[i]) == FirstValue(lines, param).value
  {
    if lines != [] {
      var tail := lines[1..];
      FirstValueIsFirst(tail, param);
      assert forall i :: 0 <= i < |tail| ==> tail[i] == lines[i + 1];
      assert Mentions(lines, param) <==> Assigns(lines[0], param) || Mentions(tail, param);
    }
  }

  /** The first line for the parameter differs from the value and a later one has it already. */
  ghost predicate Shadowed(lines: seq<string>, param: string, value: bool) {
    && Already(lines, param, value)
    && FirstValue(lines, param) != Some(BoolText(value))
  }

  lemma WrittenIsThere(file: Option<string>, param: string, value: bool)
    requires Clean(param)
    ensures Already(Lines(AfterWrite(file, param, value)), param, value)
  {
    var lines := Lines(file);
    var after := Lines(AfterWrite(file, param, value));
    LinesAfterWrite(file, param, value);
    AssignmentAssigns(param, value);
    if !Already(lines, param, value) {
      if Mentions(lines, param) {
        var i :| 0 <= i < |lines| && Assigns(lines[i], param);
        assert Assigns(after[i], param);
      } else {
        assert Assigns(after[|lines|], param);
      }
    }
  }

  lemma ReadMeans(file: Option<string>, param: string, value: bool)
    ensures Read(file, param) == Some(value) <==> FirstValue(Lines(file), param) == Some(BoolText(value))
  {
  }

  lemma FreshLinesHaveValue(lines: seq<string>, param: string, value: bool, i: nat)
    requires Clean(param) && !Already(lines, param, value)
    requires i < |NewLines(lines, param, value)| && Assigns(NewLines(lines, param, value)[i], param)
    ensures Value(NewLines(lines, param, value)[i]) == BoolText(value)
  {
    AssignmentAssigns(param, value);
  }

  lemma FreshWriteIsFirst(file: Option<string>, param: string, value: bool)
    requires Clean(param) && !Already(Lines(file), param, value)
    ensures FirstValue(Lines(AfterWrite(file, param, value)), param) == Some(BoolText(value))
  {
    var after := Lines(AfterWrite(file, param, value));
    CleanLines(file, param, value);
    WrittenIsThere(file, param, value);
    FirstValueIsFirst(after, param);
    var i :| 0 <= i < |after| && Assigns(after[i], param) && Value(after[i]) == FirstValue(after, param).value;
    FreshLinesHaveValue(Lines(file), param, value, i);
  }

  /** Reading back a write yields the value exactly for clean names that are not shadowed. */
  lemma RoundTripExactly(file: Option<string>, param: string, value: bool)
    ensures Read(AfterWrite(file, param, value), param) == Some(value) <==>
            Clean(param) && !Shadowed(Lines(file), param, value)
  {
    ReadMeans(AfterWrite(file, param, value), param, value);
    if Clean(param) {
      if !Already(Lines(file), param, value) {
        FreshWriteIsFirst(file, param, value);
      }
    } else {
      var after := Lines(AfterWrite(file, param, value));
      FirstValueIsFirst(after, param);
      NoLineAssigns(after, param);
    }
  }

  lemma StalePair(file: Option<string>, stale: string, wanted: string, param: string, value: bool)
    requires Lines(file) == [stale, wanted]
    requires Same(stale, param, !value) && Same(wanted, param, value)
    ensures Shadowed(Lines(file), param, value)
    ensures AfterWrite(file, param, value) == file
    ensures Read(file, param) == Some(!value)
  {
    assert Same(Lines(file)[1], param, value);
  }

  ghost function TwoLines(param: string, value: bool): Option<string> {
    Some(JoinLines([Assignment(param, !value), Assignment(param, value)]))
  }

  lemma LinesOfTwo(param: string, value: bool)
    requires Clean(param)
    ensures Lines(TwoLines(param, value)) == [Assignment(param, !value), Assignment(param, value)]
  {
    var lines := [Assignment(param, !value), Assignment(param, value)];
    assert forall v: bool :: '\n' !in Assignment(param, v);
    JoinKeepsLines(lines);
  }

  /** With two lines for a parameter, a write that finds its value in the second leaves the first to be read. */
  lemma StaleFirstLine(param: string, value: bool)
    requires Clean(param)
    ensures var file := TwoLines(param, value);
            && Shadowed(Lines(file), param, value)
            && AfterWrite(file, param, value) == file
            && Read(file, param) == Some(!value)
  {
    AssignmentAssigns(param, value);
    AssignmentAssigns(param, !value);
    LinesOfTwo(param, value);
    StalePair(TwoLines(param, value), Assignment(param, !value), Assignment(param, value), param, value);
  }

  lemma JoinOneOrTwo(first: string, second: string)
    ensures JoinLines([first]) == first + "\n"
    ensures JoinLines([first, second]) == first + "\n" + second + "\n"
  {
    JoinAppend([], first);
    JoinAppend([first], second);
    assert [] + [first] == [first] && [first] + [second] == [first, second];
    assert JoinLines([]) + first == first;
  }

  /** A write to an absent file under a name with a newline makes such a file. */
  lemma NewlineMakesTwoLines(param: string, value: bool)
    ensures AfterWrite(None, Assignment(param, !value) + "\n" + param, value) == TwoLines(param, value)
  {
    var stale, wanted := Assignment(param, !value), Assignment(param, value);
    var name := stale + "\n" + param;
    assert Assignment(name, value) == stale + "\n" + wanted;
    JoinOneOrTwo(stale, wanted);
    JoinOneOrTwo(Assignment(name, value), "");
    assert NewLines([], name, value) == [Assignment(name, value)];
  }

  // ---------------------------------------------------------------------------------------------
  // Frame and idempotence
  // ---------------------------------------------------------------------------------------------

  function Others(lines: seq<string>, param: string): (r: seq<string>)
    ensures |r| <= |lines|
  {
    if lines == [] then []
    else (if Assigns(lines[0], param) then [] else [lines[0]]) + Others(lines[1..], param)
  }

  lemma {:induction false} OthersAppend(a: seq<string>, b: seq<string>, param: string)
    ensures Others(a + b, param) == Others(a, param) + Others(b, param)
  {
    if a == [] {
      assert a + b == b;
    } else {
      assert (a + b)[1..] == a[1..] + b && (a + b)[0] == a[0];
      OthersAppend(a[1..], b, param);
      Regroup(if Assigns(a[0], param) then [] else [a[0]], Others(a[1..], param), Others(b, param));
    }
  }

  lemma {:induction false} OthersUpdated(lines: seq<string>, param: string, value: bool)
    requires Clean(param)
    ensures Others(Updated(lines, param, value), param) == Others(lines, param)
  {
    if lines != [] {
      assert Updated(lines, param, value)[1..] == Updated(lines[1..], param, value);
      OthersUpdated(lines[1..], param, value);
      AssignmentAssigns(param, value);
    }
  }

  lemma {:induction false} OthersOfNone(lines: seq<string>, param: string)
    requires forall i :: 0 <= i < |lines| ==> !Assigns(lines[i], param)
    ensures Others(lines, param) == lines
  {
    if lines != [] {
      OthersOfNone(lines[1..], param);
    }
  }

  /** All other lines keep their content and order exactly when the name is clean. */
  lemma OtherLinesKept(file: Option<string>, param: string, value: bool)
    ensures Others(Lines(AfterWrite(file, param, value)), param) == Others(Lines(file), param) <==> Clean(param)
  {
    var lines := Lines(file);
    LinesAfterWrite(file, param, value);
    if Clean(param) {
      AssignmentAssigns(param, value);
      OthersUpdated(lines, param, value);
      OthersAppend(lines, [Assignment(param, value)], param);
    } else {
      OthersAppend(lines, Appended(param, value), param);
      OthersOfNone(Appended(param, value), param);
    }
  }

  /**
   * A write of a clean name that is not idle: each line for the name now gives the value, all other lines
   * stay where they are, and if there was no such line one is added at the end.
   */
  lemma LinesKeepTheirPlace(file: Option<string>, param: string, value: bool)
    requires Clean(param) && !Already(Lines(file), param, value)
    ensures var before, after := Lines(file), Lines(AfterWrite(file, param, value));
            var text := param + "=" + if value then "true" else "false";
            && |before| <= |after|
            && (forall i :: 0 <= i < |before| ==>
                  after[i] == if Key(before[i]) == Some(param) then text else before[i])
            && (if exists i :: 0 <= i < |before| && Key(before[i]) == Some(param) then |after| == |before|
                else |after| == |before| + 1 && after[|before|] == text)
  {
    CleanLines(file, param, value);
  }

  /** Repeating a write leaves the file alone, and reports no update, exactly when the name is clean. */
  lemma RepeatedWriteIsIdle(file: Option<string>, param: string, value: bool)
    ensures var once := AfterWrite(file, param, value);
            && (AfterWrite(once, param, value) == once <==> Clean(param))
            && (Already(Lines(once), param, value) <==> Clean(param))
  {
    var once := AfterWrite(file, param, value);
    if Clean(param) {
      WrittenIsThere(file, param, value);
    } else {
      LinesAfterWrite(once, param, value);
      assert |Lines(AfterWrite(once, param, value))| > |Lines(once)|;
      NoLineAssigns(Lines(once), param);
    }
  }

  // ---------------------------------------------------------------------------------------------
  // Files that only writes have made
  // ---------------------------------------------------------------------------------------------

  ghost predicate OneLineEach(lines: seq<string>) {
    forall i, j :: 0 <= i < j < |lines| && Key(lines[i]).Some? ==> Key(lines[i]) != Key(lines[j])
  }

  datatype Setting = Setting(param: string, value: bool)

  ghost function AfterWrites(file: Option<string>, settings: seq<Setting>): Option<string>
    decreases |settings|
  {
    if settings == [] then file
    else
      var front, last := settings[..|settings| - 1], settings[|settings| - 1];
      AfterWrite(AfterWrites(file, front), last.param, last.value)
  }

  ghost predicate AllClean(settings: seq<Setting>) {
    forall i :: 0 <= i < |settings| ==> Clean(settings[i].param)
  }

  lemma SameKeysOneLineEach(a: seq<string>, b: seq<string>)
    requires |a| == |b| && OneLineEach(a)
    requires forall i :: 0 <= i < |a| ==> Key(b[i]) == Key(a[i])
    ensures OneLineEach(b)
  {
    forall i, j | 0 <= i < j < |b| && Key(b[i]).Some? ensures Key(b[i]) != Key(b[j]) {
      assert Key(a[i]) != Key(a[j]);
    }
  }

  lemma OneLineEachAppend(lines: seq<string>, line: string, param: string)
    requires Assigns(line, param)
    ensures OneLineEach(lines + [line]) <==> OneLineEach(lines) && !Mentions(lines, param)
  {
    var after := lines + [line];
    assert forall i :: 0 <= i < |lines| ==> after[i] == lines[i];
    if Mentions(lines, param) {
      var i :| 0 <= i < |lines| && Assigns(lines[i], param);
      assert Key(after[i]) == Key(after[|lines|]);
    }
    if OneLineEach(after) {
      forall i, j | 0 <= i < j < |lines| && Key(lines[i]).Some? ensures Key(lines[i]) != Key(lines[j]) {
        assert Key(after[i]) != Key(after[j]);
      }
    }
  }

  lemma WriteKeepsOneLineEach(file: Option<string>, param: string, value: bool)
    requires Clean(param) && OneLineEach(Lines(file))
    ensures OneLineEach(Lines(AfterWrite(file, param, value)))
  {
    var lines := Lines(file);
    CleanLines(file, param, value);
    AssignmentAssigns(param, value);
    if !Already(lines, param, value) {
      if Mentions(lines, param) {
        SameKeysOneLineEach(lines, Updated(lines, param, value));
      } else {
        OneLineEachAppend(lines, Assignment(param, value), param);
      }
    }
  }

  lemma {:induction false} WritesKeepOneLineEach(settings: seq<Setting>)
    requires AllClean(settings)
    ensures OneLineEach(Lines(AfterWrites(None, settings)))
    decreases |settings|
  {
    if settings != [] {
      var front, last := settings[..|settings| - 1], settings[|settings| - 1];
      WritesKeepOneLineEach(front);
      WriteKeepsOneLineEach(AfterWrites(None, front), last.param, last.value);
    }
  }

  /** The value of the last write to a parameter, if any. */
  ghost function LastWritten(settings: seq<Setting>, param: string): Option<bool>
    decreases |settings|
  {
    if settings == [] then None
    else if settings[|settings| - 1].param == param then Some(settings[|settings| - 1].value)
    else LastWritten(settings[..|settings| - 1], param)
  }

  lemma {:induction false} FirstValueOfOthers(lines: seq<string>, param: string, other: string)
    requires param != other
    ensures FirstValue(Others(lines, param), other) == FirstValue(lines, other)
  {
    if lines != [] {
      FirstValueOfOthers(lines[1..], param, other);
      var rest := Others(lines[1..], param);
      assert ([lines[0]] + rest)[1..] == rest;
      assert [] + rest == rest;
    }
  }

  lemma OneLineIsNeverShadowed(lines: seq<string>, param: string, value: bool)
    requires OneLineEach(lines)
    ensures !Shadowed(lines, param, value)
  {
    FirstValueIsFirst(lines, param);
  }

  /** A file made by writes of clean names is a map: reading a name gives its last written value. */
  lemma {:induction false} ReadsLastWritten(settings: seq<Setting>, param: string)
    requires AllClean(settings)
    ensures Read(AfterWrites(None, settings), param) == LastWritten(settings, param)
    decreases |settings|
  {
    if settings != [] {
      var front, last := settings[..|settings| - 1], settings[|settings| - 1];
      var file := AfterWrites(None, front);
      if last.param == param {
        WritesKeepOneLineEach(front);
        OneLineIsNeverShadowed(Lines(file), param, last.value);
        RoundTripExactly(file, param, last.value);
      } else {
        ReadsLastWritten(front, param);
        OtherLinesKept(file, last.param, last.value);
        FirstValueOfOthers(Lines(file), last.param, param);
        FirstValueOfOthers(Lines(AfterWrite(file, last.param, last.value)), last.param, param);
      }
    }
  }

  /** The line is for the name and gives a boolean. */
  ghost predicate GivesFlag(line: string, param: string) {
    Key(line) == Some(param) && (Value(line) == "true" || Value(line) == "false")
  }

  /** The flag reported as old is the boolean on the last line for the name that gives one. */
  lemma {:induction false} ReplacedFlagIsLast(lines: seq<string>, param: string, flag: bool, i: nat)
    requires i < |lines| && GivesFlag(lines[i], param)
    requires forall j :: i < j < |lines| ==> !GivesFlag(lines[j], param)
    ensures ReplacedFlag(lines, param, flag) <==> Value(lines[i]) == "true"
    decreases |lines|
  {
    if i < |lines| - 1 {
      assert !GivesFlag(lines[|lines| - 1], param);
      ReplacedFlagIsLast(lines[..|lines| - 1], param, flag, i);
    }
  }

  /** It is the caller's own if no line gives one. */
  lemma {:induction false} NoFlagReplaced(lines: seq<string>, param: string, flag: bool)
    requires forall j :: 0 <= j < |lines| ==> !GivesFlag(lines[j], param)
    ensures ReplacedFlag(lines, param, flag) == flag
    decreases |lines|
  {
    if lines != [] {
      assert !GivesFlag(lines[|lines| - 1], param);
      NoFlagReplaced(lines[..|lines| - 1], param, flag);
    }
  }

  lemma {:induction false} OneLineReplaced(lines: seq<string>, param: string, flag: bool, i: nat)
    requires i < |lines| && Assigns(lines[i], param)
    requires forall j :: 0 <= j < |lines| && j != i ==> !Assigns(lines[j], param)
    ensures ReplacedFlag(lines, param, flag) == BoolOf(Value(lines[i])).GetOr(flag)
    decreases |lines|
  {
    var front := lines[..|lines| - 1];
    assert forall j :: 0 <= j < |front| ==> front[j] == lines[j];
    if i == |front| {
      NoFlagReplaced(front, param, flag);
    } else {
      OneLineReplaced(front, param, flag, i);
    }
  }

  lemma OldFlagOfLine(lines: seq<string>, param: string, value: bool, flag: bool, i: nat)
    requires i < |lines| && Assigns(lines[i], param)
    requires forall j :: 0 <= j < |lines| && j != i ==> !Assigns(lines[j], param)
    ensures OldFlag(lines, param, value, flag) == if Value(lines[i]) == BoolText(!value) then !value else flag
  {
    var k := UpToSame(lines, param, value);
    if Same(lines[i], param, value) {
      assert k == i;
      NoFlagReplaced(lines[..i], param, flag);
    } else {
      assert lines[..k] == lines;
      OneLineReplaced(lines, param, flag, i);
    }
  }

  lemma OldFlagOfOneLine(lines: seq<string>, param: string, value: bool, flag: bool)
    requires OneLineEach(lines)
    ensures OldFlag(lines, param, value, flag) ==
            if FirstValue(lines, param) == Some(BoolText(!value)) then !value else flag
  {
    FirstValueIsFirst(lines, param);
    if Mentions(lines, param) {
      var i :| 0 <= i < |lines| && Assigns(lines[i], param) && Value(lines[i]) == FirstValue(lines, param).value;
      OldFlagOfLine(lines, param, value, flag, i);
    } else {
      assert lines[..UpToSame(lines, param, value)] == lines;
      NoFlagReplaced(lines, param, flag);
    }
  }

  /** In such a file a write reports as old flag the last value written when it differs, else the caller's. */
  lemma OldFlagIsLastWritten(settings: seq<Setting>, param: string, value: bool, flag: bool)
    requires AllClean(settings)
    ensures OldFlag(Lines(AfterWrites(None, settings)), param, value, flag) ==
            if LastWritten(settings, param) == Some(!value) then !value else flag
  {
    var file := AfterWrites(None, settings);
    WritesKeepOneLineEach(settings);
    OldFlagOfOneLine(Lines(file), param, value, flag);
    ReadsLastWritten(settings, param);
    ReadMeans(file, param, !value);
  }

  // ---------------------------------------------------------------------------------------------
  // Names with '='
  // ---------------------------------------------------------------------------------------------

  lemma AppendedLine(param: string, rest: string, value: bool)
    requires Clean(param) && '\n' !in rest
    ensures var line := Assignment(param + "=" + rest, value);
            Appended(param + "=" + rest, value) == [line] && Assigns(line, param)
  {
    var line := Assignment(param + "=" + rest, value);
    SplitFirst(line, "");
    assert line + "\n" + "" == line + "\n";
    assert line[..|param|] == param && line[|param|] == '=';
    FindIsFirst(line, '=', |param|);
  }

  /** Writing a name with '=' adds a line for the part before it, which may be there already. */
  lemma NameWithEqualsDuplicates(file: Option<string>, param: string, rest: string, value: bool)
    requires Clean(param) && '\n' !in rest
    ensures OneLineEach(Lines(AfterWrite(file, param + "=" + rest, value))) <==>
            OneLineEach(Lines(file)) && !Mentions(Lines(file), param)
  {
    var lines, name := Lines(file), param + "=" + rest;
    LinesAfterWrite(file, name, value);
    AppendedLine(param, rest, value);
    assert '=' in name;
    OneLineEachAppend(lines, Assignment(name, value), param);
  }
}
