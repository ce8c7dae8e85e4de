/**
 * The key=value file behind write_parameters and read_parameters
 * (plugin/SystemServicesImplementation.cpp). The file is its text, None while it does not exist.
 */
module ParameterStore {
  import opened Wrappers
  import opened Text

  function BoolText(value: bool): string {
    if value then "true" else "false"
  }

  function Assignment(param: string, value: bool): string {
    param + "=" + BoolText(value)
  }

  /** The part before the first '='; a line without one assigns nothing. */
  function Key(line: string): Option<string> {
    var pos := Find(line, '=');
    if pos < |line| then Some(line[..pos]) else None
  }

  function Value(line: string): string
    requires Key(line).Some?
  {
    line[Find(line, '=') + 1..]
  }

  predicate Assigns(line: string, param: string) {
    Key(line) == Some(param)
  }

  function Lines(file: Option<string>): (lines: seq<string>)
    ensures Whole(lines)
  {
    if file.Some? then SplitLines(file.value) else []
  }

  function FirstValue(lines: seq<string>, param: string): Option<string> {
    if lines == [] then None
    else if Assigns(lines[0], param) then Some(Value(lines[0]))
    else FirstValue(lines[1..], param)
  }

  function BoolOf(text: string): Option<bool> {
    if text == "true" then Some(true) else if text == "false" then Some(false) else None
  }

  /** What read_parameters finds: nothing for a missing file, parameter or boolean. */
  function Read(file: Option<string>, param: string): Option<bool> {
    match FirstValue(Lines(file), param)
    case None => None
    case Some(text) => BoolOf(text)
  }

  predicate Same(line: string, param: string, value: bool) {
    Assigns(line, param) && Value(line) == BoolText(value)
  }

  ghost predicate Already(lines: seq<string>, param: string, value: bool) {
    exists i :: 0 <= i < |lines| && Same(lines[i], param, value)
  }

  ghost predicate Mentions(lines: seq<string>, param: string) {
    exists i :: 0 <= i < |lines| && Assigns(lines[i], param)
  }

  function Updated(lines: seq<string>, param: string, value: bool): (r: seq<string>)
    ensures |r| == |lines|
    ensures forall i :: 0 <= i < |lines| ==>
              r[i] == if Assigns(lines[i], param) then Assignment(param, value) else lines[i]
  {
    seq(|lines|, i requires 0 <= i < |lines| => if Assigns(lines[i], param) then Assignment(param, value) else lines[i])
  }

  /** The lines that a write leaves in the file; a line that has the value already stops the rewrite. */
  ghost function NewLines(lines: seq<string>, param: string, value: bool): seq<string> {
    if Already(lines, param, value) then lines
    else if Mentions(lines, param) then Updated(lines, param, value)
    else lines + [Assignment(param, value)]
  }

  ghost function AfterWrite(file: Option<string>, param: string, value: bool): Option<string> {
    if Already(Lines(file), param, value) then file
    else Some(JoinLines(NewLines(Lines(file), param, value)))
  }

  /** The number of lines before the first one that has the value already, or of all lines. */
  ghost function UpToSame(lines: seq<string>, param: string, value: bool): (k: nat)
    ensures k <= |lines|
    ensures k < |lines| ==> Same(lines[k], param, value)
    ensures forall i :: 0 <= i < k ==> !Same(lines[i], param, value)
  {
    if lines == [] || Same(lines[0], param, value) then 0 else 1 + UpToSame(lines[1..], param, value)
  }

  /** The old flag to report: that of the last assignment that is replaced, if it is a boolean. */
  ghost function ReplacedFlag(lines: seq<string>, param: string, flag: bool): bool
    decreases |lines|
  {
    if lines == [] then flag
    else
      var front, last := lines[..|lines| - 1], lines[|lines| - 1];
      if Assigns(last, param) then BoolOf(Value(last)).GetOr(ReplacedFlag(front, param, flag))
      else ReplacedFlag(front, param, flag)
  }

  /** The old flag that a write reports: it replaces no line from the first equal one on. */
  ghost function OldFlag(lines: seq<string>, param: string, value: bool, flag: bool): bool {
    ReplacedFlag(lines[..UpToSame(lines, param, value)], param, flag)
  }

  lemma OneLineMoreMentions(front: seq<string>, line: string, param: string)
    ensures Mentions(front + [line], param) <==> Mentions(front, param) || Assigns(line, param)
  {
    var all := front + [line];
    assert all[|front|] == line && forall i :: 0 <= i < |front| ==> all[i] == front[i];
  }

  lemma OneLineMoreUpdated(front: seq<string>, line: string, param: string, value: bool)
    ensures Updated(front + [line], param, value) ==
            Updated(front, param, value) + [if Assigns(line, param) then Assignment(param, value) else line]
  {
  }

  lemma OneLineMoreReplaced(front: seq<string>, line: string, param: string, flag: bool)
    ensures ReplacedFlag(front + [line], param, flag) ==
            if Assigns(line, param) then BoolOf(Value(line)).GetOr(ReplacedFlag(front, param, flag))
            else ReplacedFlag(front, param, flag)
  {
    assert (front + [line])[..|front|] == front;
  }

  lemma OneLineMoreDiffers(lines: seq<string>, param: string, value: bool, i: nat)
    requires i < |lines| && UpToSame(lines[..i], param, value) == i && !Same(lines[i], param, value)
    ensures UpToSame(lines[..i + 1], param, value) == i + 1
  {
    assert forall j :: 0 <= j < i ==> lines[..i + 1][j] == lines[..i][j];
  }

  lemma FirstSame(lines: seq<string>, param: string, value: bool, i: nat)
    requires i <= |lines| && UpToSame(lines[..i], param, value) == i
    requires i < |lines| ==> Same(lines[i], param, value)
    ensures UpToSame(lines, param, value) == i
    ensures Already(lines, param, value) <==> i < |lines|
  {
    assert forall j :: 0 <= j < i ==> lines[..i][j] == lines[j];
  }

  lemma OneLineMore(lines: seq<string>, param: string, value: bool, flag: bool, i: nat)
    requires i < |lines|
    ensures var line := lines[i];
            && (Mentions(lines[..i + 1], param) <==> Mentions(lines[..i], param) || Assigns(line, param))
            && Updated(lines[..i + 1], param, value) ==
               Updated(lines[..i], param, value) + [if Assigns(line, param) then Assignment(param, value) else line]
            && ReplacedFlag(lines[..i + 1], param, flag) ==
               if Assigns(line, param) then BoolOf(Value(line)).GetOr(ReplacedFlag(lines[..i], param, flag))
               else ReplacedFlag(lines[..i], param, flag)
  {
    assert lines[..i + 1] == lines[..i] + [lines[i]];
    OneLineMoreMentions(lines[..i], lines[i], param);
    OneLineMoreUpdated(lines[..i], lines[i], param, value);
    OneLineMoreReplaced(lines[..i], lines[i], param, flag);
  }

  /** The reading loop of write_parameters, which ends early at a line that has the value already. */
  method ScanLines(input: seq<string>, param: string, value: bool, oldFlag: bool)
    returns (same: bool, found: bool, lines: seq<string>, replaced: bool)
    ensures same <==> Already(input, param, value)
    ensures replaced == OldFlag(input, param, value, oldFlag)
    ensures !same ==> (found <==> Mentions(input, param)) && lines == Updated(input, param, value)
  {
    same, found, lines, replaced := false, false, [], oldFlag;
    for i := 0 to |input|
      invariant UpToSame(input[..i], param, value) == i
      invariant found <==> Mentions(input[..i], param)
      invariant lines == Updated(input[..i], param, value)
      invariant replaced == ReplacedFlag(input[..i], param, oldFlag)
    {
      var line := input[i];
      OneLineMore(input, param, value, oldFlag, i);
      if Assigns(line, param) {
        var fileValue := Value(line);
        if fileValue == BoolText(value) {
          FirstSame(input, param, value, i);
          return true, found, lines, replaced;
        }
        if fileValue == "true" {
          replaced := true;
        } else if fileValue == "false" {
          replaced := false;
        }
        line := Assignment(param, value);
        found := true;
      }
      lines := lines + [line];
      OneLineMoreDiffers(input, param, value, i);
    }
    assert input[..|input|] == input;
    FirstSame(input, param, value, |input|);
  }

  // ---------------------------------------------------------------------------------------------
  // The file object
  // ---------------------------------------------------------------------------------------------

  class ParameterFile {
    var text: Option<string>

    constructor (text: Option<string>)
      ensures this.text == text
    {
      this.text := text;
    }

    /** `update` and `oldFlag` go in and out; `writable` is whether the file can be opened for writing. */
    method WriteParameters(param: string, value: bool, update: bool, oldFlag: bool, writable: bool)
      returns (ok: bool, updated: bool, replaced: bool)
      modifies this
      ensures ok <==> writable || Already(Lines(old(text)), param, value)
      ensures text == if ok then AfterWrite(old(text), param, value) else old(text)
      ensures updated == if Already(Lines(old(text)), param, value) then false
                         else update || Mentions(Lines(old(text)), param)
      ensures replaced == OldFlag(Lines(old(text)), param, value, oldFlag)
    {
      var input := Lines(text);
      var same, found, lines;
      same, found, lines, replaced := ScanLines(input, param, value, oldFlag);
      if same {
        return true, false, replaced;
      }
      updated := update || found;
      if !found {
        assert Updated(input, param, value) == input;
        lines := lines + [Assignment(param, value)];
      }
      if !writable {
        return false, updated, replaced;
      }
      text := Some(JoinLines(lines));
      ok := true;
    }

    /** `value` keeps what it was when the read fails. */
    method ReadParameters(param: string, value: bool) returns (ok: bool, result: bool)
      ensures ok <==> Read(text, param).Some?
      ensures result == if ok then Read(text, param).value else value
    {
      result := value;
      if text.None? {
        return false, result;
      }
      var input := Lines(text);
      var i := 0;
      while i < |input|
        invariant 0 <= i <= |input| && result == value
        invariant FirstValue(input, param) == FirstValue(input[i..], param)
      {
        var line := input[i];
        assert input[i..][1..] == input[i + 1..];
        if Assigns(line, param) {
          if Value(line) == "true" {
            result := true;
          } else if Value(line) == "false" {
            result := false;
          } else {
            return false, result;
          }
          return true, result;
        }
        i := i + 1;
      }
      return false, result;
    }
  }
}
