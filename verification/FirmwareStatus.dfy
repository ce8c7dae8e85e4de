/** The firmware status file (plugin/SystemServicesImplementation.cpp). */
module FirmwareStatus {
  import opened Text

  const DOWNLOADING := 2

  // ---------------------------------------------------------------------------------------------
  // The field of a line
  // ---------------------------------------------------------------------------------------------

  /** field is the text after the last bar of line, or all of it when there is none. */
  ghost predicate IsAfterLastBar(line: string, field: string) {
    && '|' !in field
    && |field| <= |line|
    && line[|line| - |field|..] == field
    && (|field| < |line| ==> line[|line| - |field| - 1] == '|')
  }

  lemma AfterLastBarIsUnique(line: string, a: string, b: string)
    requires IsAfterLastBar(line, a) && IsAfterLastBar(line, b)
    ensures a == b
  {
  }

  function AfterLastBar(line: string): string
    decreases |line|
  {
    var pos := Find(line, '|');
    if pos == |line| then line else AfterLastBar(line[pos + 1..])
  }

  lemma BehindBar(head: string, rest: string, field: string)
    requires head != "" && head[|head| - 1] == '|' && IsAfterLastBar(rest, field)
    ensures IsAfterLastBar(head + rest, field)
  {
    var line := head + rest;
    assert line[|line| - |field|..] == rest[|rest| - |field|..];
  }

  lemma WithoutBar(line: string)
    requires '|' !in line
    ensures AfterLastBar(line) == line && IsAfterLastBar(line, line)
  {
  }

  lemma FirstBar(line: string) returns (head: string, rest: string)
    requires '|' in line
    ensures line == head + rest && head != "" && head[|head| - 1] == '|'
    ensures AfterLastBar(line) == AfterLastBar(rest)
  {
    var pos := Find(line, '|');
    assert line[..|line|] == line;
    head, rest := line[..pos + 1], line[pos + 1..];
  }

  lemma {:induction false} AfterLastBarIsOne(line: string)
    ensures IsAfterLastBar(line, AfterLastBar(line))
    decreases |line|
  {
    if '|' in line {
      var head, rest := FirstBar(line);
      AfterLastBarIsOne(rest);
      BehindBar(head, rest, AfterLastBar(rest));
    } else {
      WithoutBar(line);
    }
  }

  lemma AfterLastBarMeaning(line: string, field: string)
    ensures IsAfterLastBar(line, field) <==> field == AfterLastBar(line)
  {
    AfterLastBarIsOne(line);
    if IsAfterLastBar(line, field) {
      AfterLastBarIsUnique(line, field, AfterLastBar(line));
    }
  }

  /** The loop that erases up to and including each bar. */
  method EraseThroughBars(text: string) returns (line: string)
    ensures line == AfterLastBar(text)
  {
    line := text;
    var pos := Find(line, '|');
    while pos < |line|
      invariant pos == Find(line, '|')
      invariant AfterLastBar(line) == AfterLastBar(text)
      decreases |line|
    {
      line := line[pos + 1..];
      pos := Find(line, '|');
    }
  }

  /** Without the leading and trailing spaces. */
  function Trimmed(s: string): string
    decreases |s|
  {
    if s == "" then s
    else if s[0] == ' ' then Trimmed(s[1..])
    else if s[|s| - 1] == ' ' then Trimmed(s[..|s| - 1])
    else s
  }

  /** c_str(): up to the first null character. */
  function CString(s: string): string {
    s[..Find(s, '\0')]
  }

  function Lower(c: char): char {
    if 'A' <= c <= 'Z' then (c as int + 32) as char else c
  }

  /** strncasecmp(s, prefix, strlen(prefix)) == 0 for a lower-case prefix. */
  predicate StartsIgnoringCase(s: string, prefix: string) {
    |prefix| <= |s| && forall i :: 0 <= i < |prefix| ==> Lower(s[i]) == prefix[i]
  }

  predicate Affirmative(value: string) {
    StartsIgnoringCase(value, "1") || StartsIgnoringCase(value, "yes") || StartsIgnoringCase(value, "true")
  }

  // ---------------------------------------------------------------------------------------------
  // The file as a whole
  // ---------------------------------------------------------------------------------------------

  datatype Kind = Reboot | Version | Url

  function FieldOf(line: string): string {
    Trimmed(AfterLastBar(line))
  }

  /** A line is of the first kind whose tag it contains; versions and addresses count from Downloading on. */
  ghost predicate IsOf(line: string, kind: Kind, state: int) {
    match kind
    case Reboot => Contains(line, "Reboot|")
    case Version => !Contains(line, "Reboot|") && Contains(line, "DnldVersn|") && state >= DOWNLOADING
    case Url =>
      && !Contains(line, "Reboot|") && !Contains(line, "DnldVersn|")
      && Contains(line, "DnldURL|") && state >= DOWNLOADING
  }

  /** The line decides about its kind: a field of a single character never does. */
  ghost predicate Decides(line: string, kind: Kind, state: int) {
    && IsOf(line, kind, state)
    && |FieldOf(line)| > 1
    && (kind.Reboot? ==> Affirmative(FieldOf(line)))
  }

  /** The number of lines up to and including the last one that decides; 0 when none does. */
  ghost function UpToDecider(lines: seq<string>, decides: string -> bool): (k: nat)
    ensures k <= |lines|
    decreases |lines|
  {
    if lines == [] then 0
    else if decides(lines[|lines| - 1]) then |lines|
    else UpToDecider(lines[..|lines| - 1], decides)
  }

  lemma {:induction false} UpToDeciderIsLast(lines: seq<string>, decides: string -> bool)
    ensures var k := UpToDecider(lines, decides);
            && (k > 0 ==> decides(lines[k - 1]))
            && forall j :: k <= j < |lines| ==> !decides(lines[j])
    decreases |lines|
  {
    if lines != [] {
      UpToDeciderIsLast(lines[..|lines| - 1], decides);
    }
  }

  /** The field of the last line of this kind that decides, or empty when none does. */
  ghost function LastField(lines: seq<string>, kind: Kind, state: int): string {
    var k := UpToDecider(lines, line => Decides(line, kind, state));
    if k == 0 then "" else CString(FieldOf(lines[k - 1]))
  }

  lemma DeciderAppend(front: seq<string>, line: string, decides: string -> bool)
    ensures UpToDecider(front + [line], decides) == if decides(line) then |front| + 1 else UpToDecider(front, decides)
  {
    assert (front + [line])[..|front|] == front;
  }

  datatype Summary = Summary(version: string, location: string, deferred: bool)

  /** What the file says: the last version, the last address, and whether some line defers the reboot. */
  ghost function SummaryOf(lines: seq<string>, state: int): Summary {
    Summary(LastField(lines, Version, state), LastField(lines, Url, state),
            exists i :: 0 <= i < |lines| && Decides(lines[i], Reboot, state))
  }

  ghost function WithLine(s: Summary, line: string, state: int): Summary {
    Summary(if Decides(line, Version, state) then CString(FieldOf(line)) else s.version,
            if Decides(line, Url, state) then CString(FieldOf(line)) else s.location,
            s.deferred || Decides(line, Reboot, state))
  }

  lemma LastFieldAppend(front: seq<string>, line: string, kind: Kind, state: int)
    ensures LastField(front + [line], kind, state) ==
            if Decides(line, kind, state) then CString(FieldOf(line)) else LastField(front, kind, state)
  {
    DeciderAppend(front, line, l => Decides(l, kind, state));
  }

  lemma SomeAppend(front: seq<string>, line: string, decides: string -> bool)
    ensures (exists i :: 0 <= i < |front| + 1 && decides((front + [line])[i])) <==>
            (exists i :: 0 <= i < |front| && decides(front[i])) || decides(line)
  {
    var all := front + [line];
    assert forall i :: 0 <= i < |front| ==> all[i] == front[i];
    assert all[|front|] == line;
  }

  lemma SummaryAppend(front: seq<string>, line: string, state: int)
    ensures SummaryOf(front + [line], state) == WithLine(SummaryOf(front, state), line, state)
  {
    LastFieldAppend(front, line, Version, state);
    LastFieldAppend(front, line, Url, state);
    SomeAppend(front, line, l => Decides(l, Reboot, state));
  }

  lemma NoBarNoTag(line: string, tag: string)
    requires '|' !in line && '|' in tag
    ensures !Contains(line, tag)
  {
    var i :| 0 <= i < |tag| && tag[i] == '|';
    forall k: nat ensures !OccursAt(line, tag, k) {
      assert k + |tag| <= |line| ==> line[k..k + |tag|][i] == line[k + i];
    }
  }

  lemma {:induction false} TrimmedHasNoNew(s: string, c: char)
    requires c !in s
    ensures c !in Trimmed(s)
    decreases |s|
  {
    if s != "" {
      if s[0] == ' ' {
        TrimmedHasNoNew(s[1..], c);
      } else if s[|s| - 1] == ' ' {
        TrimmedHasNoNew(s[..|s| - 1], c);
      }
    }
  }

  lemma FieldHasNoTag(line: string)
    ensures !Contains(FieldOf(line), "DnldVersn|") && !Contains(FieldOf(line), "DnldURL|")
  {
    AfterLastBarIsOne(line);
    TrimmedHasNoNew(AfterLastBar(line), '|');
    assert "DnldVersn|"[9] == '|' && "DnldURL|"[7] == '|';
    NoBarNoTag(FieldOf(line), "DnldVersn|");
    NoBarNoTag(FieldOf(line), "DnldURL|");
  }

  method StripToField(line: string) returns (field: string)
    ensures field == FieldOf(line)
  {
    field := EraseThroughBars(line);
    field := Trimmed(field);
  }

  /**
   * One line. It is stripped in place by whichever tag it has first, which leaves nothing for the
   * later tags to match.
   */
  method ParseLine(text: string, state: int, before: Summary) returns (after: Summary)
    ensures after == WithLine(before, text, state)
  {
    var Summary(version, location, deferred) := before;
    var line := text;
    FieldHasNoTag(text);
    if Contains(line, "Reboot|") {
      line := StripToField(line);
      if |line| > 1 {
        if Affirmative(line) {
          deferred := true;
        }
      }
    }
    if state >= 2 {
      if Contains(line, "DnldVersn|") {
        line := StripToField(line);
        if |line| > 1 {
          version := CString(line);
        }
      }
      if Contains(line, "DnldURL|") {
        line := StripToField(line);
        if |line| > 1 {
          location := CString(line);
        }
      }
    }
    return Summary(version, location, deferred);
  }

  method ParseStatus(lines: seq<string>, state: int) returns (summary: Summary)
    ensures summary == SummaryOf(lines, state)
  {
    summary := Summary("", "", false);
    for i := 0 to |lines|
      invariant summary == SummaryOf(lines[..i], state)
    {
      summary := ParseLine(lines[i], state, summary);
      SummaryAppend(lines[..i], lines[i], state);
      assert lines[..i + 1] == lines[..i] + [lines[i]];
    }
    assert lines[..|lines|] == lines;
  }

  lemma FieldIsWhole(line: string)
    requires '\0' !in line
    ensures CString(FieldOf(line)) == FieldOf(line)
  {
    AfterLastBarIsOne(line);
    TrimmedHasNoNew(AfterLastBar(line), '\0');
    assert FieldOf(line)[..|FieldOf(line)|] == FieldOf(line);
  }

  /**
   * Below Downloading neither version nor address is reported. From there on one is reported exactly
   * when some line has it, in files without null characters.
   */
  lemma ReportedExactly(lines: seq<string>, kind: Kind, state: int)
    requires !kind.Reboot?
    ensures state < DOWNLOADING ==> LastField(lines, kind, state) == ""
    ensures (forall i :: 0 <= i < |lines| ==> '\0' !in lines[i]) ==>
              (LastField(lines, kind, state) != "" <==> exists i :: 0 <= i < |lines| && Decides(lines[i], kind, state))
  {
    var decides := line => Decides(line, kind, state);
    var k := UpToDecider(lines, decides);
    UpToDeciderIsLast(lines, decides);
    if k > 0 {
      assert Decides(lines[k - 1], kind, state);
      if '\0' !in lines[k - 1] {
        FieldIsWhole(lines[k - 1]);
      }
    } else {
      assert forall j :: 0 <= j < |lines| ==> !decides(lines[j]);
    }
  }

  lemma AffirmativeAlone(value: string)
    requires Affirmative(value)
    ensures |value| > 1 <==> value != "1"
  {
  }

  /** The file defers the reboot exactly when some reboot line says so in a field other than a single "1". */
  lemma SingleOneIsNotEnough(lines: seq<string>, state: int)
    ensures SummaryOf(lines, state).deferred <==>
            exists i :: 0 <= i < |lines| && Contains(lines[i], "Reboot|")
                        && Affirmative(FieldOf(lines[i])) && FieldOf(lines[i]) != "1"
  {
    forall i | 0 <= i < |lines| && Affirmative(FieldOf(lines[i]))
      ensures |FieldOf(lines[i])| > 1 <==> FieldOf(lines[i]) != "1"
    {
      AffirmativeAlone(FieldOf(lines[i]));
    }
  }
}
