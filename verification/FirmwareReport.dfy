/** What the status file reports, told from the tags of its lines and the text behind their last bar. */
module FirmwareReport {
  import opened Text
  import opened FirmwareStatus

  // ---------------------------------------------------------------------------------------------
  // The field of a line
  // ---------------------------------------------------------------------------------------------

  /** There is nothing but blanks before i and from j on, and none at the ends of what is between. */
  ghost predicate IsCore(text: string, i: nat, j: nat) {
    && i <= j <= |text|
    && (forall k :: 0 <= k < i ==> text[k] == ' ')
    && (forall k :: j <= k < |text| ==> text[k] == ' ')
    && (i < j ==> text[i] != ' ' && text[j - 1] != ' ')
  }

  /** The text is blanks, then core, then blanks; and core has no blank at either end. */
  ghost predicate IsTrimmed(text: string, core: string) {
    exists i: nat, j: nat :: IsCore(text, i, j) && core == text[i..j]
  }

  lemma SliceBehindFirst(text: string, i: nat, j: nat)
    requires 0 < i <= j <= |text|
    ensures text[1..][i - 1..j - 1] == text[i..j]
  {
  }

  lemma {:induction false} CoreIsTrimmed(text: string, i: nat, j: nat)
    requires IsCore(text, i, j)
    ensures text[i..j] == Trimmed(text)
    decreases |text|
  {
    if text == "" {
    } else if text[0] == ' ' {
      if i > 0 {
        CoreIsTrimmed(text[1..], i - 1, j - 1);
        SliceBehindFirst(text, i, j);
      } else {
        CoreIsTrimmed(text[1..], 0, 0);
      }
    } else if text[|text| - 1] == ' ' {
      var front := text[..|text| - 1];
      CoreIsTrimmed(front, i, j);
      assert front[i..j] == text[i..j];
    } else {
      assert text[0..|text|] == text;
    }
  }

  lemma CoreGrowsLeft(text: string, i: nat, j: nat)
    requires text != "" && text[0] == ' ' && IsCore(text[1..], i, j)
    ensures IsCore(text, i + 1, j + 1)
  {
    assert forall k :: 0 < k < |text| ==> text[k] == text[1..][k - 1];
  }

  lemma CoreGrowsRight(text: string, i: nat, j: nat)
    requires text != "" && text[|text| - 1] == ' ' && IsCore(text[..|text| - 1], i, j)
    ensures IsCore(text, i, j)
  {
    assert forall k :: 0 <= k < |text| - 1 ==> text[k] == text[..|text| - 1][k];
  }

  lemma {:induction false} TrimmedHasCore(text: string)
    ensures IsTrimmed(text, Trimmed(text))
    decreases |text|
  {
    if text == "" {
      assert IsCore(text, 0, 0);
    } else if text[0] == ' ' {
      var rest := text[1..];
      TrimmedHasCore(rest);
      var i: nat, j: nat :| IsCore(rest, i, j) && Trimmed(rest) == rest[i..j];
      SliceBehindFirst(text, i + 1, j + 1);
      CoreGrowsLeft(text, i, j);
    } else if text[|text| - 1] == ' ' {
      var front := text[..|text| - 1];
      TrimmedHasCore(front);
      var i: nat, j: nat :| IsCore(front, i, j) && Trimmed(front) == front[i..j];
      assert text[i..j] == front[i..j];
      CoreGrowsRight(text, i, j);
    } else {
      assert IsCore(text, 0, |text|) && text[0..|text|] == text;
    }
  }

  /** Exactly one text is the trimmed one. */
  lemma TrimmedMeaning(text: string, core: string)
    ensures IsTrimmed(text, core) <==> core == Trimmed(text)
  {
    TrimmedHasCore(text);
    if IsTrimmed(text, core) {
      var i: nat, j: nat :| IsCore(text, i, j) && core == text[i..j];
      CoreIsTrimmed(text, i, j);
    }
  }

  /** The stripped text behind the last bar. */
  ghost predicate IsField(line: string, field: string) {
    exists text :: IsAfterLastBar(line, text) && IsTrimmed(text, field)
  }

  lemma FieldMeaning(line: string, field: string)
    ensures IsField(line, field) <==> field == FieldOf(line)
  {
    AfterLastBarMeaning(line, AfterLastBar(line));
    TrimmedMeaning(AfterLastBar(line), field);
    forall text | IsAfterLastBar(line, text) ensures text == AfterLastBar(line) {
      AfterLastBarMeaning(line, text);
    }
  }

  // ---------------------------------------------------------------------------------------------
  // The report
  // ---------------------------------------------------------------------------------------------

  /** c is s up to its first null character. */
  ghost predicate IsCString(s: string, c: string) {
    '\0' !in c && |c| <= |s| && s[..|c|] == c && (|c| < |s| ==> s[|c|] == '\0')
  }

  /** The line reports a version: it has the version's tag, no reboot tag, and this field of two characters or more. */
  ghost predicate GivesVersion(line: string, field: string) {
    Contains(line, "DnldVersn|") && !Contains(line, "Reboot|") && IsField(line, field) && |field| > 1
  }

  /** The line reports an address: a line with the version's tag never does. */
  ghost predicate GivesAddress(line: string, field: string) {
    && Contains(line, "DnldURL|") && !Contains(line, "DnldVersn|") && !Contains(line, "Reboot|")
    && IsField(line, field) && |field| > 1
  }

  lemma DecidersGive(line: string, state: int, field: string)
    ensures GivesVersion(line, field) && state >= 2 <==> Decides(line, Version, state) && field == FieldOf(line)
    ensures GivesAddress(line, field) && state >= 2 <==> Decides(line, Url, state) && field == FieldOf(line)
  {
    FieldMeaning(line, field);
  }

  lemma LastFieldAt(lines: seq<string>, kind: Kind, state: int, i: nat)
    requires i < |lines| && Decides(lines[i], kind, state)
    requires forall j :: i < j < |lines| ==> !Decides(lines[j], kind, state)
    ensures IsCString(FieldOf(lines[i]), LastField(lines, kind, state))
  {
    var decides := line => Decides(line, kind, state);
    var k := UpToDecider(lines, decides);
    UpToDeciderIsLast(lines, decides);
    assert decides(lines[i]);
    assert k == i + 1;
  }

  lemma LastFieldNowhere(lines: seq<string>, kind: Kind, state: int)
    requires forall j :: 0 <= j < |lines| ==> !Decides(lines[j], kind, state)
    ensures LastField(lines, kind, state) == ""
  {
    UpToDeciderIsLast(lines, line => Decides(line, kind, state));
  }

  /** The version is that of the last line that reports one, from Downloading on. */
  lemma VersionIsLast(lines: seq<string>, state: int, i: nat, field: string)
    requires state >= 2 && i < |lines| && GivesVersion(lines[i], field)
    requires forall j, f :: i < j < |lines| ==> !GivesVersion(lines[j], f)
    ensures IsCString(field, SummaryOf(lines, state).version)
  {
    DecidersGive(lines[i], state, field);
    forall j | i < j < |lines| ensures !Decides(lines[j], Version, state) {
      DecidersGive(lines[j], state, FieldOf(lines[j]));
    }
    LastFieldAt(lines, Version, state, i);
  }

  /** So is the address. */
  lemma AddressIsLast(lines: seq<string>, state: int, i: nat, field: string)
    requires state >= 2 && i < |lines| && GivesAddress(lines[i], field)
    requires forall j, f :: i < j < |lines| ==> !GivesAddress(lines[j], f)
    ensures IsCString(field, SummaryOf(lines, state).location)
  {
    DecidersGive(lines[i], state, field);
    forall j | i < j < |lines| ensures !Decides(lines[j], Url, state) {
      DecidersGive(lines[j], state, FieldOf(lines[j]));
    }
    LastFieldAt(lines, Url, state, i);
  }

  /** Both are empty before Downloading, and without a line that reports one. */
  lemma NothingReported(lines: seq<string>, state: int)
    ensures state < 2 || (forall j, f :: 0 <= j < |lines| ==> !GivesVersion(lines[j], f)) ==>
              SummaryOf(lines, state).version == ""
    ensures state < 2 || (forall j, f :: 0 <= j < |lines| ==> !GivesAddress(lines[j], f)) ==>
              SummaryOf(lines, state).location == ""
  {
    forall j | 0 <= j < |lines|
      ensures Decides(lines[j], Version, state) <==> GivesVersion(lines[j], FieldOf(lines[j])) && state >= 2
      ensures Decides(lines[j], Url, state) <==> GivesAddress(lines[j], FieldOf(lines[j])) && state >= 2
    {
      DecidersGive(lines[j], state, FieldOf(lines[j]));
    }
    if forall j :: 0 <= j < |lines| ==> !Decides(lines[j], Version, state) {
      LastFieldNowhere(lines, Version, state);
    }
    if forall j :: 0 <= j < |lines| ==> !Decides(lines[j], Url, state) {
      LastFieldNowhere(lines, Url, state);
    }
  }

  /** The field begins with 1, yes or true, in upper or lower case. */
  ghost predicate SaysYes(field: string) {
    || (|field| >= 1 && field[0] == '1')
    || (|field| >= 3 && field[0] in "yY" && field[1] in "eE" && field[2] in "sS")
    || (|field| >= 4 && field[0] in "tT" && field[1] in "rR" && field[2] in "uU" && field[3] in "eE")
  }

  lemma LowerMeaning(c: char)
    ensures Lower(c) == '1' <==> c == '1'
    ensures Lower(c) == 'y' <==> c in "yY"
    ensures Lower(c) == 'e' <==> c in "eE"
    ensures Lower(c) == 's' <==> c in "sS"
    ensures Lower(c) == 't' <==> c in "tT"
    ensures Lower(c) == 'r' <==> c in "rR"
    ensures Lower(c) == 'u' <==> c in "uU"
  {
  }

  lemma AffirmativeMeaning(field: string)
    ensures Affirmative(field) <==> SaysYes(field)
  {
    forall i | 0 <= i < |field| {
      LowerMeaning(field[i]);
    }
    assert StartsIgnoringCase(field, "1") <==> |field| >= 1 && Lower(field[0]) == '1';
    assert StartsIgnoringCase(field, "yes") <==>
           |field| >= 3 && Lower(field[0]) == 'y' && Lower(field[1]) == 'e' && Lower(field[2]) == 's';
    assert StartsIgnoringCase(field, "true") <==>
           |field| >= 4 && Lower(field[0]) == 't' && Lower(field[1]) == 'r' && Lower(field[2]) == 'u'
           && Lower(field[3]) == 'e';
  }

  /** The reboot is deferred exactly when some line with the reboot tag says so in two characters or more. */
  lemma DeferredExactly(lines: seq<string>, state: int)
    ensures SummaryOf(lines, state).deferred <==>
            exists i, f :: 0 <= i < |lines| && Contains(lines[i], "Reboot|")
                           && IsField(lines[i], f) && |f| > 1 && SaysYes(f)
  {
    forall i, f | 0 <= i < |lines|
      ensures IsField(lines[i], f) <==> f == FieldOf(lines[i])
    {
      FieldMeaning(lines[i], f);
    }
    forall i | 0 <= i < |lines|
      ensures Affirmative(FieldOf(lines[i])) <==> SaysYes(FieldOf(lines[i]))
      ensures IsField(lines[i], FieldOf(lines[i]))
    {
      AffirmativeMeaning(FieldOf(lines[i]));
      FieldMeaning(lines[i], FieldOf(lines[i]));
    }
  }
}
