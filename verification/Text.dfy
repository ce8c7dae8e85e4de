/** Searching and line splitting, as std::string::find and std::getline do them. */
module Text {

  /** The first position of c, or the length when there is none. */
  function Find(s: string, c: char): (k: nat)
    ensures k <= |s|
    ensures k < |s| ==> s[k] == c
    ensures c !in s[..k]
  {
    if s == "" || s[0] == c then 0
    else
      assert s[..1 + Find(s[1..], c)] == [s[0]] + s[1..][..Find(s[1..], c)];
      1 + Find(s[1..], c)
  }

  lemma FindIsFirst(s: string, c: char, k: nat)
    requires k <= |s| && c !in s[..k] && (k < |s| ==> s[k] == c)
    ensures Find(s, c) == k
  {
  }

  lemma CutAt(s: string, c: char, head: string, rest: string)
    requires c !in head && s == head + [c] + rest
    ensures Find(s, c) == |head| < |s| && s[..|head|] == head && s[|head| + 1..] == rest
  {
    assert s[..|head|] == head && s[|head|] == c;
    FindIsFirst(s, c, |head|);
  }

  lemma SplitsAt(s: string, c: char)
    requires c in s
    ensures var k := Find(s, c); k < |s| && s == s[..k] + [c] + s[k + 1..]
  {
    assert s[..|s|] == s;
  }

  /** Some occurrence of t in s starts at k. */
  predicate OccursAt(s: string, t: string, k: nat) {
    k + |t| <= |s| && s[k..k + |t|] == t
  }

  predicate Contains(s: string, t: string) {
    exists k :: 0 <= k <= |s| && OccursAt(s, t, k)
  }

  /** The lines that repeated getline calls deliver. */
  function SplitLines(text: string): (lines: seq<string>)
    ensures forall i :: 0 <= i < |lines| ==> '\n' !in lines[i]
    ensures text != "" ==> lines != []
    decreases |text|
  {
    if text == "" then []
    else
      var k := Find(text, '\n');
      if k == |text| then [text] else [text[..k]] + SplitLines(text[k + 1..])
  }

  function JoinLines(lines: seq<string>): string {
    if lines == [] then "" else lines[0] + "\n" + JoinLines(lines[1..])
  }

  ghost predicate Whole(lines: seq<string>) {
    forall i :: 0 <= i < |lines| ==> '\n' !in lines[i]
  }

  lemma SplitFirst(line: string, rest: string)
    requires '\n' !in line
    ensures SplitLines(line + "\n" + rest) == [line] + SplitLines(rest)
  {
    var text := line + "\n" + rest;
    assert text[..|line|] == line && text[|line|] == '\n' && text[|line| + 1..] == rest;
    FindIsFirst(text, '\n', |line|);
  }

  lemma Regroup<T>(a: seq<T>, b: seq<T>, c: seq<T>)
    ensures (a + b) + c == a + (b + c)
  {
  }

  lemma {:induction false} SplitAfterJoin(lines: seq<string>, rest: string)
    requires Whole(lines)
    ensures SplitLines(JoinLines(lines) + rest) == lines + SplitLines(rest)
  {
    if lines == [] {
      assert JoinLines(lines) + rest == rest;
    } else {
      var first, tail := lines[0], JoinLines(lines[1..]);
      Regroup(first + "\n", tail, rest);
      SplitFirst(first, tail + rest);
      SplitAfterJoin(lines[1..], rest);
      Regroup([first], lines[1..], SplitLines(rest));
      assert [first] + lines[1..] == lines;
    }
  }

  lemma {:induction false} JoinAppend(lines: seq<string>, last: string)
    ensures JoinLines(lines + [last]) == JoinLines(lines) + last + "\n"
  {
    if lines == [] {
      assert lines + [last] == [last];
      assert [last][1..] == [];
    } else {
      assert (lines + [last])[1..] == lines[1..] + [last];
      JoinAppend(lines[1..], last);
    }
  }

  lemma JoinFirst(line: string, lines: seq<string>)
    ensures JoinLines([line] + lines) == line + "\n" + JoinLines(lines)
  {
    assert ([line] + lines)[1..] == lines;
  }

  /** The text, with a newline at its end. */
  function Ended(text: string): string {
    if text == "" || text[|text| - 1] == '\n' then text else text + "\n"
  }

  lemma EndedBehindLine(first: string, rest: string)
    ensures Ended(first + "\n" + rest) == first + "\n" + Ended(rest)
  {
    var text := first + "\n" + rest;
    if rest == "" {
      assert text == first + "\n";
    } else {
      assert text[|text| - 1] == rest[|rest| - 1];
      Regroup(first + "\n", rest, "\n");
    }
  }

  lemma EndedLine(line: string)
    requires line != "" && '\n' !in line
    ensures JoinLines([line]) == Ended(line)
  {
    JoinFirst(line, []);
    assert [line] + [] == [line] && line + "\n" + "" == line + "\n";
  }

  /** The lines of any text make up the text again, but for a newline at the end if it had none there. */
  lemma {:induction false} JoinAfterSplit(text: string)
    ensures JoinLines(SplitLines(text)) == Ended(text)
    decreases |text|
  {
    if text != "" {
      if '\n' in text {
        var k := Find(text, '\n');
        SplitsAt(text, '\n');
        var first, rest := text[..k], text[k + 1..];
        JoinAfterSplit(rest);
        JoinFirst(first, SplitLines(rest));
        EndedBehindLine(first, rest);
      } else {
        EndedLine(text);
      }
    }
  }
}
