/**
 * Which territories the validation accepts. The standard list is a string of codes separated by
 * blanks, and a territory is looked up as a substring of it. An empty word stands for a further
 * blank between two codes.
 */
module TerritoryWords {
  import opened Text
  import opened Territory
  import opened TerritoryLaws

  function JoinWords(ws: seq<string>): string {
    if ws == [] then "" else if |ws| == 1 then ws[0] else ws[0] + " " + JoinWords(ws[1..])
  }

  // ---------------------------------------------------------------------------------------------
  // Substrings without a blank
  // ---------------------------------------------------------------------------------------------

  lemma OccursInLeft(a: string, b: string, t: string, k: nat)
    requires OccursAt(a, t, k)
    ensures OccursAt(a + b, t, k)
  {
    assert (a + b)[k..k + |t|] == a[k..k + |t|];
  }

  lemma OccursInRight(a: string, b: string, t: string, k: nat)
    requires OccursAt(b, t, k)
    ensures OccursAt(a + b, t, |a| + k)
  {
    assert (a + b)[|a| + k..|a| + k + |t|] == b[k..k + |t|];
  }

  lemma BlankInside(s: string, t: string, k: nat, pos: nat)
    requires OccursAt(s, t, k) && k <= pos < k + |t| && s[pos] == ' '
    ensures ' ' in t
  {
    assert t[pos - k] == s[pos];
  }

  /** An occurrence without a blank lies on one side of the blank. */
  lemma OccursOnOneSide(a: string, b: string, t: string, k: nat)
    requires OccursAt(a + " " + b, t, k) && t != "" && ' ' !in t
    ensures OccursAt(a, t, k) || (k > |a| && OccursAt(b, t, k - |a| - 1))
  {
    var s := a + " " + b;
    if k + |t| <= |a| {
      assert s[k..k + |t|] == a[k..k + |t|];
    } else if k > |a| {
      assert s[k..k + |t|] == b[k - |a| - 1..k - |a| - 1 + |t|];
    } else {
      BlankInside(s, t, k, |a|);
    }
  }

  lemma ContainsAcrossBlank(a: string, b: string, t: string)
    requires t != "" && ' ' !in t
    ensures Contains(a + " " + b, t) <==> Contains(a, t) || Contains(b, t)
  {
    if Contains(a + " " + b, t) {
      var k :| 0 <= k <= |a + " " + b| && OccursAt(a + " " + b, t, k);
      OccursOnOneSide(a, b, t, k);
    }
    if Contains(a, t) {
      var k :| 0 <= k <= |a| && OccursAt(a, t, k);
      OccursInLeft(a, " ", t, k);
      OccursInLeft(a + " ", b, t, k);
    }
    if Contains(b, t) {
      var k :| 0 <= k <= |b| && OccursAt(b, t, k);
      OccursInRight(a + " ", b, t, k);
    }
  }

  ghost predicate InSomeWord(ws: seq<string>, t: string) {
    exists i :: 0 <= i < |ws| && Contains(ws[i], t)
  }

  lemma InFirstOrLater(ws: seq<string>, t: string)
    requires ws != []
    ensures InSomeWord(ws, t) <==> Contains(ws[0], t) || InSomeWord(ws[1..], t)
  {
    var tail := ws[1..];
    assert forall i :: 0 <= i < |tail| ==> tail[i] == ws[i + 1];
    if InSomeWord(tail, t) {
      var i :| 0 <= i < |tail| && Contains(tail[i], t);
      assert Contains(ws[i + 1], t);
    }
    if InSomeWord(ws, t) && !Contains(ws[0], t) {
      var i :| 0 <= i < |ws| && Contains(ws[i], t);
      assert Contains(tail[i - 1], t);
    }
  }

  /** A text without a blank is found in the list exactly when it is found in one of its words. */
  lemma {:induction false} ContainedInAWord(ws: seq<string>, t: string)
    requires t != "" && ' ' !in t
    ensures Contains(JoinWords(ws), t) <==> InSomeWord(ws, t)
  {
    if ws == [] {
    } else if |ws| == 1 {
      assert InSomeWord(ws, t) <==> Contains(ws[0], t);
    } else {
      ContainsAcrossBlank(ws[0], JoinWords(ws[1..]), t);
      ContainedInAWord(ws[1..], t);
      InFirstOrLater(ws, t);
    }
  }

  // ---------------------------------------------------------------------------------------------
  // Accepted territories
  // ---------------------------------------------------------------------------------------------

  /** No three characters start beyond position 1100; the standard list has 1094 characters. */
  ghost predicate Bounded(list: string) {
    |list| <= 1103
  }

  lemma BoundNeverBinds(list: string, t: string)
    requires Bounded(list)
    ensures Accepted(list, t) <==> |t| == 3 && Contains(list, t)
  {
    if |t| == 3 && Contains(list, t) {
      var k :| 0 <= k <= |list| && OccursAt(list, t, k);
      assert k <= LAST_INDEX;
    }
  }

  /** The words are codes of three characters, or empty, or the one other word of four. */
  ghost predicate CodesAnd(ws: seq<string>, other: string) {
    && |other| == 4
    && forall i :: 0 <= i < |ws| ==> ws[i] == "" || |ws[i]| == 3 || ws[i] == other
  }

  lemma ThreeOfWord(w: string, t: string)
    requires |t| == 3 && (w == "" || 3 <= |w| <= 4)
    ensures Contains(w, t) <==> w == t || (|w| == 4 && (w[..3] == t || w[1..] == t))
  {
    if |w| >= 3 {
      assert OccursAt(w, t, 0) <==> w[..3] == t;
    }
    if |w| == 3 {
      assert w[..3] == w;
    }
    if |w| == 4 {
      assert OccursAt(w, t, 1) <==> w[1..] == t;
    }
  }

  /**
   * Without a blank exactly the codes are accepted, and the two ends of the word of four letters
   * if the list has one.
   */
  lemma AcceptedExactly(ws: seq<string>, other: string, t: string)
    requires Bounded(JoinWords(ws)) && CodesAnd(ws, other) && ' ' !in t
    ensures Accepted(JoinWords(ws), t) <==>
            |t| == 3 && (t in ws || (other in ws && (t == other[..3] || t == other[1..])))
  {
    BoundNeverBinds(JoinWords(ws), t);
    if |t| == 3 {
      ContainedInAWord(ws, t);
      forall i | 0 <= i < |ws|
        ensures Contains(ws[i], t) <==> ws[i] == t || (ws[i] == other && (other[..3] == t || other[1..] == t))
      {
        ThreeOfWord(ws[i], t);
      }
    }
  }

  ghost predicate BlankFree(ws: seq<string>) {
    forall i :: 0 <= i < |ws| ==> ' ' !in ws[i]
  }

  /** Of the accepted territories, exactly those with a blank and those two ends are not codes of the list. */
  lemma AcceptedIsCodeExactly(ws: seq<string>, other: string, t: string)
    requires Bounded(JoinWords(ws)) && CodesAnd(ws, other) && BlankFree(ws)
    requires other[..3] !in ws && other[1..] !in ws
    requires Accepted(JoinWords(ws), t)
    ensures t in ws <==> ' ' !in t && t != other[..3] && t != other[1..]
  {
    if ' ' !in t {
      AcceptedExactly(ws, other, t);
    }
  }

  lemma OccursBetween(ws: seq<string>, i: nat, t: string)
    requires i + 1 < |ws| && |ws[i]| == 3 && |ws[i + 1]| == 3
    requires t == ws[i][2..] + " " + ws[i + 1][..1]
    ensures Contains(JoinWords(ws), t)
  {
    var list, tail := JoinWords(ws), JoinWords(ws[1..]);
    if i == 0 {
      assert ws[1..][0] == ws[1] && tail[..1] == ws[1][..1];
      assert list[2..5] == ws[0][2..] + " " + tail[..1];
      assert OccursAt(list, t, 2);
    } else {
      assert ws[1..][i - 1] == ws[i] && ws[1..][i] == ws[i + 1];
      OccursBetween(ws[1..], i - 1, t);
      var k :| 0 <= k <= |tail| && OccursAt(tail, t, k);
      OccursInRight(ws[0] + " ", tail, t, k);
      assert OccursAt(list, t, |ws[0]| + 1 + k);
    }
  }

  /** Any two neighbouring codes give a territory that is none, and it can be set and read back. */
  lemma NeighboursMakeTerritory(ws: seq<string>, i: nat, s: Store)
    requires Bounded(JoinWords(ws)) && BlankFree(ws) && '\n' !in JoinWords(ws)
    requires i + 1 < |ws| && |ws[i]| == 3 && |ws[i + 1]| == 3
    ensures var t := ws[i][2..] + " " + ws[i + 1][..1];
            && t !in ws
            && AfterGet(JoinWords(ws), AfterSet(JoinWords(ws), s, t, "", true)).territory == t
  {
    var t := ws[i][2..] + " " + ws[i + 1][..1];
    assert t[1] == ' ';
    OccursBetween(ws, i, t);
    BoundNeverBinds(JoinWords(ws), t);
    RoundTrip(JoinWords(ws), s, t, "");
  }

  /** The list begins with ABW and AFG. */
  lemma BlankIsAccepted()
    ensures Accepted("ABW AFG ", "W A")
  {
    assert OccursAt("ABW AFG ", "W A", 2);
  }
}
