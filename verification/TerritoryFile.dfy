/** What is made of any territory file at all, intact or corrupted, told from the shape of its text. */
module TerritoryFile {
  import opened Wrappers
  import opened Text
  import opened Territory

  // ---------------------------------------------------------------------------------------------
  // The shape of the text
  // ---------------------------------------------------------------------------------------------

  /** The line ends at the first newline, or with the text. */
  ghost predicate IsFirstLine(text: string, line: string) {
    && '\n' !in line
    && |line| <= |text| && text[..|line|] == line
    && (|line| < |text| ==> text[|line|] == '\n')
  }

  lemma FirstLineMeaning(text: string, line: string)
    ensures IsFirstLine(text, line) <==> line == FirstLine(text)
  {
    if IsFirstLine(text, line) {
      FindIsFirst(text, '\n', |line|);
    }
  }

  /** The line behind the first newline; a text without one is read twice over. */
  ghost predicate IsSecondLine(text: string, line: string) {
    if '\n' in text
    then exists first, rest :: text == first + "\n" + rest && '\n' !in first && IsFirstLine(rest, line)
    else line == text
  }

  lemma SecondLineMeaning(text: string, line: string)
    ensures IsSecondLine(text, line) <==> line == SecondLine(text)
  {
    if '\n' in text {
      var k := Find(text, '\n');
      SplitsAt(text, '\n');
      forall first, rest | text == first + "\n" + rest && '\n' !in first
        ensures rest == text[k + 1..]
      {
        CutAt(text, '\n', first, rest);
      }
      FirstLineMeaning(text[k + 1..], line);
    } else {
      assert text[..|text|] == text;
    }
  }

  /** The field behind the first colon, empty when there is none. */
  ghost predicate IsField(line: string, field: string) {
    if ':' in line
    then exists tag :: ':' !in tag && line == tag + ":" + field
    else field == ""
  }

  lemma FieldBehindColon(line: string, tag: string, field: string)
    requires ':' !in tag && line == tag + ":" + field
    ensures field == AfterColon(line)
  {
    CutAt(line, ':', tag, field);
  }

  lemma TagBeforeColon(line: string)
    requires ':' in line
    ensures exists tag :: ':' !in tag && line == tag + ":" + AfterColon(line)
  {
    var k := Find(line, ':');
    SplitsAt(line, ':');
    assert line == line[..k] + ":" + AfterColon(line);
  }

  lemma FieldMeaning(line: string, field: string)
    ensures IsField(line, field) <==> field == AfterColon(line)
  {
    if ':' in line {
      TagBeforeColon(line);
      if IsField(line, field) {
        var tag :| ':' !in tag && line == tag + ":" + field;
        FieldBehindColon(line, tag, field);
      }
    }
  }

  // ---------------------------------------------------------------------------------------------
  // Reading
  // ---------------------------------------------------------------------------------------------

  /** The text has these two lines, with these fields. */
  ghost predicate Parses(text: string, first: string, second: string, territory: string, region: string) {
    && IsFirstLine(text, first) && IsField(first, territory)
    && IsSecondLine(text, second) && IsField(second, region)
  }

  lemma EveryTextParses(text: string)
    ensures exists first, second, territory, region :: Parses(text, first, second, territory, region)
  {
    var first, second := FirstLine(text), SecondLine(text);
    FirstLineMeaning(text, first);
    SecondLineMeaning(text, second);
    FieldMeaning(first, AfterColon(first));
    FieldMeaning(second, AfterColon(second));
    assert Parses(text, first, second, AfterColon(first), AfterColon(second));
  }

  lemma ParsedAsRead(text: string, first: string, second: string, territory: string, region: string)
    requires Parses(text, first, second, territory, region)
    ensures first == FirstLine(text) && second == SecondLine(text)
    ensures territory == AfterColon(first) && region == AfterColon(second)
  {
    FirstLineMeaning(text, first);
    SecondLineMeaning(text, second);
    FieldMeaning(first, territory);
    FieldMeaning(second, region);
  }

  /** The file is good: its territory is accepted, and its second line is empty or holds a region. */
  ghost predicate Good(list: string, second: string, territory: string, region: string) {
    Accepted(list, territory) && (second == "" || RegionShape(region))
  }

  /**
   * For every text a get returns the territory and the region of a good file, and nothing at all of any
   * other one.
   */
  lemma GetExactly(list: string, s: Store, first: string, second: string, territory: string, region: string)
    requires s.file.Some? && Parses(s.file.value, first, second, territory, region)
    ensures var got := AfterGet(list, s);
            && (got.territory, got.region) ==
               (if !Good(list, second, territory, region) then ("", "")
                else if second == "" then (territory, "") else (territory, region))
            && (got.territory != "" <==> Good(list, second, territory, region))
  {
    ParsedAsRead(s.file.value, first, second, territory, region);
  }

  /**
   * For every text, what a set announces as old: of a good file its pair, with the region left in memory
   * if it has none; of a corrupted file nothing; and what is left in memory if the first line is empty.
   */
  lemma SetAnnouncesExactly(list: string, s: Store, first: string, second: string, territory: string, region: string,
                            newTerritory: string, newRegion: string)
    requires s.file.Some? && Parses(s.file.value, first, second, territory, region)
    requires Settable(list, newTerritory, newRegion)
    ensures var (oldTerritory, oldRegion) :=
              if first == "" then (s.territory, s.region)
              else if !Good(list, second, territory, region) then ("", "")
              else (territory, if second == "" then s.region else region);
            AfterSet(list, s, newTerritory, newRegion, true).events ==
            s.events + [Changed(oldTerritory, newTerritory,
                                if newRegion == "" then None else Some((oldRegion, newRegion)))]
  {
    ParsedAsRead(s.file.value, first, second, territory, region);
  }

  /** Without a file a get returns nothing, and a set announces what is left in memory. */
  lemma NoFile(list: string, s: Store, newTerritory: string, newRegion: string)
    requires s.file.None? && Settable(list, newTerritory, newRegion)
    ensures AfterGet(list, s) == s.(territory := "", region := "")
    ensures AfterSet(list, s, newTerritory, newRegion, true).events ==
            s.events + [Changed(s.territory, newTerritory,
                                if newRegion == "" then None else Some((s.region, newRegion)))]
  {
  }

  /** A set that is refused or cannot write leaves file and events alone, and one without a territory everything. */
  lemma RefusedSetKeepsFile(list: string, s: Store, territory: string, region: string, writable: bool)
    requires !Settable(list, territory, region) || !writable
    ensures var after := AfterSet(list, s, territory, region, writable);
            && after.file == s.file && after.events == s.events
            && (territory == "" ==> after == s)
  {
  }

  lemma TwoLinesAreRead(first: string, second: string)
    requires '\n' !in first && '\n' !in second
    ensures var text := first + "\n" + second + "\n";
            IsFirstLine(text, first) && IsSecondLine(text, second)
  {
    var text, rest := first + "\n" + second + "\n", second + "\n";
    assert text == first + "\n" + rest;
    assert text[..|first|] == first && text[|first|] == '\n';
    assert rest[..|second|] == second;
    assert IsFirstLine(rest, second);
  }

  lemma FieldBehindTag(tag: string, field: string)
    requires ':' !in tag
    ensures IsField(tag + ":" + field, field)
  {
    assert (tag + ":" + field)[|tag|] == ':';
  }

  /** A one-line text that is no region spoils the territory before it as well. */
  lemma CorruptedRegionClearsBoth(list: string, s: Store, territory: string, region: string)
    requires Accepted(list, territory) && '\n' !in territory && '\n' !in region && region != "" && !RegionShape(region)
    requires s.file == Some("territory" + ":" + territory + "\n" + ("region" + ":" + region) + "\n")
    ensures AfterGet(list, s).territory == "" && AfterGet(list, s).region == ""
  {
    var first, second := "territory" + ":" + territory, "region" + ":" + region;
    TwoLinesAreRead(first, second);
    FieldBehindTag("territory", territory);
    FieldBehindTag("region", region);
    GetExactly(list, s, first, second, territory, region);
  }

  // ---------------------------------------------------------------------------------------------
  // Regions and the written text
  // ---------------------------------------------------------------------------------------------

  /** A region is a country of two letters, alone or with a part of two or three letters behind a dash. */
  lemma RegionIsCountryAndPart(region: string)
    ensures RegionShape(region) <==>
            exists country, part ::
              && |country| == 2 && AllUpper(country) && AllUpper(part)
              && ((part == "" && region == country) || (2 <= |part| <= 3 && region == country + "-" + part))
  {
    if RegionShape(region) {
      if |region| == 2 {
        assert AllUpper("") && region == region;
      } else {
        assert region == region[..2] + "-" + region[3..];
      }
    }
    forall country, part | |country| == 2 && 2 <= |part| <= 3 && AllUpper(country) && AllUpper(part)
                           && region == country + "-" + part
      ensures RegionShape(region)
    {
      assert region[..2] == country && region[3..] == part;
    }
  }

  /** The file in full, with the two tags as they are written. */
  lemma WrittenText()
    ensures FileText("USA", "US-NY") == "territory:USA\nregion:US-NY\n"
    ensures FileText("USA", "") == "territory:USA\n"
  {
  }
}
