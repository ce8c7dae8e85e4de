/**
 * Territory and region (plugin/SystemServicesImplementation.cpp): validation, the two-line file,
 * SetTerritory, GetTerritory and the territory events. The file is its text, None while it does
 * not exist; the list of standard territories is a parameter.
 */
module Territory {
  import opened Wrappers
  import opened Text

  const SIZE_T_RANGE := 0x1_0000_0000_0000_0000
  const NPOS := SIZE_T_RANGE - 1
  const LAST_INDEX := 1100

  // ---------------------------------------------------------------------------------------------
  // Validation
  // ---------------------------------------------------------------------------------------------

  predicate IsUpper(c: char) {
    'A' <= c <= 'Z'
  }

  ghost predicate AllUpper(s: string) {
    forall i :: 0 <= i < |s| ==> IsUpper(s[i])
  }

  /** Two letters, or two letters, a dash and two or three letters; all upper case. */
  ghost predicate RegionShape(region: string) {
    || (|region| == 2 && AllUpper(region))
    || (5 <= |region| <= 6 && AllUpper(region[..2]) && region[2] == '-' && AllUpper(region[3..]))
  }

  /** std::string's operator[]: one past the end is a null character. */
  function CharAt(s: string, i: nat): char
    requires i <= |s|
  {
    if i < |s| then s[i] else '\0'
  }

  /** The bound of the loop is unsigned, so for an empty string it wraps around. */
  method IsStrAlphaUpper(s: string) returns (ok: bool)
    requires |s| < SIZE_T_RANGE
    ensures ok <==> s != "" && AllUpper(s)
  {
    var bound := (|s| - 1) % SIZE_T_RANGE;
    var i := 0;
    while i <= bound
      invariant 0 <= i <= |s|
      invariant forall j :: 0 <= j < i ==> IsUpper(s[j])
      decreases |s| - i
    {
      if !IsUpper(CharAt(s, i)) {
        return false;
      }
      i := i + 1;
    }
    return true;
  }

  lemma DashDecides(region: string)
    ensures RegionShape(region) ==> Find(region, '-') == 2
  {
    if RegionShape(region) {
      assert '-' !in region[..2];
      FindIsFirst(region, '-', 2);
    }
  }

  method IsRegionValid(region: string) returns (ok: bool)
    ensures ok <==> RegionShape(region)
  {
    ok := false;
    if |region| < 7 {
      var dash := if Find(region, '-') < |region| then Find(region, '-') else NPOS;
      var country := region[..if dash < |region| then dash else |region|];
      if |country| == 2 {
        var upper := IsStrAlphaUpper(country);
        if upper {
          var rest := region[(dash + 1) % SIZE_T_RANGE..];
          if |rest| >= 2 {
            ok := IsStrAlphaUpper(rest);
          }
        }
      }
      DashDecides(region);
    }
  }

  /** A three-character substring of the list; nothing checks that it is one of the list's words. */
  predicate Accepted(list: string, territory: string) {
    |territory| == 3 && exists k :: 0 <= k <= LAST_INDEX && OccursAt(list, territory, k)
  }

  // ---------------------------------------------------------------------------------------------
  // The file
  // ---------------------------------------------------------------------------------------------

  function FirstLine(text: string): string {
    text[..Find(text, '\n')]
  }

  /** What the string holds after a second getline, which changes nothing once the end was reached. */
  function SecondLine(text: string): string {
    var k := Find(text, '\n');
    if k == |text| then FirstLine(text) else FirstLine(text[k + 1..])
  }

  function AfterColon(line: string): string {
    var k := Find(line, ':');
    if k + 1 < |line| then line[k + 1..] else ""
  }

  const TERRITORY_TAG := "territory"
  const REGION_TAG := "region"

  function FileText(territory: string, region: string): string {
    TERRITORY_TAG + ":" + territory + "\n" + (if region == "" then "" else REGION_TAG + ":" + region + "\n")
  }

  datatype Event = Changed(oldTerritory: string, newTerritory: string, regions: Option<(string, string)>)

  datatype Store = Store(file: Option<string>, territory: string, region: string, events: seq<Event>)

  const EMPTY_STORE := Store(None, "", "", [])

  /** readTerritoryFromFile; a missing second line leaves the region in memory as it was. */
  ghost function AfterRead(list: string, s: Store): Store {
    if s.file.None? || FirstLine(s.file.value) == "" then s
    else
      var territory := AfterColon(FirstLine(s.file.value));
      var second := SecondLine(s.file.value);
      if !Accepted(list, territory) then s.(territory := "", region := "")
      else if second == "" then s.(territory := territory)
      else if RegionShape(AfterColon(second)) then s.(territory := territory, region := AfterColon(second))
      else s.(territory := "", region := "")
  }

  ghost function AfterGet(list: string, s: Store): Store {
    AfterRead(list, s.(territory := "", region := ""))
  }

  ghost predicate Settable(list: string, territory: string, region: string) {
    Accepted(list, territory) && (region == "" || RegionShape(region))
  }

  ghost function AfterSet(list: string, s: Store, territory: string, region: string, writable: bool): Store {
    if territory == "" then s
    else
      var known := AfterRead(list, s);
      if !Settable(list, territory, region) || !writable then known
      else known.(file := Some(FileText(territory, region)),
                  events := s.events + [Changed(known.territory, territory,
                                                if region == "" then None else Some((known.region, region)))])
  }

  datatype Reply = NoError(success: bool, message: string) | General(message: string)

  class TerritoryService {
    const standardList: string
    var file: Option<string>
    var territory: string
    var region: string
    ghost var events: seq<Event>

    ghost function State(): Store
      reads this
    {
      Store(file, territory, region, events)
    }

    constructor (standardList: string, file: Option<string>)
      ensures this.standardList == standardList && State() == Store(file, "", "", [])
    {
      this.standardList, this.file := standardList, file;
      territory, region, events := "", "", [];
    }

    method ReadTerritoryFromFile()
      modifies this
      ensures State() == AfterRead(standardList, old(State()))
    {
      if file.Some? {
        var str := FirstLine(file.value);
        if |str| > 0 {
          territory := AfterColon(str);
          if Accepted(standardList, territory) {
            str := SecondLine(file.value);
            if |str| > 0 {
              region := AfterColon(str);
              var valid := IsRegionValid(region);
              if !valid {
                territory, region := "", "";
              }
            }
          } else {
            territory, region := "", "";
          }
        }
      }
    }

    method WriteTerritory(newTerritory: string, newRegion: string, writable: bool) returns (ok: bool)
      modifies `file
      ensures ok <==> writable && (newTerritory != "" || newRegion != "")
      ensures file == if !writable then old(file)
                      else Some((if newTerritory == "" then "" else TERRITORY_TAG + ":" + newTerritory + "\n") +
                                (if newRegion == "" then "" else REGION_TAG + ":" + newRegion + "\n"))
    {
      if !writable {
        return false;
      }
      ok := false;
      var first, second := "", "";
      if newTerritory != "" {
        first := TERRITORY_TAG + ":" + newTerritory + "\n";
        ok := true;
      }
      if newRegion != "" {
        second := REGION_TAG + ":" + newRegion + "\n";
        ok := true;
      }
      file := Some(first + second);
    }

    method OnTerritoryChanged(newTerritory: string, newRegion: string)
      modifies `events
      ensures events == old(events) + [Changed(territory, newTerritory,
                                               if newRegion == "" then None else Some((region, newRegion)))]
    {
      var regions := if newRegion == "" then None else Some((region, newRegion));
      events := events + [Changed(territory, newTerritory, regions)];
    }

    method SetTerritory(newTerritory: string, newRegion: string, writable: bool) returns (reply: Reply)
      modifies this
      ensures State() == AfterSet(standardList, old(State()), newTerritory, newRegion, writable)
      ensures reply == if newTerritory == "" then NoError(false, "Invalid territory name")
                       else if !Accepted(standardList, newTerritory) then General("Invalid territory")
                       else if newRegion != "" && !RegionShape(newRegion) then General("Invalid region")
                       else NoError(writable, "")
    {
      if newTerritory == "" {
        return NoError(false, "Invalid territory name");
      }
      ReadTerritoryFromFile();
      if !Accepted(standardList, newTerritory) {
        return General("Invalid territory");
      }
      if newRegion != "" {
        var valid := IsRegionValid(newRegion);
        if !valid {
          return General("Invalid region");
        }
      }
      var ok := WriteTerritory(newTerritory, newRegion, writable);
      if ok {
        OnTerritoryChanged(newTerritory, newRegion);
      }
      return NoError(ok, "");
    }

    method GetTerritory() returns (currentTerritory: string, currentRegion: string, success: bool)
      modifies this
      ensures State() == AfterGet(standardList, old(State()))
      ensures currentTerritory == territory && currentRegion == region && success
    {
      territory, region := "", "";
      ReadTerritoryFromFile();
      return territory, region, true;
    }
  }
}
