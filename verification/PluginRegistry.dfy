/**
 * The plugin registry merge (plugin/platformcaps/platformcapsdata.cpp): the generic and the device
 * specific list against the libraries found on disk. File existence is an oracle.
 */
module PluginRegistry {
  import opened Wrappers

  /** One JSON object of a "pluginregistry" array; a label may be missing. */
  datatype Entry = Entry(appName: Option<string>, enabled: Option<string>,
                         libraries: Option<seq<string>>, version: Option<string>)

  datatype Site = Site(libraryPath: string, onDisk: string -> bool)

  predicate SwitchedOff(e: Entry) {
    e.enabled == Some("false")
  }

  predicate Complete(e: Entry) {
    e.appName.Some? && e.libraries.Some? && e.version.Some? && !SwitchedOff(e)
  }

  /** A library path that does not start with a slash is relative to the plugin library path. */
  function LibraryFile(site: Site, lib: string): string {
    if |lib| > 0 && lib[0] == '/' then lib else site.libraryPath + "/" + lib
  }

  ghost predicate AllOnDisk(site: Site, libraries: seq<string>) {
    forall lib :: lib in libraries ==> site.onDisk(LibraryFile(site, lib))
  }

  ghost predicate Usable(site: Site, e: Entry, name: string) {
    Complete(e) && e.appName.value == name && AllOnDisk(site, e.libraries.value)
  }

  ghost predicate Removed(list: seq<Entry>, name: string) {
    exists e :: e in list && e.appName == Some(name) && SwitchedOff(e)
  }

  ghost function FirstUsable(site: Site, list: seq<Entry>, name: string): Option<Entry>
    decreases |list|
  {
    if list == [] then None
    else
      var earlier := FirstUsable(site, list[..|list| - 1], name);
      var last := list[|list| - 1];
      if earlier.Some? then earlier else if Usable(site, last, name) then Some(last) else None
  }

  /** The entry that decides about a name, whichever list it comes from. */
  ghost function Source(site: Site, generic: seq<Entry>, device: seq<Entry>, name: string): Option<Entry> {
    var own := FirstUsable(site, device, name);
    if own.Some? then own
    else if Removed(device, name) then None
    else FirstUsable(site, generic, name)
  }

  ghost predicate FirstAt(site: Site, list: seq<Entry>, name: string, i: nat)
    requires i < |list|
  {
    Usable(site, list[i], name) && forall j :: 0 <= j < i ==> !Usable(site, list[j], name)
  }

  lemma {:induction false} FirstUsableIsFirst(site: Site, list: seq<Entry>, name: string)
    ensures FirstUsable(site, list, name).None? <==> forall i :: 0 <= i < |list| ==> !Usable(site, list[i], name)
    ensures forall i :: 0 <= i < |list| && FirstAt(site, list, name, i) ==>
              FirstUsable(site, list, name) == Some(list[i])
    decreases |list|
  {
    if list != [] {
      var front := list[..|list| - 1];
      FirstUsableIsFirst(site, front, name);
      assert forall i :: 0 <= i < |front| ==> front[i] == list[i];
      forall i | 0 <= i < |front| && FirstAt(site, list, name, i)
        ensures FirstAt(site, front, name, i)
      {
      }
    }
  }

  /** A usable device entry always wins, whatever else either list says about the name. */
  lemma DeviceEntryWins(site: Site, generic: seq<Entry>, device: seq<Entry>, name: string, i: nat)
    requires i < |device| && FirstAt(site, device, name, i)
    ensures Source(site, generic, device, name) == Some(device[i])
  {
    FirstUsableIsFirst(site, device, name);
  }

  /** Without one, a name survives exactly when the device list does not switch it off and a generic entry is usable. */
  lemma GenericEntryCounts(site: Site, generic: seq<Entry>, device: seq<Entry>, name: string)
    requires forall i :: 0 <= i < |device| ==> !Usable(site, device[i], name)
    ensures Source(site, generic, device, name).Some? <==>
            !Removed(device, name) && exists i :: 0 <= i < |generic| && Usable(site, generic[i], name)
    ensures forall i :: 0 <= i < |generic| && FirstAt(site, generic, name, i) && !Removed(device, name) ==>
              Source(site, generic, device, name) == Some(generic[i])
  {
    FirstUsableIsFirst(site, device, name);
    FirstUsableIsFirst(site, generic, name);
  }

  // ---------------------------------------------------------------------------------------------
  // Version numbers: atoi, then narrowed to eight bits
  // ---------------------------------------------------------------------------------------------

  predicate IsDigit(c: char) {
    '0' <= c <= '9'
  }

  predicate IsSpace(c: char) {
    c == ' ' || '\t' <= c <= '\r'
  }

  function Digits(s: string, value: nat): nat
    decreases |s|
  {
    if s == "" || !IsDigit(s[0]) then value
    else Digits(s[1..], 10 * value + (s[0] as int - '0' as int))
  }

  function Atoi(s: string): int
    decreases |s|
  {
    if s != "" && IsSpace(s[0]) then Atoi(s[1..])
    else if s != "" && s[0] == '-' then 0 - Digits(s[1..], 0)
    else if s != "" && s[0] == '+' then Digits(s[1..], 0)
    else Digits(s, 0)
  }

  type uint8 = n: int | 0 <= n < 256

  function Version(e: Entry): uint8
    requires Complete(e)
  {
    Atoi(e.version.value) % 256
  }

  function Decimal(n: nat): (s: string)
    ensures s != "" && forall i :: 0 <= i < |s| ==> IsDigit(s[i])
  {
    var last := [('0' as int + n % 10) as char];
    if n < 10 then last else Decimal(n / 10) + last
  }

  lemma {:induction false} DigitsAppend(s: string, c: char, value: nat)
    requires IsDigit(c) && forall i :: 0 <= i < |s| ==> IsDigit(s[i])
    ensures Digits(s + [c], value) == 10 * Digits(s, value) + (c as int - '0' as int)
    decreases |s|
  {
    if s == "" {
      assert (s + [c])[1..] == "";
    } else {
      assert (s + [c])[1..] == s[1..] + [c];
      DigitsAppend(s[1..], c, 10 * value + (s[0] as int - '0' as int));
    }
  }

  lemma {:induction false} DigitsOfDecimal(n: nat)
    ensures Digits(Decimal(n), 0) == n
  {
    if n < 10 {
      assert Decimal(n)[1..] == "";
    } else {
      DigitsOfDecimal(n / 10);
      DigitsAppend(Decimal(n / 10), ('0' as int + n % 10) as char, 0);
    }
  }

  /** A version written as a decimal number within the range of int is recorded modulo 256. */
  lemma VersionWraps(e: Entry, n: nat)
    requires Complete(e) && e.version.value == Decimal(n) && n < 0x8000_0000
    ensures Version(e) == n % 256
  {
    DigitsOfDecimal(n);
  }

  // ---------------------------------------------------------------------------------------------
  // The loops
  // ---------------------------------------------------------------------------------------------

  method VerifyLibraries(site: Site, libraries: seq<string>) returns (verified: bool)
    ensures verified <==> AllOnDisk(site, libraries)
  {
    verified := true;
    for i := 0 to |libraries|
      invariant verified
      invariant forall j :: 0 <= j < i ==> site.onDisk(LibraryFile(site, libraries[j]))
    {
      var lib := libraries[i];
      if !(|lib| > 0 && lib[0] == '/') {
        lib := site.libraryPath + "/" + lib;
      }
      if !site.onDisk(lib) {
        verified := false;
        assert lib == LibraryFile(site, libraries[i]);
        break;
      }
    }
  }

  /** `result` gives each name that has a source entry the version of that entry, and holds no other name. */
  ghost predicate Reflects(result: map<string, uint8>, source: string -> Option<Entry>) {
    forall name ::
      && (name in result <==> source(name).Some?)
      && (name in result ==> Complete(source(name).value) && result[name] == Version(source(name).value))
  }

  /** std::map::emplace: the first value for a key stays. */
  function Emplace(m: map<string, uint8>, key: string, value: uint8): map<string, uint8> {
    if key in m then m else m[key := value]
  }

  lemma PrefixGrows(site: Site, list: seq<Entry>, i: nat, name: string)
    requires i < |list|
    ensures FirstUsable(site, list[..i + 1], name) ==
            var earlier := FirstUsable(site, list[..i], name);
            if earlier.Some? then earlier else if Usable(site, list[i], name) then Some(list[i]) else None
    ensures Removed(list[..i + 1], name) <==>
            Removed(list[..i], name) || (list[i].appName == Some(name) && SwitchedOff(list[i]))
  {
    assert list[..i + 1][..i] == list[..i];
    assert list[..i + 1] == list[..i] + [list[i]];
  }

  /** The source of a name after one more entry of a first-come list. */
  ghost function OneMore(site: Site, earlier: Option<Entry>, e: Entry, name: string): Option<Entry> {
    if earlier.Some? then earlier else if Usable(site, e, name) then Some(e) else None
  }

  lemma SourceGrows(site: Site, generic: seq<Entry>, device: seq<Entry>, i: nat, name: string)
    requires i < |generic|
    ensures var earlier := Source(site, generic[..i], device, name);
            Source(site, generic[..i + 1], device, name) ==
            if Removed(device, name) then earlier else OneMore(site, earlier, generic[i], name)
  {
    PrefixGrows(site, generic, i, name);
  }

  /** Inserting the version of a usable entry first-come is what OneMore does to every source. */
  lemma InsertionReflects(site: Site, before: map<string, uint8>, after: map<string, uint8>, e: Entry, allowed: bool,
                          source: string -> Option<Entry>, next: string -> Option<Entry>)
    requires Reflects(before, source)
    requires forall name :: next(name) ==
               if allowed || e.appName != Some(name) then OneMore(site, source(name), e, name) else source(name)
    requires after == if Complete(e) && allowed && AllOnDisk(site, e.libraries.value)
                      then Emplace(before, e.appName.value, Version(e)) else before
    ensures Reflects(after, next)
  {
  }

  method AddDevicePlugins(site: Site, device: seq<Entry>)
    returns (result: map<string, uint8>, removePlugins: seq<string>)
    ensures forall name :: name in removePlugins <==> Removed(device, name)
    ensures Reflects(result, name => FirstUsable(site, device, name))
  {
    result, removePlugins := map[], [];
    for i := 0 to |device|
      invariant forall name :: name in removePlugins <==> Removed(device[..i], name)
      invariant Reflects(result, name => FirstUsable(site, device[..i], name))
    {
      var hash := device[i];
      ghost var before := result;
      forall name {
        PrefixGrows(site, device, i, name);
      }
      if hash.appName.Some? && hash.enabled == Some("false") {
        removePlugins := removePlugins + [hash.appName.value];
      } else if Complete(hash) {
        var verified := VerifyLibraries(site, hash.libraries.value);
        if verified {
          result := Emplace(result, hash.appName.value, Atoi(hash.version.value) % 256);
        }
      }
      InsertionReflects(site, before, result, hash, true,
                        name => FirstUsable(site, device[..i], name), name => FirstUsable(site, device[..i + 1], name));
    }
    assert device[..|device|] == device;
  }

  /** The merged map reflects the source entry of every name. */
  method GetAvailablePlugins(site: Site, generic: seq<Entry>, device: seq<Entry>) returns (result: map<string, uint8>)
    ensures Reflects(result, name => Source(site, generic, device, name))
  {
    var removePlugins: seq<string>;
    result, removePlugins := AddDevicePlugins(site, device);
    for i := 0 to |generic|
      invariant Reflects(result, name => Source(site, generic[..i], device, name))
    {
      var hash := generic[i];
      ghost var before := result;
      forall name {
        SourceGrows(site, generic, device, i, name);
      }
      if Complete(hash) {
        var appName := hash.appName.value;
        if appName !in result && appName !in removePlugins {
          var verified := VerifyLibraries(site, hash.libraries.value);
          if verified {
            result := Emplace(result, appName, Atoi(hash.version.value) % 256);
          }
        }
      }
      InsertionReflects(site, before, result, hash, hash.appName.Some? && hash.appName.value !in removePlugins,
                        name => Source(site, generic[..i], device, name),
                        name => Source(site, generic[..i + 1], device, name));
    }
    assert generic[..|generic|] == generic;
  }
}
