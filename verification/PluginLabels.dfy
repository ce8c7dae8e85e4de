/** The merged registry told from the labels of the entries, and the numbers that versions are read as. */
module PluginLabels {
  import opened Wrappers
  import opened PluginRegistry

  // ---------------------------------------------------------------------------------------------
  // Names and versions
  // ---------------------------------------------------------------------------------------------

  /** Each library is a file: an absolute path as it stands, any other one below the plugin library path. */
  ghost predicate FilesThere(site: Site, libraries: seq<string>) {
    forall lib :: lib in libraries ==>
      if lib != "" && lib[0] == '/' then site.onDisk(lib) else site.onDisk(site.libraryPath + "/" + lib)
  }

  /** The entry offers the name: it has libraries, all there, and a version, and is not marked as not enabled. */
  ghost predicate Offers(site: Site, e: Entry, name: string) {
    && e.appName == Some(name) && e.enabled != Some("false")
    && e.version.Some? && e.libraries.Some? && FilesThere(site, e.libraries.value)
  }

  lemma OffersIsUsable(site: Site, e: Entry, name: string)
    ensures Offers(site, e, name) <==> Usable(site, e, name)
  {
  }

  ghost predicate OfferedBy(site: Site, list: seq<Entry>, name: string) {
    exists i :: 0 <= i < |list| && Offers(site, list[i], name)
  }

  lemma OfferedIsFound(site: Site, list: seq<Entry>, name: string)
    ensures OfferedBy(site, list, name) <==> FirstUsable(site, list, name).Some?
  {
    FirstUsableIsFirst(site, list, name);
    forall i | 0 <= i < |list| ensures Offers(site, list[i], name) <==> Usable(site, list[i], name) {
      OffersIsUsable(site, list[i], name);
    }
  }

  /**
   * A name is available exactly when an entry of the device list offers it, or one of the generic list
   * does and no device entry switches the name off.
   */
  lemma AvailableExactly(site: Site, generic: seq<Entry>, device: seq<Entry>, result: map<string, uint8>, name: string)
    requires Reflects(result, n => Source(site, generic, device, n))
    ensures name in result <==>
            || OfferedBy(site, device, name)
            || (OfferedBy(site, generic, name)
                && forall d :: d in device ==> !(d.appName == Some(name) && d.enabled == Some("false")))
  {
    OfferedIsFound(site, device, name);
    OfferedIsFound(site, generic, name);
  }

  /** A name whose entries are all switched off is never available. */
  lemma AllSwitchedOff(site: Site, generic: seq<Entry>, device: seq<Entry>, result: map<string, uint8>, name: string)
    requires Reflects(result, n => Source(site, generic, device, n))
    requires forall e :: e in generic + device && e.appName == Some(name) ==> e.enabled == Some("false")
    ensures name !in result
  {
    AvailableExactly(site, generic, device, result, name);
    assert forall e :: e in generic || e in device ==> e in generic + device;
    assert forall i :: 0 <= i < |generic| ==> generic[i] in generic;
    assert forall i :: 0 <= i < |device| ==> device[i] in device;
  }

  ghost predicate FirstOffer(site: Site, list: seq<Entry>, name: string, i: nat)
    requires i < |list|
  {
    Offers(site, list[i], name) && forall j :: 0 <= j < i ==> !Offers(site, list[j], name)
  }

  lemma FirstOfferIsFirst(site: Site, list: seq<Entry>, name: string, i: nat)
    requires i < |list| && FirstOffer(site, list, name, i)
    ensures FirstUsable(site, list, name) == Some(list[i])
  {
    forall j | 0 <= j <= i ensures Offers(site, list[j], name) <==> Usable(site, list[j], name) {
      OffersIsUsable(site, list[j], name);
    }
    FirstUsableIsFirst(site, list, name);
  }

  /** The version is that of the first entry that offers the name, of the device list if it has one. */
  lemma VersionExactly(site: Site, generic: seq<Entry>, device: seq<Entry>, result: map<string, uint8>, name: string,
                       i: nat)
    requires Reflects(result, n => Source(site, generic, device, n)) && name in result
    requires var list := if OfferedBy(site, device, name) then device else generic;
             i < |list| && FirstOffer(site, list, name, i)
    ensures var list := if OfferedBy(site, device, name) then device else generic;
            result[name] == Atoi(list[i].version.value) % 256
  {
    OfferedIsFound(site, device, name);
    FirstOfferIsFirst(site, if OfferedBy(site, device, name) then device else generic, name, i);
  }

  // ---------------------------------------------------------------------------------------------
  // Numbers
  // ---------------------------------------------------------------------------------------------

  ghost predicate Blank(s: string) {
    forall i :: 0 <= i < |s| ==> s[i] == ' ' || 9 <= s[i] as int <= 13
  }

  ghost predicate NoDigitAhead(s: string) {
    s == "" || !('0' <= s[0] <= '9')
  }

  lemma {:induction false} BlanksAreSkipped(blanks: string, s: string)
    requires Blank(blanks)
    ensures Atoi(blanks + s) == Atoi(s)
    decreases |blanks|
  {
    if blanks == "" {
      assert blanks + s == s;
    } else {
      assert (blanks + s)[1..] == blanks[1..] + s;
      BlanksAreSkipped(blanks[1..], s);
    }
  }

  lemma {:induction false} DigitsStop(digits: string, rest: string, value: nat)
    requires (forall i :: 0 <= i < |digits| ==> IsDigit(digits[i])) && NoDigitAhead(rest)
    ensures Digits(digits + rest, value) == Digits(digits, value)
    decreases |digits|
  {
    if digits == "" {
      assert digits + rest == rest;
    } else {
      assert (digits + rest)[1..] == digits[1..] + rest;
      DigitsStop(digits[1..], rest, 10 * value + (digits[0] as int - '0' as int));
    }
  }

  /** A number is read behind blanks and one sign, up to the first character that is no digit. */
  lemma NumbersAreRead(blanks: string, sign: string, n: nat, rest: string)
    requires Blank(blanks) && (sign == "" || sign == "+" || sign == "-") && NoDigitAhead(rest)
    ensures Atoi(blanks + (sign + (Decimal(n) + rest))) == if sign == "-" then 0 - n else n
  {
    var number := Decimal(n) + rest;
    BlanksAreSkipped(blanks, sign + number);
    DigitsStop(Decimal(n), rest, 0);
    DigitsOfDecimal(n);
    if sign == "" {
      assert sign + number == number;
      assert IsDigit(number[0]);
    } else {
      assert (sign + number)[1..] == number;
    }
  }

  /** Without a digit there the version is 0. */
  lemma NoNumberIsZero(blanks: string, sign: string, rest: string)
    requires Blank(blanks) && NoDigitAhead(rest)
    requires sign == "+" || sign == "-" || (sign == "" && (rest == "" || (!Blank(rest[..1]) && rest[0] !in "+-")))
    ensures Atoi(blanks + (sign + rest)) == 0
  {
    BlanksAreSkipped(blanks, sign + rest);
    if sign == "" {
      assert sign + rest == rest;
      assert rest != "" ==> rest[..1][0] == rest[0];
    } else {
      assert (sign + rest)[1..] == rest;
    }
  }
}
