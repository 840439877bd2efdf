/**
 * The user-agent classifiers of utils/client-info.ts: the browser and the
 * operating system are the label of the first keyword the user agent
 * contains, in a fixed order, and the device type is "mobile" when any of
 * five keywords occurs. The network lookups of `getClientInfo` become an
 * optional parameter.
 */
module ClientInfo {
  import opened Common
  import opened Strings

  // ---------------------------------------------------------------------------
  // First match

  /** The position of the first keyword the user agent contains, or the
      number of keywords when it contains none. */
  function FirstMatch(ua: string, keywords: seq<string>): (k: nat)
    ensures k <= |keywords|
    ensures forall j | 0 <= j < k :: !Contains(ua, keywords[j])
    ensures k < |keywords| ==> Contains(ua, keywords[k])
  {
    if |keywords| == 0 then 0
    else if Contains(ua, keywords[0]) then 0
    else 1 + FirstMatch(ua, keywords[1..])
  }

  /** The user agent contains at least one of the keywords. */
  predicate ContainsAny(ua: string, keywords: seq<string>)
    ensures ContainsAny(ua, keywords) <==> FirstMatch(ua, keywords) < |keywords|
  {
    exists j | 0 <= j < |keywords| :: Contains(ua, keywords[j])
  }

  lemma FirstMatchFound(ua: string, keywords: seq<string>)
    ensures FirstMatch(ua, keywords) < |keywords| <==> ContainsAny(ua, keywords)
  {
  }

  // ---------------------------------------------------------------------------
  // Browser

  const BrowserKeywords: seq<string> := ["Firefox", "Chrome", "Safari", "Edge", "Opera"]
  /** The label for each keyword, and "Unknown" when none matches. */
  const BrowserLabels: seq<string> := ["Firefox", "Chrome", "Safari", "Edge", "Opera", "Unknown"]

  /** `getBrowserInfo`. */
  function BrowserOf(ua: string): (r: string)
    ensures r in BrowserLabels
  {
    if Contains(ua, "Firefox") then "Firefox"
    else if Contains(ua, "Chrome") then "Chrome"
    else if Contains(ua, "Safari") then "Safari"
    else if Contains(ua, "Edge") then "Edge"
    else if Contains(ua, "Opera") then "Opera"
    else "Unknown"
  }

  /** The browser is the label of the first keyword found. */
  lemma BrowserFirstMatch(ua: string)
    ensures BrowserOf(ua) == BrowserLabels[FirstMatch(ua, BrowserKeywords)]
  {
    var ks := BrowserKeywords;
    var k := FirstMatch(ua, ks);
    assert ks[0] == "Firefox" && ks[1] == "Chrome" && ks[2] == "Safari" && ks[3] == "Edge" && ks[4] == "Opera";
    if k > 0 {
      assert !Contains(ua, ks[0]);
    }
    if k > 1 {
      assert !Contains(ua, ks[1]);
    }
    if k > 2 {
      assert !Contains(ua, ks[2]);
    }
    if k > 3 {
      assert !Contains(ua, ks[3]);
    }
    if k > 4 {
      assert !Contains(ua, ks[4]);
    }
  }

  lemma BrowserLabelsDistinct()
    ensures forall i, j | 0 <= i < j < |BrowserLabels| :: BrowserLabels[i] != BrowserLabels[j]
  {
  }

  /** Each label is returned exactly when its keyword is the first found. */
  lemma BrowserIff(ua: string, i: nat)
    requires i < |BrowserLabels|
    ensures BrowserOf(ua) == BrowserLabels[i] <==> FirstMatch(ua, BrowserKeywords) == i
  {
    BrowserFirstMatch(ua);
    BrowserLabelsDistinct();
  }

  /** "Chrome" wins over "Safari" and "Edge", which Chrome's user agent also
      names; only "Firefox" is checked before it. */
  lemma ChromeIff(ua: string)
    ensures BrowserOf(ua) == "Chrome" <==> Contains(ua, "Chrome") && !Contains(ua, "Firefox")
  {
  }

  /** "Edge" is reported only when none of "Firefox", "Chrome" and "Safari"
      occurs. */
  lemma EdgeIff(ua: string)
    ensures BrowserOf(ua) == "Edge"
        <==> Contains(ua, "Edge") && !Contains(ua, "Firefox") && !Contains(ua, "Chrome") && !Contains(ua, "Safari")
  {
  }

  // ---------------------------------------------------------------------------
  // Operating system

  const OsKeywords: seq<string> := ["Windows", "Mac", "Linux", "Android", "iOS"]
  const OsLabels: seq<string> := ["Windows", "MacOS", "Linux", "Android", "iOS", "Unknown"]

  /** `getOSInfo`. */
  function OsOf(ua: string): (r: string)
    ensures r in OsLabels
  {
    if Contains(ua, "Windows") then "Windows"
    else if Contains(ua, "Mac") then "MacOS"
    else if Contains(ua, "Linux") then "Linux"
    else if Contains(ua, "Android") then "Android"
    else if Contains(ua, "iOS") then "iOS"
    else "Unknown"
  }

  lemma OsFirstMatch(ua: string)
    ensures OsOf(ua) == OsLabels[FirstMatch(ua, OsKeywords)]
  {
    var ks := OsKeywords;
    var k := FirstMatch(ua, ks);
    assert ks[0] == "Windows" && ks[1] == "Mac" && ks[2] == "Linux" && ks[3] == "Android" && ks[4] == "iOS";
    if k > 0 {
      assert !Contains(ua, ks[0]);
    }
    if k > 1 {
      assert !Contains(ua, ks[1]);
    }
    if k > 2 {
      assert !Contains(ua, ks[2]);
    }
    if k > 3 {
      assert !Contains(ua, ks[3]);
    }
    if k > 4 {
      assert !Contains(ua, ks[4]);
    }
  }

  lemma OsLabelsDistinct()
    ensures forall i, j | 0 <= i < j < |OsLabels| :: OsLabels[i] != OsLabels[j]
  {
  }

  lemma OsIff(ua: string, i: nat)
    requires i < |OsLabels|
    ensures OsOf(ua) == OsLabels[i] <==> FirstMatch(ua, OsKeywords) == i
  {
    OsFirstMatch(ua);
    OsLabelsDistinct();
  }

  /** A user agent naming both Linux and Android is classified Linux when it
      names neither Windows nor Mac. */
  lemma LinuxBeforeAndroid(ua: string)
    requires Contains(ua, "Linux") && Contains(ua, "Android")
    requires !Contains(ua, "Windows") && !Contains(ua, "Mac")
    ensures OsOf(ua) == "Linux"
  {
  }

  /** "Android" and "iOS" are reported only when every earlier keyword is
      absent. */
  lemma AndroidIff(ua: string)
    ensures OsOf(ua) == "Android"
        <==> Contains(ua, "Android") && !Contains(ua, "Windows") && !Contains(ua, "Mac") && !Contains(ua, "Linux")
  {
  }

  lemma IosIff(ua: string)
    ensures OsOf(ua) == "iOS"
        <==> && Contains(ua, "iOS") && !Contains(ua, "Windows") && !Contains(ua, "Mac")
             && !Contains(ua, "Linux") && !Contains(ua, "Android")
  {
  }

  // ---------------------------------------------------------------------------
  // Device type

  /** The alternatives of `/Mobile|Tablet|iPad|iPhone|Android/`. */
  const MobileKeywords: seq<string> := ["Mobile", "Tablet", "iPad", "iPhone", "Android"]

  /** `/Mobile|Tablet|iPad|iPhone|Android/.test(ua) ? 'mobile' : 'desktop'`: an
      unanchored alternation matches where any alternative occurs. */
  function DeviceTypeOf(ua: string): (r: string)
    ensures r == "mobile" || r == "desktop"
    ensures r == "mobile" <==> ContainsAny(ua, MobileKeywords)
  {
    FirstMatchFound(ua, MobileKeywords);
    if FirstMatch(ua, MobileKeywords) < |MobileKeywords| then "mobile" else "desktop"
  }

  // ---------------------------------------------------------------------------
  // getClientInfo

  /** What the two network lookups return: the address and its coordinates. */
  datatype Location = Location(ipAddress: string, latitude: real, longitude: real)

  datatype Info = Info(
    ipAddress: string,
    latitude: real,
    longitude: real,
    userAgent: string,
    deviceType: string,
    browser: string,
    os: string,
    timestamp: string)

  /** `getClientInfo` with the lookups' outcome and the clock as parameters:
      when a lookup fails the classifiers are skipped and every label is the
      lower-case "unknown". */
  function GetClientInfo(ua: string, lookup: Option<Location>, timestamp: string): (r: Info)
    ensures r.userAgent == ua && r.timestamp == timestamp
    ensures lookup.Some? ==>
      && r.browser in BrowserLabels && r.os in OsLabels
      && (r.deviceType == "mobile" <==> ContainsAny(ua, MobileKeywords))
    ensures lookup.Some? ==>
      && r.ipAddress == lookup.value.ipAddress
      && r.latitude == lookup.value.latitude && r.longitude == lookup.value.longitude
      && r.deviceType == DeviceTypeOf(ua) && r.browser == BrowserOf(ua) && r.os == OsOf(ua)
    ensures lookup.None? ==>
      r.ipAddress == "" && r.deviceType == "unknown" && r.browser == "unknown" && r.os == "unknown"
  {
    match lookup
    case Some(loc) =>
      Info(loc.ipAddress, loc.latitude, loc.longitude, ua, DeviceTypeOf(ua), BrowserOf(ua), OsOf(ua), timestamp)
    case None =>
      Info("", 0.0, 0.0, ua, "unknown", "unknown", "unknown", timestamp)
  }

  /** The fallback's "unknown" is never a classifier result, so it tells a
      failed lookup apart from an unrecognised user agent ("Unknown"). */
  lemma FallbackIsDistinct(ua: string, lookup: Option<Location>, timestamp: string)
    ensures GetClientInfo(ua, lookup, timestamp).browser == "unknown" <==> lookup.None?
    ensures GetClientInfo(ua, lookup, timestamp).os == "unknown" <==> lookup.None?
    ensures GetClientInfo(ua, lookup, timestamp).deviceType == "unknown" <==> lookup.None?
  {
  }

  // ---------------------------------------------------------------------------
  // Whole classifications

  /** A user agent naming none of the keywords. */
  lemma NoKeyword(ua: string)
    requires forall j | 0 <= j < |BrowserKeywords| :: !Contains(ua, BrowserKeywords[j])
    requires forall j | 0 <= j < |OsKeywords| :: !Contains(ua, OsKeywords[j])
    requires forall j | 0 <= j < |MobileKeywords| :: !Contains(ua, MobileKeywords[j])
    ensures BrowserOf(ua) == "Unknown" && OsOf(ua) == "Unknown" && DeviceTypeOf(ua) == "desktop"
  {
    assert !Contains(ua, BrowserKeywords[0]) && !Contains(ua, BrowserKeywords[1]) && !Contains(ua, BrowserKeywords[2]);
    assert !Contains(ua, BrowserKeywords[3]) && !Contains(ua, BrowserKeywords[4]);
    assert !Contains(ua, OsKeywords[0]) && !Contains(ua, OsKeywords[1]) && !Contains(ua, OsKeywords[2]);
    assert !Contains(ua, OsKeywords[3]) && !Contains(ua, OsKeywords[4]);
  }

  /** Safari on an iPhone says "like Mac OS X" and not "iOS": such a user agent
      is reported as "MacOS", and as "mobile". */
  lemma IPhoneReadsMacOS(ua: string)
    requires Contains(ua, "iPhone") && Contains(ua, "Mac") && Contains(ua, "Safari")
    requires !Contains(ua, "Windows") && !Contains(ua, "Firefox") && !Contains(ua, "Chrome")
    ensures BrowserOf(ua) == "Safari" && OsOf(ua) == "MacOS" && DeviceTypeOf(ua) == "mobile"
  {
    assert Contains(ua, MobileKeywords[3]);
  }

  /** Chrome on Android says "Linux; Android" and "Mobile Safari": it is
      reported as Chrome on Linux, and as "mobile". */
  lemma AndroidReadsLinux(ua: string)
    requires Contains(ua, "Linux") && Contains(ua, "Android") && Contains(ua, "Chrome") && Contains(ua, "Safari")
    requires !Contains(ua, "Windows") && !Contains(ua, "Mac") && !Contains(ua, "Firefox")
    ensures BrowserOf(ua) == "Chrome" && OsOf(ua) == "Linux" && DeviceTypeOf(ua) == "mobile"
  {
    assert Contains(ua, MobileKeywords[4]);
  }
}
