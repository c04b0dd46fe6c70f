/**
  The small validators of the component updater: the server-error test on
  HTTP status codes, the brand and installer-attribute checks (each stated
  as a regular expression over ASCII character classes), the filter that
  drops URLs without a cryptographic scheme, and the offset that turns a
  component's own installer error into an installer result.
*/
module UpdateClient {

  // ---------------------------------------------------------------------
  // HTTP status codes

  /** A server error is a status of the 5xx class: its hundreds digit is 5. */
  function IsHttpServerError(statusCode: int): (r: bool)
    ensures r <==> 500 <= statusCode <= 599
  {
    statusCode / 100 == 5
  }

  // ---------------------------------------------------------------------
  // Character classes and bounded repetition

  predicate IsAsciiAlpha(c: char)
  {
    'a' <= c <= 'z' || 'A' <= c <= 'Z'
  }

  predicate IsAsciiDigit(c: char)
  {
    '0' <= c <= '9'
  }

  /** The bracket expressions the validators use. */
  datatype CharClass =
    | Letters     // [a-zA-Z]
    | NameChars   // [-_a-zA-Z0-9]
    | ValueChars  // [-.,;+_=a-zA-Z0-9]
  {
    predicate Contains(c: char)
    {
      match this
      case Letters => IsAsciiAlpha(c)
      case NameChars => c == '-' || c == '_' || IsAsciiAlpha(c) || IsAsciiDigit(c)
      case ValueChars =>
        c == '-' || c == '.' || c == ',' || c == ';' || c == '+' || c == '_' || c == '='
        || IsAsciiAlpha(c) || IsAsciiDigit(c)
    }
  }

  /** What the anchored expression ^[cls]{lo,hi}$ accepts. */
  predicate MatchesRepeat(s: string, cls: CharClass, lo: nat, hi: nat)
  {
    lo <= |s| <= hi && forall k :: 0 <= k < |s| ==> cls.Contains(s[k])
  }

  /** A scan of `s` that decides ^[cls]{lo,hi}$. */
  method Matches(s: string, cls: CharClass, lo: nat, hi: nat) returns (ok: bool)
    ensures ok <==> MatchesRepeat(s, cls, lo, hi)
  {
    if |s| < lo || |s| > hi {
      return false;
    }
    var i := 0;
    while i < |s|
      invariant 0 <= i <= |s|
      invariant forall k :: 0 <= k < i ==> cls.Contains(s[k])
    {
      if !cls.Contains(s[i]) {
        return false;
      }
      i := i + 1;
    }
    return true;
  }

  /** The longest name and the longest value of an installer attribute. */
  const MaxAttributeLength := 256
  /** A brand code is exactly this many letters. */
  const BrandLength := 4

  /** A brand matches ^[a-zA-Z]{4}?$, read as exactly four ASCII letters. */
  method IsValidBrand(brand: string) returns (ok: bool)
    ensures ok <==> |brand| == BrandLength && forall k :: 0 <= k < |brand| ==> IsAsciiAlpha(brand[k])
  {
    ok := Matches(brand, Letters, BrandLength, BrandLength);
  }

  /**
    An installer attribute is a name matching ^[-_a-zA-Z0-9]{1,256}$ and a
    value matching ^[-.,;+_=a-zA-Z0-9]{0,256}$.
  */
  method IsValidInstallerAttribute(name: string, value: string) returns (ok: bool)
    ensures ok <==>
      && 1 <= |name| <= MaxAttributeLength
      && (forall k :: 0 <= k < |name| ==> NameChars.Contains(name[k]))
      && |value| <= MaxAttributeLength
      && (forall k :: 0 <= k < |value| ==> ValueChars.Contains(value[k]))
  {
    var nameOk := Matches(name, NameChars, 1, MaxAttributeLength);
    if !nameOk {
      return false;
    }
    ok := Matches(value, ValueChars, 0, MaxAttributeLength);
  }

  // ---------------------------------------------------------------------
  // Secure URLs

  /** A URL, split at its scheme. */
  datatype Url = Url(scheme: string, rest: string)

  /** The schemes whose transport is encrypted. */
  predicate SchemeIsCryptographic(u: Url)
  {
    u.scheme == "https" || u.scheme == "wss"
  }

  /** The URLs with a cryptographic scheme, in their original order. */
  function RemoveUnsecureUrls(urls: seq<Url>): (r: seq<Url>)
    ensures forall k :: 0 <= k < |r| ==> SchemeIsCryptographic(r[k])
    ensures |r| <= |urls|
  {
    if |urls| == 0 then []
    else
      var rest := RemoveUnsecureUrls(urls[1..]);
      if SchemeIsCryptographic(urls[0]) then [urls[0]] + rest else rest
  }

  /** Every secure URL is kept as often as it occurred; every other URL is gone. */
  lemma {:induction false} RemoveUnsecureUrlsCounts(urls: seq<Url>)
    ensures forall u ::
      multiset(RemoveUnsecureUrls(urls))[u] == if SchemeIsCryptographic(u) then multiset(urls)[u] else 0
  {
    if |urls| > 0 {
      RemoveUnsecureUrlsCounts(urls[1..]);
      assert urls == [urls[0]] + urls[1..];
      assert multiset(urls) == multiset{urls[0]} + multiset(urls[1..]);
      var head := if SchemeIsCryptographic(urls[0]) then [urls[0]] else [];
      assert RemoveUnsecureUrls(urls) == head + RemoveUnsecureUrls(urls[1..]);
    }
  }

  /** A list of secure URLs is left as it is. */
  lemma {:induction false} SecureUrlsKept(urls: seq<Url>)
    requires forall k :: 0 <= k < |urls| ==> SchemeIsCryptographic(urls[k])
    ensures RemoveUnsecureUrls(urls) == urls
  {
    if |urls| > 0 {
      SecureUrlsKept(urls[1..]);
      assert urls == [urls[0]] + urls[1..];
    }
  }

  /**
    The filter keeps order: filtering a list in two parts gives the two
    filtered parts one after the other.
  */
  lemma {:induction false} RemoveUnsecureUrlsKeepsOrder(a: seq<Url>, b: seq<Url>)
    ensures RemoveUnsecureUrls(a + b) == RemoveUnsecureUrls(a) + RemoveUnsecureUrls(b)
  {
    if |a| == 0 {
      assert a + b == b;
    } else {
      var ab := a + b;
      assert ab[1..] == a[1..] + b;
      RemoveUnsecureUrlsKeepsOrder(a[1..], b);
      var head := if SchemeIsCryptographic(a[0]) then [a[0]] else [];
      assert RemoveUnsecureUrls(a) == head + RemoveUnsecureUrls(a[1..]);
      assert RemoveUnsecureUrls(ab) == head + RemoveUnsecureUrls(ab[1..]);
    }
  }

  /** Filtering twice is filtering once. */
  lemma RemoveUnsecureUrlsIdempotent(urls: seq<Url>)
    ensures RemoveUnsecureUrls(RemoveUnsecureUrls(urls)) == RemoveUnsecureUrls(urls)
  {
    SecureUrlsKept(RemoveUnsecureUrls(urls));
  }

  // ---------------------------------------------------------------------
  // Installer results

  /** Installer errors of a component start at this offset, above the updater's own. */
  const CustomErrorBase := 100

  datatype InstallerResult = InstallerResult(error: int, extendedError: int)

  /** A component's own installer error, moved above the updater's error codes. */
  function ToInstallerResult(error: int, extendedError: int := 0): (r: InstallerResult)
    ensures r.error - CustomErrorBase == error
    ensures r.extendedError == extendedError
    ensures error >= 0 ==> r.error >= CustomErrorBase
  {
    InstallerResult(CustomErrorBase + error, extendedError)
  }

  /** The component's error a result carries, when its code is in the custom range. */
  function CustomError(r: InstallerResult): (e: int)
  {
    r.error - CustomErrorBase
  }

  /** Distinct component errors give distinct results, and the error can be read back. */
  lemma ToInstallerResultRoundTrip(error: int, extendedError: int)
    ensures CustomError(ToInstallerResult(error, extendedError)) == error
    ensures ToInstallerResult(error).extendedError == 0
    ensures forall e :: ToInstallerResult(e, extendedError) == ToInstallerResult(error, extendedError) ==> e == error
  {
  }
}
