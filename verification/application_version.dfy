/** The newer revision of the version value type, `ApplicationVersion`: validated on
    construction, formatted and parsed through the shared version grammar, bumped into new
    values, and totally ordered by a five-part comparison key. */
module ApplicationVersion {
  import opened Wrappers
  import opened Decimal
  import opened VersionString
  import Ordinal
  import Comparable

  /** The `InvalidVersion` exception; it carries the offending version string. */
  datatype InvalidVersion = InvalidVersion(input: string)

  datatype Version = Version(major: int, minor: int, patch: int, suffix: Option<string>) {
    /** The `components` property. */
    function Tuple(): Components {
      Components(major, minor, patch, suffix)
    }
  }

  /** `parse_version_string`: the components of a string the pattern matches, or `InvalidVersion`. */
  function ParseVersionString(s: string): (r: Result<Components, InvalidVersion>)
    ensures r.Success? <==> InLanguage(s)
    ensures r.Success? ==> ValidComponents(r.value) && Format(r.value) == s
    ensures r.Failure? ==> r.error == InvalidVersion(s)
  {
    MatchIffInLanguage(s);
    match Match(s)
    case None => Failure(InvalidVersion(s))
    case Some(g) =>
      GroupsRoundTrip(g);
      Success(ToComponents(g))
  }

  /** `build_version_string`: the formatted components if the pattern accepts them, otherwise
      `InvalidVersion` carrying the formatted attempt. */
  function BuildVersionString(c: Components): (r: Result<string, InvalidVersion>)
    ensures r.Success? <==> ValidComponents(c)
    ensures r.Success? ==> ParseVersionString(r.value) == Success(c)
    ensures r.Failure? ==> r.error == InvalidVersion(Format(c))
    ensures r.Success? ==> (c.suffix.None? <==> '-' !in r.value)
  {
    var s := Format(c);
    FormatMatchesIffValid(c);
    if Match(s).None? then
      Failure(InvalidVersion(s))
    else
      ComponentsRoundTrip(c);
      DashMarksSuffix(c);
      Success(s)
  }

  /** Parsing and formatting are inverse on strings: a string that parses is rebuilt exactly.
      The contracts of `ParseVersionString` and `BuildVersionString` already give this; the lemma
      names the theorem. */
  lemma StringRoundTrip(s: string)
    requires ParseVersionString(s).Success?
    ensures BuildVersionString(ParseVersionString(s).value) == Success(s)
  {
  }

  /** Parsing and formatting are inverse on components: components that build are parsed back.
      This is the second `ensures` of `BuildVersionString`, named as a theorem. */
  lemma ComponentRoundTrip(c: Components)
    requires BuildVersionString(c).Success?
    ensures ParseVersionString(BuildVersionString(c).value) == Success(c)
  {
  }

  /** The class invariant the constructor enforces. */
  predicate Valid(v: Version) {
    ValidComponents(v.Tuple())
  }

  /** `ApplicationVersion(major, minor, patch, suffix)`: validates by building the string, then
      stores the arguments unchanged. */
  function New(major: int, minor: int, patch: int, suffix: Option<string>): (r: Result<Version, InvalidVersion>)
    ensures r.Success? <==> BuildVersionString(Components(major, minor, patch, suffix)).Success?
    ensures r.Success? ==> r.value == Version(major, minor, patch, suffix) && Valid(r.value)
    ensures r.Failure? ==> r.error == InvalidVersion(Format(Components(major, minor, patch, suffix)))
  {
    var built := BuildVersionString(Components(major, minor, patch, suffix));
    if built.Failure? then Failure(built.error) else Success(Version(major, minor, patch, suffix))
  }

  /** `str(version)`. */
  function ToString(v: Version): (s: string)
    requires Valid(v)
    ensures ParseVersionString(s) == Success(v.Tuple())
    ensures BuildVersionString(v.Tuple()) == Success(s)
  {
    BuildVersionString(v.Tuple()).value
  }

  /** `from_string`: parse, then construct. */
  function FromString(s: string): (r: Result<Version, InvalidVersion>)
    ensures r.Success? <==> InLanguage(s)
    ensures r.Success? ==> Valid(r.value) && ToString(r.value) == s
    ensures r.Failure? ==> r.error == InvalidVersion(s)
  {
    var c :- ParseVersionString(s);
    New(c.major, c.minor, c.patch, c.suffix)
  }

  /** Every constructed version survives a trip through its string form. */
  lemma VersionRoundTrip(v: Version)
    requires Valid(v)
    ensures FromString(ToString(v)) == Success(v)
  {
  }

  /** The key `(major, minor, patch, suffix is None, str(suffix))`; `str(None)` is `"None"`. */
  datatype CompareKey = CompareKey(major: int, minor: int, patch: int, isRelease: bool, suffixText: string)

  /** `to_compare_key`: the key loses nothing, because the release flag tells a missing suffix
      from the suffix `"None"`. */
  function ToCompareKey(v: Version): (k: CompareKey)
    ensures KeyVersion(k) == v
  {
    CompareKey(v.major, v.minor, v.patch, v.suffix.None?,
               if v.suffix.None? then "None" else v.suffix.value)
  }

  /** The version a key was taken from. */
  function KeyVersion(k: CompareKey): Version {
    Version(k.major, k.minor, k.patch, if k.isRelease then None else Some(k.suffixText))
  }

  /** Two versions have the same key exactly when they are the same version. */
  lemma CompareKeyInjective(a: Version, b: Version)
    ensures ToCompareKey(a) == ToCompareKey(b) <==> a == b
  {
    assert ToCompareKey(a) == ToCompareKey(b) ==> KeyVersion(ToCompareKey(a)) == KeyVersion(ToCompareKey(b));
  }

  /** The keys of released and suffixed versions, as the tests of `to_compare_key` expect them. */
  lemma CompareKeyExamples()
    ensures ToCompareKey(Version(1, 2, 3, Some("Alpha"))) == CompareKey(1, 2, 3, false, "Alpha")
    ensures ToCompareKey(Version(1, 2, 3, Some("Beta"))) == CompareKey(1, 2, 3, false, "Beta")
    ensures ToCompareKey(Version(0, 0, 0, None)) == CompareKey(0, 0, 0, true, "None")
    ensures ToCompareKey(Version(1, 2, 3, None)) == CompareKey(1, 2, 3, true, "None")
    ensures ToCompareKey(Version(1, 2, 3, Some("None"))) != ToCompareKey(Version(1, 2, 3, None))
  {
  }

  /** Python's `<` on the key tuples: the first unequal position decides; `False < True`. */
  predicate KeyLess(a: CompareKey, b: CompareKey): (r: bool)
    ensures r ==> a != b
    ensures r ==> a.major <= b.major
  {
    if a.major != b.major then a.major < b.major
    else if a.minor != b.minor then a.minor < b.minor
    else if a.patch != b.patch then a.patch < b.patch
    else if a.isRelease != b.isRelease then !a.isRelease && b.isRelease
    else Ordinal.Less(a.suffixText, b.suffixText)
  }

  /** Tuple `<` on keys is a strict total order: it is irreflexive, asymmetric and transitive,
      and any two different keys are ordered one way or the other. */
  lemma KeyLessStrictOrder(a: CompareKey, b: CompareKey, c: CompareKey)
    ensures !KeyLess(a, a)
    ensures KeyLess(a, b) ==> !KeyLess(b, a)
    ensures KeyLess(a, b) && KeyLess(b, c) ==> KeyLess(a, c)
    ensures a != b ==> KeyLess(a, b) || KeyLess(b, a)
  {
    Ordinal.Irreflexive(a.suffixText);
    Ordinal.Asymmetric(a.suffixText, b.suffixText);
    if Ordinal.Less(a.suffixText, b.suffixText) && Ordinal.Less(b.suffixText, c.suffixText) {
      Ordinal.Transitive(a.suffixText, b.suffixText, c.suffixText);
    }
    Ordinal.Connected(a.suffixText, b.suffixText);
  }

  /** `compare`: -1, 0 or +1 as the key of `a` is below, equal to or above the key of `b`. */
  function Compare(a: Version, b: Version): (r: int)
    ensures r == -1 || r == 0 || r == 1
    ensures r == 0 <==> a == b
  {
    var ka := ToCompareKey(a);
    var kb := ToCompareKey(b);
    Ordinal.Connected(ka.suffixText, kb.suffixText);
    Ordinal.Irreflexive(ka.suffixText);
    if KeyLess(ka, kb) then -1 else if KeyLess(kb, ka) then 1 else 0
  }

  /** The precedence rule as stated for versions: numbers first, most significant first; at
      equal numbers a release is above every suffixed version, and two suffixes compare as
      strings. (Deliberately not the pre-release precedence of Semantic Versioning 2.0.0.) */
  predicate Precedes(a: Version, b: Version) {
    || a.major < b.major
    || (a.major == b.major && a.minor < b.minor)
    || (a.major == b.major && a.minor == b.minor && a.patch < b.patch)
    || (a.major == b.major && a.minor == b.minor && a.patch == b.patch &&
          a.suffix.Some? && (b.suffix.None? || Ordinal.Less(a.suffix.value, b.suffix.value)))
  }

  lemma CompareIsPrecedence(a: Version, b: Version)
    ensures Compare(a, b) == -1 <==> Precedes(a, b)
    ensures Compare(a, b) == 1 <==> Precedes(b, a)
  {
    Ordinal.Asymmetric(ToCompareKey(a).suffixText, ToCompareKey(b).suffixText);
    Ordinal.Irreflexive("None");
  }

  /** A release outranks every suffixed version with the same numbers. */
  lemma ReleaseOutranksSuffixed(a: Version, b: Version)
    requires a.major == b.major && a.minor == b.minor && a.patch == b.patch
    requires a.suffix.None? && b.suffix.Some?
    ensures Compare(a, b) == 1 && Compare(b, a) == -1
  {
    CompareIsPrecedence(a, b);
  }

  lemma CompareAntisymmetric(a: Version, b: Version)
    ensures Compare(a, b) == -Compare(b, a)
  {
    CompareIsPrecedence(a, b);
    CompareIsPrecedence(b, a);
  }

  lemma CompareTransitive(a: Version, b: Version, c: Version)
    requires Compare(a, b) == -1 && Compare(b, c) == -1
    ensures Compare(a, c) == -1
  {
    CompareIsPrecedence(a, b);
    CompareIsPrecedence(b, c);
    CompareIsPrecedence(a, c);
    if a.major == c.major && a.minor == c.minor && a.patch == c.patch {
      assert a.major == b.major && a.minor == b.minor && a.patch == b.patch;
      if b.suffix.Some? && c.suffix.Some? {
        Ordinal.Transitive(a.suffix.value, b.suffix.value, c.suffix.value);
      }
    }
  }

  /** `compare` obeys the three-way laws, so the six operators installed by the `comparable`
      decorator order versions totally, and `==` is equality of the components. */
  lemma VersionOperatorsTotal()
    ensures Comparable.ThreeWayLaws(Compare)
    ensures Comparable.StrictTotalOrder((a, b) => Comparable.Relation(Comparable.Lt, Compare, a, b))
    ensures Comparable.TotalOrder((a, b) => Comparable.Relation(Comparable.Le, Compare, a, b))
    ensures forall a, b :: Comparable.Relation(Comparable.Eq, Compare, a, b) <==> a == b
  {
    forall a, b ensures Compare(a, b) < 0 <==> Compare(b, a) > 0 {
      CompareAntisymmetric(a, b);
    }
    forall a, b, c | Compare(a, b) < 0 && Compare(b, c) < 0 ensures Compare(a, c) < 0 {
      CompareTransitive(a, b, c);
    }
    Comparable.DerivedOrder(Compare);
  }

  /** `bump_major`: the next major version, lower numbers reset, suffix kept. */
  function BumpMajor(v: Version): (r: Result<Version, InvalidVersion>)
    requires Valid(v)
    ensures r == Success(Version(v.major + 1, 0, 0, v.suffix))
    ensures Compare(r.value, v) == 1
  {
    CompareIsPrecedence(New(v.major + 1, 0, 0, v.suffix).value, v);
    New(v.major + 1, 0, 0, v.suffix)
  }

  /** `bump_minor`: the next minor version, patch reset, major and suffix kept. */
  function BumpMinor(v: Version): (r: Result<Version, InvalidVersion>)
    requires Valid(v)
    ensures r == Success(Version(v.major, v.minor + 1, 0, v.suffix))
    ensures Compare(r.value, v) == 1
  {
    CompareIsPrecedence(New(v.major, v.minor + 1, 0, v.suffix).value, v);
    New(v.major, v.minor + 1, 0, v.suffix)
  }

  /** `bump_patch`: the next patch version, everything else kept. */
  function BumpPatch(v: Version): (r: Result<Version, InvalidVersion>)
    requires Valid(v)
    ensures r == Success(Version(v.major, v.minor, v.patch + 1, v.suffix))
    ensures Compare(r.value, v) == 1
  {
    CompareIsPrecedence(New(v.major, v.minor, v.patch + 1, v.suffix).value, v);
    New(v.major, v.minor, v.patch + 1, v.suffix)
  }

  /** `bump_suffix`: the same numbers with a new suffix, which must itself be valid. */
  function BumpSuffix(v: Version, suffix: Option<string>): (r: Result<Version, InvalidVersion>)
    requires Valid(v)
    ensures r.Success? <==> (suffix.None? || IsSuffix(suffix.value))
    ensures r.Success? ==> r.value == Version(v.major, v.minor, v.patch, suffix)
    ensures r.Failure? ==> r.error == InvalidVersion(Format(Version(v.major, v.minor, v.patch, suffix).Tuple()))
  {
    New(v.major, v.minor, v.patch, suffix)
  }

  /** `bump_to_release`: drops the suffix; the result is never below the receiver. */
  function BumpToRelease(v: Version): (r: Result<Version, InvalidVersion>)
    requires Valid(v)
    ensures r.Success? && r.value.suffix.None?
    ensures r.value.major == v.major && r.value.minor == v.minor && r.value.patch == v.patch
    ensures Compare(r.value, v) >= 0
    ensures v.suffix.Some? ==> Compare(r.value, v) == 1
  {
    var r := BumpSuffix(v, None);
    if v.suffix.Some? then ReleaseOutranksSuffixed(r.value, v); r else r
  }

  /** `bump_to_snapshot`: replaces the suffix with `"SNAPSHOT"`. */
  function BumpToSnapshot(v: Version): (r: Result<Version, InvalidVersion>)
    requires Valid(v)
    ensures r.Success? && r.value.suffix == Some("SNAPSHOT")
    ensures r.value.major == v.major && r.value.minor == v.minor && r.value.patch == v.patch
    ensures v.suffix.None? ==> Compare(r.value, v) == -1
  {
    assert IsSuffix("SNAPSHOT");
    var r := BumpSuffix(v, Some("SNAPSHOT"));
    if v.suffix.None? then ReleaseOutranksSuffixed(v, r.value); r else r
  }
}
