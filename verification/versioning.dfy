/** The older revision of the version module, `Version`: the same pattern and string
    functions, but a constructor that stores its arguments without validating them, so that
    validation happens only when the version is turned into a string. */
module Versioning {
  import opened Wrappers
  import opened VersionString
  import ApplicationVersion

  /** The `InvalidVersion` exception of this revision; it carries the offending string. */
  datatype InvalidVersion = InvalidVersion(input: string)

  /** `Version(major, minor, patch, suffix)`: any arguments are stored as given. */
  datatype Version = Version(major: int, minor: int, patch: int, suffix: Option<string>) {
    function Tuple(): Components {
      Components(major, minor, patch, suffix)
    }
  }

  /** `parse_version_string`: the components of a matching string, otherwise `InvalidVersion`. */
  function ParseVersionString(s: string): (r: Result<Components, InvalidVersion>)
    ensures r.Success? <==> InLanguage(s)
    ensures r.Success? ==> ValidComponents(r.value) && Format(r.value) == s
    ensures r.Failure? ==> r.error == InvalidVersion(s)
  {
    MatchIffInLanguage(s);
    var matched := Match(s);
    if matched.Some? then
      GroupsRoundTrip(matched.value);
      Success(ToComponents(matched.value))
    else
      Failure(InvalidVersion(s))
  }

  /** `build_version_string`: formats the components and validates the result by parsing it. */
  function BuildVersionString(c: Components): (r: Result<string, InvalidVersion>)
    ensures r.Success? <==> ValidComponents(c)
    ensures r.Success? ==> ParseVersionString(r.value) == Success(c)
    ensures r.Failure? ==> r.error == InvalidVersion(Format(c))
  {
    var s := Format(c);
    FormatMatchesIffValid(c);
    MatchIffInLanguage(s);
    var parsed := ParseVersionString(s);
    if parsed.Failure? then Failure(parsed.error) else ComponentsRoundTrip(c); Success(s)
  }

  /** The two revisions parse and build identically, up to the class of the exception. */
  lemma RevisionsAgreeOnStrings(s: string, c: Components)
    ensures ParseVersionString(s).Success? == ApplicationVersion.ParseVersionString(s).Success?
    ensures ParseVersionString(s).Success? ==>
              ParseVersionString(s).value == ApplicationVersion.ParseVersionString(s).value
    ensures BuildVersionString(c).Success? == ApplicationVersion.BuildVersionString(c).Success?
    ensures BuildVersionString(c).Success? ==>
              BuildVersionString(c).value == ApplicationVersion.BuildVersionString(c).value
  {
    if ParseVersionString(s).Success? {
      var a := ParseVersionString(s).value;
      var b := ApplicationVersion.ParseVersionString(s).value;
      var ga := ToGroups(a);
      var gb := ToGroups(b);
      RenderInjective(ga, gb);
      ComponentsRoundTrip(a);
      ComponentsRoundTrip(b);
    }
  }

  /** `str(version)`: raises `InvalidVersion` exactly when the stored arguments do not form a
      valid version. */
  function ToString(v: Version): (r: Result<string, InvalidVersion>)
    ensures r.Failure? <==> !ValidComponents(v.Tuple())
    ensures r.Success? ==> ParseVersionString(r.value) == Success(v.Tuple())
    ensures r.Failure? ==> r.error == InvalidVersion(Format(v.Tuple()))
  {
    BuildVersionString(v.Tuple())
  }

  /** Construction succeeds for every component tuple the newer revision rejects: the tuple is
      stored as given, and the error surfaces only when the value is formatted. */
  lemma ConstructionDoesNotValidate(c: Components)
    requires !ValidComponents(c)
    ensures ApplicationVersion.New(c.major, c.minor, c.patch, c.suffix).Failure?
    ensures Version(c.major, c.minor, c.patch, c.suffix).Tuple() == c
    ensures ToString(Version(c.major, c.minor, c.patch, c.suffix)) == Failure(InvalidVersion(Format(c)))
  {
  }

  /** Two instances: a negative major number, and an empty suffix. */
  lemma ConstructionDoesNotValidateExamples()
    ensures ApplicationVersion.New(-1, 2, 3, None).Failure?
    ensures ToString(Version(-1, 2, 3, None)) == Failure(InvalidVersion("-1.2.3"))
    ensures ToString(Version(1, 2, 3, Some(""))) == Failure(InvalidVersion("1.2.3-"))
  {
    assert Decimal.FromNat(1) == "1" && Decimal.FromNat(2) == "2" && Decimal.FromNat(3) == "3";
    assert Format(Components(-1, 2, 3, None)) == "-1.2.3";
    assert Format(Components(1, 2, 3, Some(""))) == "1.2.3-";
  }

  /** `bump_major`: major incremented, minor and patch reset, suffix kept. */
  function BumpMajor(v: Version): (r: Version)
    ensures r.major == v.major + 1 && r.minor == 0 && r.patch == 0 && r.suffix == v.suffix
    ensures ValidComponents(v.Tuple()) ==> ValidComponents(r.Tuple())
  {
    Version(v.major + 1, 0, 0, v.suffix)
  }

  /** `bump_minor`: minor incremented, patch reset, major and suffix kept. */
  function BumpMinor(v: Version): (r: Version)
    ensures r.major == v.major && r.minor == v.minor + 1 && r.patch == 0 && r.suffix == v.suffix
    ensures ValidComponents(v.Tuple()) ==> ValidComponents(r.Tuple())
  {
    Version(v.major, v.minor + 1, 0, v.suffix)
  }

  /** `bump_patch`: patch incremented, everything else kept. */
  function BumpPatch(v: Version): (r: Version)
    ensures r.major == v.major && r.minor == v.minor && r.patch == v.patch + 1 && r.suffix == v.suffix
    ensures ValidComponents(v.Tuple()) ==> ValidComponents(r.Tuple())
  {
    Version(v.major, v.minor, v.patch + 1, v.suffix)
  }

  /** `bump_suffix`: the numbers kept, the suffix replaced; like the constructor it does not
      validate, so a bad suffix is reported only by `str`. */
  function BumpSuffix(v: Version, suffix: Option<string>): (r: Version)
    ensures r.major == v.major && r.minor == v.minor && r.patch == v.patch && r.suffix == suffix
    ensures ValidComponents(v.Tuple()) ==>
              (ValidComponents(r.Tuple()) <==> (suffix.None? || IsSuffix(suffix.value)))
  {
    Version(v.major, v.minor, v.patch, suffix)
  }

  /** Both revisions check the same components. */
  lemma NewerIsValid(v: Version)
    requires ValidComponents(v.Tuple())
    ensures ApplicationVersion.Valid(Newer(v)) && Newer(v).Tuple() == v.Tuple()
  {
  }

  /** On valid versions the numeric bumps of both revisions give the same components. */
  lemma RevisionsAgreeOnBumps(v: Version)
    requires ValidComponents(v.Tuple())
    ensures ApplicationVersion.BumpMajor(Newer(v)).value.Tuple() == BumpMajor(v).Tuple()
    ensures ApplicationVersion.BumpMinor(Newer(v)).value.Tuple() == BumpMinor(v).Tuple()
    ensures ApplicationVersion.BumpPatch(Newer(v)).value.Tuple() == BumpPatch(v).Tuple()
  {
    AgreeOnMajor(v);
    AgreeOnMinor(v);
    AgreeOnPatch(v);
  }

  lemma AgreeOnMajor(v: Version)
    requires ValidComponents(v.Tuple())
    ensures ApplicationVersion.BumpMajor(Newer(v)).value.Tuple() == BumpMajor(v).Tuple()
  {
    NewerIsValid(v);
  }

  lemma AgreeOnMinor(v: Version)
    requires ValidComponents(v.Tuple())
    ensures ApplicationVersion.BumpMinor(Newer(v)).value.Tuple() == BumpMinor(v).Tuple()
  {
    NewerIsValid(v);
  }

  lemma AgreeOnPatch(v: Version)
    requires ValidComponents(v.Tuple())
    ensures ApplicationVersion.BumpPatch(Newer(v)).value.Tuple() == BumpPatch(v).Tuple()
  {
    NewerIsValid(v);
  }

  /** A suffix the newer revision refuses at `bump_suffix` is exactly one this revision accepts
      there and refuses later in `str`. */
  lemma RevisionsAgreeOnSuffixBump(v: Version, suffix: Option<string>)
    requires ValidComponents(v.Tuple())
    ensures ApplicationVersion.BumpSuffix(Newer(v), suffix).Success? == ToString(BumpSuffix(v, suffix)).Success?
  {
    assert ApplicationVersion.Valid(Newer(v));
  }

  /** The same components as a value of the newer revision. */
  function Newer(v: Version): ApplicationVersion.Version {
    ApplicationVersion.Version(v.major, v.minor, v.patch, v.suffix)
  }
}
