/** The canonical version string shared by both revisions of the version module:
    the regular expression `VERSION_STRING_PATTERN`
        \A(0|[1-9][0-9]*)\.(0|[1-9][0-9]*)\.(0|[1-9][0-9]*)(?:-([a-zA-Z0-9]+))?\Z
    as a matcher that returns its capture groups, the component tuple
    `(int, int, int, str|None)`, and the `"{}.{}.{}[-{}]"` formatting of that tuple. */
module VersionString {
  import opened Wrappers
  import opened Decimal

  /** The character class `[a-zA-Z0-9]` (ASCII only). */
  predicate IsAlnum(c: char) {
    ('a' <= c <= 'z') || ('A' <= c <= 'Z') || ('0' <= c <= '9')
  }

  /** The suffix group `[a-zA-Z0-9]+`. */
  predicate IsSuffix(s: string) {
    |s| > 0 && forall i :: 0 <= i < |s| ==> IsAlnum(s[i])
  }

  /** The four capture groups of a match; group 4 is `None` when the optional part did not take part. */
  datatype Groups = Groups(major: string, minor: string, patch: string, suffix: Option<string>)

  predicate WellFormed(g: Groups) {
    && IsNumeral(g.major)
    && IsNumeral(g.minor)
    && IsNumeral(g.patch)
    && (g.suffix.Some? ==> IsSuffix(g.suffix.value))
  }

  /** The optional part `(?:-([a-zA-Z0-9]+))?`: empty, or a dash and the suffix. */
  function SuffixPart(suffix: Option<string>): string {
    if suffix.Some? then "-" + suffix.value else ""
  }

  function Render(g: Groups): string {
    g.major + ("." + g.minor + ("." + g.patch + SuffixPart(g.suffix)))
  }

  /** The language of the pattern, anchored at both ends: the renderings of well-formed groups. */
  ghost predicate InLanguage(s: string) {
    exists g :: WellFormed(g) && Render(g) == s
  }

  /** Length of the longest prefix of decimal digits. */
  function DigitSpan(s: string): (n: nat)
    ensures n <= |s| && AllDigits(s[..n])
    ensures n < |s| ==> !IsDigit(s[n])
  {
    if |s| > 0 && IsDigit(s[0]) then
      var n := 1 + DigitSpan(s[1..]);
      assert s[..n] == [s[0]] + s[1..][..n - 1];
      n
    else 0
  }

  /** One numeric group followed by what is left. The digit quantifiers are greedy and the
      next pattern character (`.`, `-` or the end) is not a digit, so a match must take the
      whole run of digits, and that run must be a numeral. */
  function TakeNumeral(s: string): (r: Option<(string, string)>)
    ensures r.Some? ==> IsNumeral(r.value.0) && s == r.value.0 + r.value.1
  {
    var n := DigitSpan(s);
    if IsNumeral(s[..n]) then
      assert s == s[..n] + s[n..];
      Some((s[..n], s[n..]))
    else None
  }

  /** `\.(0|[1-9][0-9]*)`: a dot, a numeric group, and what is left. */
  function TakeDotNumeral(s: string): (r: Option<(string, string)>)
    ensures r.Some? ==> IsNumeral(r.value.0) && s == "." + r.value.0 + r.value.1
  {
    if |s| == 0 || s[0] != '.' then None else
    match TakeNumeral(s[1..])
    case None => None
    case Some((d, rest)) =>
      assert s == "." + s[1..];
      Some((d, rest))
  }

  /** `(?:-([a-zA-Z0-9]+))?\Z`: the optional suffix group, which must reach the end of the string. */
  function TakeSuffixPart(s: string): (r: Option<Option<string>>)
    ensures r.Some? ==> s == SuffixPart(r.value)
    ensures r.Some? && r.value.Some? ==> IsSuffix(r.value.value)
  {
    if |s| == 0 then Some(None)
    else if s[0] == '-' && IsSuffix(s[1..]) then
      assert s == "-" + s[1..];
      Some(Some(s[1..]))
    else None
  }

  /** `VERSION_STRING_PATTERN.match(s)`: the capture groups of an anchored match, or `None`. */
  function Match(s: string): (r: Option<Groups>)
    ensures r.Some? ==> WellFormed(r.value) && Render(r.value) == s
  {
    match TakeNumeral(s)
    case None => None
    case Some((major, rest1)) => MatchMinor(major, rest1)
  }

  /** The rest of the match once group 1 has been taken. */
  function MatchMinor(major: string, rest1: string): (r: Option<Groups>)
    requires IsNumeral(major)
    ensures r.Some? ==> WellFormed(r.value) && Render(r.value) == major + rest1 && r.value.major == major
  {
    match TakeDotNumeral(rest1)
    case None => None
    case Some((minor, rest2)) => MatchPatch(major, minor, rest2)
  }

  /** The rest of the match once groups 1 and 2 have been taken. */
  function MatchPatch(major: string, minor: string, rest2: string): (r: Option<Groups>)
    requires IsNumeral(major) && IsNumeral(minor)
    ensures r.Some? ==> WellFormed(r.value) && Render(r.value) == major + ("." + minor + rest2)
    ensures r.Some? ==> r.value.major == major && r.value.minor == minor
  {
    match TakeDotNumeral(rest2)
    case None => None
    case Some((patch, rest3)) =>
      match TakeSuffixPart(rest3)
      case None => None
      case Some(suffix) =>
        assert rest2 == "." + patch + SuffixPart(suffix);
        Some(Groups(major, minor, patch, suffix))
  }

  lemma {:induction false} DigitSpanOfNumeral(d: string, rest: string)
    requires AllDigits(d)
    requires |rest| == 0 || !IsDigit(rest[0])
    ensures DigitSpan(d + rest) == |d|
    decreases |d|
  {
    if |d| > 0 {
      assert (d + rest)[1..] == d[1..] + rest;
      DigitSpanOfNumeral(d[1..], rest);
    } else {
      assert d + rest == rest;
    }
  }

  lemma TakeNumeralOf(d: string, rest: string)
    requires IsNumeral(d)
    requires |rest| == 0 || !IsDigit(rest[0])
    ensures TakeNumeral(d + rest) == Some((d, rest))
  {
    DigitSpanOfNumeral(d, rest);
    assert (d + rest)[..|d|] == d && (d + rest)[|d|..] == rest;
  }

  lemma TakeDotNumeralOf(d: string, rest: string)
    requires IsNumeral(d)
    requires |rest| == 0 || !IsDigit(rest[0])
    ensures TakeDotNumeral("." + (d + rest)) == Some((d, rest))
  {
    assert ("." + (d + rest))[1..] == d + rest;
    TakeNumeralOf(d, rest);
  }

  lemma TakeSuffixPartOf(suffix: Option<string>)
    requires suffix.Some? ==> IsSuffix(suffix.value)
    ensures TakeSuffixPart(SuffixPart(suffix)) == Some(suffix)
  {
    if suffix.Some? {
      assert SuffixPart(suffix)[1..] == suffix.value;
    }
  }

  /** The matcher accepts every rendering of well-formed groups and captures exactly them. */
  lemma MatchComplete(g: Groups)
    requires WellFormed(g)
    ensures Match(Render(g)) == Some(g)
  {
    var rest2 := "." + g.patch + SuffixPart(g.suffix);
    TakeNumeralOf(g.major, "." + g.minor + rest2);
    TakeDotNumeralOf(g.minor, rest2);
    TakeDotNumeralOf(g.patch, SuffixPart(g.suffix));
    TakeSuffixPartOf(g.suffix);
  }

  /** The pattern matches exactly the strings of the version grammar. */
  lemma MatchIffInLanguage(s: string)
    ensures Match(s).Some? <==> InLanguage(s)
  {
    if InLanguage(s) {
      var g :| WellFormed(g) && Render(g) == s;
      MatchComplete(g);
    }
  }

  /** Groups are determined by the string they render to. */
  lemma RenderInjective(g: Groups, h: Groups)
    requires WellFormed(g) && WellFormed(h) && Render(g) == Render(h)
    ensures g == h
  {
    MatchComplete(g);
    MatchComplete(h);
  }

  /** The component tuple `(major, minor, patch, suffix)` of the source. */
  datatype Components = Components(major: int, minor: int, patch: int, suffix: Option<string>)

  /** Components the grammar can express: non-negative numbers and an absent or alphanumeric suffix. */
  predicate ValidComponents(c: Components) {
    && c.major >= 0
    && c.minor >= 0
    && c.patch >= 0
    && (c.suffix.Some? ==> IsSuffix(c.suffix.value))
  }

  /** `"{}.{}.{}".format(...)`, or `"{}.{}.{}-{}"` when a suffix is present. */
  function Format(c: Components): (r: string)
    ensures c.major < 0 ==> |r| > 0 && r[0] == '-'
    ensures c.suffix.Some? ==> |r| > |c.suffix.value| && r[|r| - |c.suffix.value| - 1..] == "-" + c.suffix.value
    ensures c.suffix.None? && c.patch >= 0 ==> |r| > 0 && '0' <= r[|r| - 1] <= '9'
  {
    var tail := "." + FormatInt(c.patch) + SuffixPart(c.suffix);
    var r := FormatInt(c.major) + ("." + FormatInt(c.minor) + tail);
    EndsWith(FormatInt(c.major) + ("." + FormatInt(c.minor)), "." + FormatInt(c.patch), SuffixPart(c.suffix));
    assert r[0] == FormatInt(c.major)[0];
    r
  }

  /** The last `|c|` elements of `a + b + c` are `c`. */
  lemma EndsWith<T>(a: seq<T>, b: seq<T>, c: seq<T>)
    ensures a + (b + c) == (a + b) + c
    ensures |a + (b + c)| >= |c| && (a + (b + c))[|a + (b + c)| - |c|..] == c
  {
  }

  /** `(int(m[1]), int(m[2]), int(m[3]), m[4])` for a match `m`. */
  function ToComponents(g: Groups): (c: Components)
    requires WellFormed(g)
    ensures ValidComponents(c)
    ensures FromNat(c.major) == g.major && FromNat(c.minor) == g.minor && FromNat(c.patch) == g.patch
    ensures c.suffix == g.suffix
  {
    NumeralRoundTrip(g.major);
    NumeralRoundTrip(g.minor);
    NumeralRoundTrip(g.patch);
    Components(Value(g.major), Value(g.minor), Value(g.patch), g.suffix)
  }

  /** The groups a valid component tuple formats to. */
  function ToGroups(c: Components): (g: Groups)
    requires ValidComponents(c)
    ensures WellFormed(g) && Render(g) == Format(c)
  {
    Groups(FromNat(c.major), FromNat(c.minor), FromNat(c.patch), c.suffix)
  }

  /** A numeric group cannot start at a minus sign. */
  lemma NoNumeralAtSign(s: string)
    requires |s| > 0 && s[0] == '-'
    ensures TakeNumeral(s).None?
  {
    assert DigitSpan(s) == 0;
  }

  lemma NoDotNumeralAtSign(s: string)
    requires |s| > 1 && s[0] == '.' && s[1] == '-'
    ensures TakeDotNumeral(s).None?
  {
    NoNumeralAtSign(s[1..]);
  }

  /** The formatted string, associated the way the matcher reads it: group by group. */
  lemma FormatParts(c: Components)
    ensures Format(c) == FormatInt(c.major) + ("." + (FormatInt(c.minor) + ("." + (FormatInt(c.patch) + SuffixPart(c.suffix)))))
  {
    var tail := "." + FormatInt(c.patch) + SuffixPart(c.suffix);
    assert tail == "." + (FormatInt(c.patch) + SuffixPart(c.suffix));
    assert "." + FormatInt(c.minor) + tail == "." + (FormatInt(c.minor) + tail);
  }

  /** A dash followed by something other than `[a-zA-Z0-9]+` is not a suffix part. */
  lemma NoSuffixPart(suffix: Option<string>)
    requires suffix.Some? && !IsSuffix(suffix.value)
    ensures TakeSuffixPart(SuffixPart(suffix)).None?
  {
    assert SuffixPart(suffix)[1..] == suffix.value;
  }

  lemma RejectsMajor(c: Components)
    requires c.major < 0
    ensures Match(Format(c)).None?
  {
    NoNumeralAtSign(Format(c));
  }

  lemma RejectsMinor(c: Components)
    requires c.major >= 0 && c.minor < 0
    ensures Match(Format(c)).None?
  {
    var major := FromNat(c.major);
    var rest1 := "." + (FormatInt(c.minor) + ("." + (FormatInt(c.patch) + SuffixPart(c.suffix))));
    FormatParts(c);
    TakeNumeralOf(major, rest1);
    assert Match(Format(c)) == MatchMinor(major, rest1);
    NoDotNumeralAtSign(rest1);
  }

  lemma RejectsPatch(c: Components)
    requires c.major >= 0 && c.minor >= 0 && c.patch < 0
    ensures Match(Format(c)).None?
  {
    var major, minor := FromNat(c.major), FromNat(c.minor);
    var rest2 := "." + (FormatInt(c.patch) + SuffixPart(c.suffix));
    var rest1 := "." + (minor + rest2);
    FormatParts(c);
    TakeNumeralOf(major, rest1);
    assert Match(Format(c)) == MatchMinor(major, rest1);
    TakeDotNumeralOf(minor, rest2);
    assert MatchMinor(major, rest1) == MatchPatch(major, minor, rest2);
    NoDotNumeralAtSign(rest2);
  }

  lemma RejectsSuffix(c: Components)
    requires c.major >= 0 && c.minor >= 0 && c.patch >= 0
    requires c.suffix.Some? && !IsSuffix(c.suffix.value)
    ensures Match(Format(c)).None?
  {
    var major, minor, patch := FromNat(c.major), FromNat(c.minor), FromNat(c.patch);
    var rest3 := SuffixPart(c.suffix);
    var rest2 := "." + (patch + rest3);
    var rest1 := "." + (minor + rest2);
    FormatParts(c);
    TakeNumeralOf(major, rest1);
    assert Match(Format(c)) == MatchMinor(major, rest1);
    TakeDotNumeralOf(minor, rest2);
    assert MatchMinor(major, rest1) == MatchPatch(major, minor, rest2);
    TakeDotNumeralOf(patch, rest3);
    NoSuffixPart(c.suffix);
  }

  /** The matcher refuses the formatting of invalid components: a negative number formats
      with a `-` sign that no numeric group accepts, and a bad suffix fails `[a-zA-Z0-9]+`. */
  lemma MatchRejectsInvalid(c: Components)
    requires !ValidComponents(c)
    ensures Match(Format(c)).None?
  {
    if c.major < 0 {
      RejectsMajor(c);
    } else if c.minor < 0 {
      RejectsMinor(c);
    } else if c.patch < 0 {
      RejectsPatch(c);
    } else {
      RejectsSuffix(c);
    }
  }

  /** The formatted tuple matches the pattern exactly when the components are valid, and then
      the match captures the tuple's own numerals and suffix. */
  lemma FormatMatchesIffValid(c: Components)
    ensures Match(Format(c)).Some? <==> ValidComponents(c)
    ensures ValidComponents(c) ==> Match(Format(c)) == Some(ToGroups(c))
  {
    if ValidComponents(c) {
      MatchComplete(ToGroups(c));
    } else {
      MatchRejectsInvalid(c);
    }
  }

  /** A dash appears in a formatted valid version exactly when it carries a suffix. */
  lemma DashMarksSuffix(c: Components)
    requires ValidComponents(c)
    ensures c.suffix.None? <==> '-' !in Format(c)
  {
    var numbers := FromNat(c.major) + ("." + FromNat(c.minor) + ("." + FromNat(c.patch)));
    assert Format(c) == numbers + SuffixPart(c.suffix);
    if c.suffix.None? {
      assert forall i :: 0 <= i < |numbers| ==> IsDigit(numbers[i]) || numbers[i] == '.';
      assert Format(c) == numbers;
    } else {
      assert Format(c)[|numbers|] == '-';
    }
  }

  /** Reading the groups back gives the components that were formatted. */
  lemma ComponentsRoundTrip(c: Components)
    requires ValidComponents(c)
    ensures ToComponents(ToGroups(c)) == c
  {
  }

  /** Formatting the components read from a match reproduces the matched string. */
  lemma GroupsRoundTrip(g: Groups)
    requires WellFormed(g)
    ensures Format(ToComponents(g)) == Render(g)
  {
    NumeralRoundTrip(g.major);
    NumeralRoundTrip(g.minor);
    NumeralRoundTrip(g.patch);
  }
}
