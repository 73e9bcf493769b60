# Version strings, comparison, collection helpers and ages, in Dafny

This project models the utility core of the `python-myapp` repository:

- **Application version.** The class `ApplicationVersion` of `src/main/utils/application_version.py` is
  modelled together with its module functions:
  - `parse_version_string` and `build_version_string`, both built on the regular expression
    `VERSION_STRING_PATTERN`;
  - the validating constructor, `str`, and `from_string`;
  - `compare` through the five-part key of `to_compare_key`;
  - the six bump operations.
- **The older revision.** `src/main/utils/versioning.py` holds the class `Version`. It uses the same
  pattern, but its constructor stores any arguments, and validation happens only in `str`.
- **Comparison operators.** `src/main/utils/comparable.py` derives the six rich comparison operators
  from `compare`. The metaclass and the class decorator derive them the same way.
- **Collection helpers.** `src/main/utils/collections.py` holds `flatten`, `frequencies` and
  `chunked`. The `flatten` of `src/main/lang/collections.py` is identical and shares one model.
- **Names and ages.** `src/main/utils/user.py` holds `full_name`, `time_basis_age` and
  `date_basis_age`. They are modelled over a proleptic Gregorian calendar with the range of
  Python's `datetime.date`.

Modules, one per file:

| module | file | contents |
|---|---|---|
| `Wrappers` | `wrappers.dfy` | `Option` and `Result`; a `Failure` is a raised exception |
| `Decimal` | `decimal.dfy` | digit strings: `int(s)`, `str(n)` including the minus sign, zero padding |
| `Ordinal` | `ordinal.dfy` | Python's `<` on `str`, proved to be a strict total order |
| `Arithmetic` | `arithmetic.dfy` | uniqueness of quotient and remainder (Python's `//` for positive divisors) |
| `Comparable` | `comparable.dfy` | the six derived operators |
| `VersionString` | `version_string.dfy` | the pattern as a matcher over capture groups; the `"{}.{}.{}[-{}]"` formatting |
| `ApplicationVersion` | `application_version.dfy` | the newer revision |
| `Versioning` | `versioning.dfy` | the older revision, and how it relates to the newer one |
| `Collections` | `collections.dfy` | `flatten`, `frequencies`, `chunked` |
| `Calendar` | `calendar.dfy` | dates, leap years, comparison, the day after, `toordinal` |
| `User` | `user.dfy` | `full_name`, `time_basis_age`, `date_basis_age` |

Modelling choices:

- **The regular expression.** It becomes a deterministic matcher, `VersionString.Match`. The matcher
  is proved to accept exactly the language of a declarative grammar: the renderings of well-formed
  capture groups. It also captures those groups.
  - The digit quantifiers are greedy. The character after each numeric group (`.`, `-` or the end)
    is not a digit. So a match must take the whole run of digits.
  - `re.MULTILINE` does not change the meaning of `\A` and `\Z`, so it plays no part.
- **Formatting integers.** `"{}".format(n)` of a negative `n` writes a minus sign
  (`Decimal.FormatInt`). "A negative component is rejected" is therefore a theorem, not part of the
  definition.
- **The comparison key.** `to_compare_key` is modelled literally:
  - `str(None)` is `"None"`;
  - `False < True`;
  - strings compare by code point.

  The resulting `compare` is proved equal to an independent precedence rule.
- **Exceptions** are `Failure` values that carry what the source passes to the exception.
- **Python sets.** A set reaches `flatten` as the sequence of its elements in iteration order.
- **`chunked`.** The model simulates `zip_longest` over one iterator shared `size` times: the count
  of active iterators, the slots replaced by the fill value, and the stop when no iterator is
  active. It is proved equal to a functional grouping specification.
- **`strftime("%Y%m%d")`** is four-, two- and two-digit zero padding, then `int(...)`. A C library
  that does not pad years below 1000 gives the same integer, because leading zeros do not change
  the value.
- **Reading `today`.** The dates are parameters; the model never reads a clock.

To verify the whole project with Dafny 4.11, run `dafny verify *.dfy` in this directory.

## Model

| member | source | states |
|---|---|---|
| VersionString.Match | src/main/utils/application_version.py:65-67 | whatever the pattern matches is the rendering of well-formed groups: three numerals without leading zeros, dot-separated, then an optional dash and a non-empty alphanumeric suffix |
| VersionString.MatchIffInLanguage | src/main/utils/application_version.py:65-67 | the matcher accepts a string exactly when the anchored version grammar generates it |
| VersionString.MatchComplete | src/main/utils/application_version.py:65-67 | every well-formed rendering is matched, and the captured groups are exactly its parts |
| VersionString.Format | src/main/utils/application_version.py:400-403 | a negative major number formats with a leading `-`; a suffix ends the string after a `-`; without a suffix the string ends in a digit of the patch number |
| VersionString.ToComponents | src/main/utils/application_version.py:372 | the ints read from well-formed groups are valid, and `str` of each gives back its group's text; the suffix group is kept as is |
| VersionString.RenderInjective | src/main/utils/application_version.py:65-67 | the grammar is unambiguous: two well-formed group tuples that render alike are equal |
| VersionString.FormatMatchesIffValid | src/main/utils/application_version.py:400-406 | a formatted tuple matches exactly when all three numbers are non-negative and the suffix is absent or alphanumeric and non-empty; the match then captures the tuple's own numerals |
| VersionString.MatchRejectsInvalid | src/main/utils/application_version.py:400-406 | a negative number or a bad suffix makes the formatted string fail the pattern |
| VersionString.DashMarksSuffix | src/main/utils/application_version.py:400-403 | for valid components, the formatted string contains a `-` exactly when a suffix is present |
| VersionString.GroupsRoundTrip | src/main/utils/application_version.py:372 | formatting the integers read from the groups reproduces the matched text |
| VersionString.ComponentsRoundTrip | src/main/utils/application_version.py:372 | reading back the groups of formatted valid components gives those components |
| Decimal.Value | src/main/utils/application_version.py:372 | `int(s)` on a string of decimal digits, leading zeros allowed, read one digit at a time from the left; its partners are `Decimal.ValueBound`, `Decimal.NumeralRoundTrip` and `Decimal.ValueOfConcat` |
| Decimal.ValueBound | src/main/utils/user.py:60 | a string of `k` digits stands for a number below `10^k` |
| Decimal.FromNat | src/main/utils/application_version.py:400-403 | `str(n)` of a non-negative int is a numeral without a leading zero whose value is `n` |
| Decimal.FormatInt | src/main/utils/application_version.py:400-403 | `str(i)` of a negative int starts with `-`; of a non-negative int it is the shortest numeral |
| Decimal.NumeralRoundTrip | src/main/utils/application_version.py:372 | `str(int(s)) == s` for every numeral `s` that the pattern's numeric group accepts |
| Decimal.ValueOfConcat | src/main/utils/user.py:60 | the value of two concatenated digit strings is the left value shifted by the right part's length, plus the right value |
| Decimal.ZeroPad | src/main/utils/user.py:60 | zero padding to a width gives exactly that many digits, and their value is the number |
| Ordinal.Less | src/main/utils/application_version.py:428 | `str` `<`: never holds between equal strings, and a proper prefix is below the longer string |
| Ordinal.LessIffDiffersBelow | src/main/utils/application_version.py:428 | code-point order on strings is: a proper prefix, or a smaller character at the first difference |
| Ordinal.Connected | src/main/utils/application_version.py:428 | two different strings are ordered one way or the other |
| Ordinal.Transitive | src/main/utils/application_version.py:428 | string order is transitive |
| Ordinal.Asymmetric | src/main/utils/application_version.py:428 | string order is asymmetric |
| Ordinal.Irreflexive | src/main/utils/application_version.py:428 | no string is below itself |
| ApplicationVersion.ParseVersionString | src/main/utils/application_version.py:369-372 | succeeds exactly on strings of the version grammar, with valid components that format back to the string; otherwise raises `InvalidVersion` carrying the string |
| ApplicationVersion.BuildVersionString | src/main/utils/application_version.py:400-408 | succeeds exactly on valid components, and parsing the result gives them back; otherwise raises `InvalidVersion` with the formatted attempt; no suffix means no `-` |
| ApplicationVersion.StringRoundTrip | src/main/utils/application_version.py:369-372 | build after parse is the identity on strings that parse |
| ApplicationVersion.ComponentRoundTrip | src/main/utils/application_version.py:400-408 | parse after build is the identity on components that build |
| ApplicationVersion.New | src/main/utils/application_version.py:111-117 | the constructor succeeds exactly when `build_version_string` does, stores its arguments, and leaves a valid value |
| ApplicationVersion.ToString | src/main/utils/application_version.py:128 | `str(v)` is the built string, and parsing it gives the components back |
| ApplicationVersion.FromString | src/main/utils/application_version.py:324-340 | `from_string` succeeds exactly on the grammar's strings, and `str` of the result is the input |
| ApplicationVersion.VersionRoundTrip | src/main/utils/application_version.py:128 | every valid version comes back from its own string |
| ApplicationVersion.ToCompareKey | src/main/utils/application_version.py:411-428 | the key determines the version it came from: the release flag tells a missing suffix from the suffix `"None"` |
| ApplicationVersion.CompareKeyInjective | src/main/utils/application_version.py:427-428 | two versions have the same key exactly when they are equal |
| ApplicationVersion.CompareKeyExamples | src/test/utils/test_application_version.py:340-356 | the keys of `1.2.3-Alpha`, `1.2.3-Beta`, `0.0.0` and `1.2.3`, and that `1.2.3-None` and `1.2.3` have different keys |
| ApplicationVersion.KeyLess | src/main/utils/application_version.py:210-212 | tuple `<` on two keys: it never holds between equal keys, and the first key's major number is not above the second's |
| ApplicationVersion.KeyLessStrictOrder | src/main/utils/application_version.py:210-212 | tuple `<` on keys is irreflexive, asymmetric and transitive, and orders any two different keys |
| ApplicationVersion.Compare | src/main/utils/application_version.py:208-214 | the result is -1, 0 or +1, and it is 0 exactly for equal components |
| ApplicationVersion.CompareIsPrecedence | src/main/utils/application_version.py:208-214 | `compare` is -1 or +1 exactly as an independent precedence rule says: numbers first, a release above any suffix, suffixes in string order |
| ApplicationVersion.ReleaseOutranksSuffixed | src/main/utils/application_version.py:428 | with equal numbers, a release compares above a suffixed version |
| ApplicationVersion.CompareAntisymmetric | src/main/utils/application_version.py:208-214 | swapping the arguments negates `compare` |
| ApplicationVersion.CompareTransitive | src/main/utils/application_version.py:208-214 | `compare` is transitive |
| ApplicationVersion.VersionOperatorsTotal | src/main/utils/application_version.py:192-214 | `compare` obeys the three-way laws, so the derived `<` is a strict total order, `<=` a total order, and `==` is equality of the components |
| ApplicationVersion.BumpMajor | src/main/utils/application_version.py:216-225 | on a valid version, gives `(M+1, 0, 0, s)` without failing, and the result compares above the receiver |
| ApplicationVersion.BumpMinor | src/main/utils/application_version.py:227-236 | on a valid version, gives `(M, m+1, 0, s)` without failing, and the result compares above the receiver |
| ApplicationVersion.BumpPatch | src/main/utils/application_version.py:238-247 | on a valid version, gives `(M, m, p+1, s)` without failing, and the result compares above the receiver |
| ApplicationVersion.BumpSuffix | src/main/utils/application_version.py:249-261 | succeeds exactly when the new suffix is absent or valid, and then changes only the suffix |
| ApplicationVersion.BumpToRelease | src/main/utils/application_version.py:263-274 | drops the suffix and keeps the numbers; the result is never below the receiver, and is above it if the receiver had a suffix |
| ApplicationVersion.BumpToSnapshot | src/main/utils/application_version.py:276-287 | sets the suffix `SNAPSHOT` and keeps the numbers; a release receiver compares above the result |
| Versioning.ParseVersionString | src/main/utils/versioning.py:116-120 | succeeds exactly on strings of the version grammar, with components that format back to the string; otherwise raises `InvalidVersion` |
| Versioning.BuildVersionString | src/main/utils/versioning.py:151-158 | succeeds exactly when the formatted string parses again, which is exactly for valid components |
| Versioning.RevisionsAgreeOnStrings | src/main/utils/versioning.py:116-158 | both revisions parse and build identically, up to the exception class |
| Versioning.ToString | src/main/utils/versioning.py:238-243 | `str(v)` raises `InvalidVersion` exactly when the stored components are invalid |
| Versioning.ConstructionDoesNotValidate | src/main/utils/versioning.py:209-212 | for every invalid tuple, the newer constructor raises `InvalidVersion`; this constructor stores the tuple unchanged, and `str` raises `InvalidVersion` with the formatted tuple |
| Versioning.ConstructionDoesNotValidateExamples | src/main/utils/versioning.py:209-212 | the instances `"-1.2.3"` and `"1.2.3-"` |
| Versioning.BumpMajor | src/main/utils/versioning.py:245-248 | increments major, resets minor and patch, keeps the suffix, and keeps a valid version valid |
| Versioning.BumpMinor | src/main/utils/versioning.py:250-253 | increments minor, resets patch, keeps the rest, and keeps a valid version valid |
| Versioning.BumpPatch | src/main/utils/versioning.py:255-258 | increments patch, keeps the rest, and keeps a valid version valid |
| Versioning.BumpSuffix | src/main/utils/versioning.py:260-264 | replaces only the suffix; the result of a valid version is valid exactly when the new suffix is absent or valid |
| Versioning.RevisionsAgreeOnBumps | src/main/utils/versioning.py:245-258 | on valid versions, the numeric bumps of both revisions give the same components |
| Versioning.RevisionsAgreeOnSuffixBump | src/main/utils/versioning.py:260-264 | a suffix the newer `bump_suffix` refuses is exactly one that the older revision refuses in `str` |
| Comparable.Apply | src/main/utils/comparable.py:14-19 | the answer is read off the sign of `compare`: a negative result makes `!=`, `<`, `<=` true; zero makes `==`, `<=`, `>=` true; a positive result makes `!=`, `>`, `>=` true; every other operator is false |
| Comparable.Relation | src/main/utils/comparable.py:28-33 | `a <op> b` follows the same sign table applied to `compare(a, b)`, for any class and comparison method |
| Comparable.OperatorsConsistent | src/main/utils/comparable.py:28-33 | `!=` negates `==`; `<=` is `<` or `==`; `>=` is `>` or `==`; exactly one of `<`, `==`, `>` holds |
| Comparable.DerivedOrder | src/main/utils/comparable.py:14-19 | if `compare` obeys the three-way laws, the derived `<` is a strict total order, `<=` a total order, `==` is identity, and `>` is `<` reversed |
| Comparable.DifferenceCompareMatchesIntegers | src/main/utils/comparable.py:28-33 | with `compare` as the difference of values, each derived operator is the integer operator on the values |
| Comparable.DifferenceCompareObeysLaws | src/main/utils/comparable.py:28-33 | the difference comparison obeys the three-way laws |
| Collections.RangeItems | src/main/utils/collections.py:5 | the values of `range(start, stop, step)`: as many as the closed-form length, the i-th being `start + i*step` |
| Collections.IsContainer | src/main/utils/collections.py:7 | a value is walked into exactly when it is not `None`, an int, a str, a dict or another opaque value |
| Collections.Expand | src/main/utils/collections.py:5-9 | what the generator yields for one value never contains a list, tuple, set or range |
| Collections.Leaves | src/main/utils/collections.py:6-11 | what the generator yields for each value in turn; nothing yielded is a list, tuple, set or range |
| Collections.Flatten | src/main/utils/collections.py:12 | `flatten(*values)` is the leaves of the argument values, in order |
| Collections.LeavesAppend | src/main/utils/collections.py:6-8 | the leaves of two sequences are the leaves of the first, then those of the second |
| Collections.FlattenNoArguments | src/main/lang/collections.py:9 | `flatten()` is `[]` |
| Collections.WrappingInvariant | src/main/utils/collections.py:12 | `flatten(*xs) == flatten(xs) == flatten([xs])`, for list and tuple wrappers |
| Collections.FlattenIdempotent | src/main/utils/collections.py:5-12 | `flatten(*flatten(*xs)) == flatten(*xs)`, and `flatten(flatten(*xs)) == flatten(*xs)` where the flat result is passed as one list |
| Collections.LeavesAreOccurrences | src/main/utils/collections.py:5-9 | a value is in the result exactly when it is a non-container leaf nested somewhere in the input |
| Collections.LengthIsLeafCount | src/main/utils/collections.py:5-12 | the length of the result is the number of leaves |
| Collections.Frequencies | src/main/utils/collections.py:15-19 | the keys are exactly the values that occur, and each count is the value's number of occurrences |
| Collections.FirstIndex | src/main/utils/collections.py:17 | the position where a value first occurs: it holds the value and nothing before it does |
| Collections.Distinct | src/main/utils/collections.py:17 | the key order of the count dict: each value that occurs, once, ordered so that the first occurrences increase |
| Collections.DistinctExample | src/main/utils/collections.py:17 | the keys of `frequencies([2, 1, 2])` come in the order `2, 1` |
| Collections.CountsSumToLength | src/main/utils/collections.py:15-19 | the counts add up to the number of values |
| Collections.Chunks | src/main/utils/collections.py:25 | the grouping has the group count, and every group has exactly `size` entries |
| Collections.GroupCountIsCeiling | src/main/utils/collections.py:25 | the number of groups is the ceiling of `len(values) / size` |
| Collections.PadLengthIsRemainder | src/main/utils/collections.py:25 | the padding is the distance from `len(values)` up to the next multiple of `size` |
| Collections.ChunksConcat | src/main/utils/collections.py:25 | the groups, read in order, are the values followed by just enough padding |
| Collections.ChunksAppend | src/main/utils/collections.py:25 | grouping a whole number of groups and then the rest equals grouping the lot |
| Collections.ZipRound | src/main/utils/collections.py:25 | one round of `zip_longest` on the shared iterator: it stops exactly when the iterator is already exhausted; otherwise it takes up to `size` values and pads the rest |
| Collections.GroupByZipLongest | src/main/utils/collections.py:25 | the rounds of `zip_longest` produce exactly the functional grouping |
| Collections.ChunkedDefault | src/main/utils/collections.py:22-25 | with the default padding `None`: raises `ValueError` exactly when `size < 1`; otherwise the groups read in order are the values followed by just enough `None`s |
| Collections.Chunked | src/main/utils/collections.py:22-25 | raises `ValueError` carrying the size exactly when `size < 1`; otherwise yields the grouping |
| Calendar.IsLeap | src/main/utils/user.py:88 | the Gregorian rule: years divisible by 400 are leap; other centuries are not; other multiples of 4 are; the rest are not |
| Calendar.DaysInMonth | src/main/utils/user.py:88 | every month has 28 to 31 days |
| Calendar.Before | src/main/utils/user.py:57 | `date <`: never holds between equal dates, and on valid dates it is the order of the numbers `YYYYMMDD` |
| Calendar.Tomorrow | src/main/utils/user.py:88 | the day after a valid date is valid and later, and it fails only at `date.max` |
| Calendar.DayNumber | src/main/utils/user.py:88 | the day number of a valid date is positive |
| Calendar.BeforeIffEarlierDay | src/main/utils/user.py:57 | date comparison agrees with comparison of day numbers |
| Calendar.TomorrowIsNextDay | src/main/utils/user.py:88 | adding one day adds one to the day number |
| Calendar.TomorrowIsNext | src/main/utils/user.py:88 | no valid date lies strictly between a date and the day after |
| Calendar.MonthsFillYear | src/main/utils/user.py:88 | the twelve month lengths add up to the year length (365 or 366) |
| User.FullName | src/main/utils/user.py:28-33 | raises `ValueError` exactly when either name is empty; otherwise the length is the sum of the three parts |
| User.FullNameDefault | src/main/utils/user.py:5-33 | with the default separator: raises `ValueError` exactly when either name is empty, otherwise gives the family name, one space, then the given name |
| User.FullNameParts | src/main/utils/user.py:33 | the full name splits back into family name, separator and given name |
| User.Strftime | src/main/utils/user.py:60 | `strftime("%Y%m%d")` of a valid date is eight digits |
| User.ToInt | src/main/utils/user.py:60 | `int(strftime("%Y%m%d"))` is `Y*10000 + M*100 + D` |
| User.AgeByDivision | src/main/utils/user.py:61 | the difference of the YYYYMMDD numbers, floor-divided by 10000, is the number of completed years |
| User.TimeBasisAge | src/main/utils/user.py:57-61 | raises `ValueError` exactly when `today < birthday`; otherwise the age is the number of completed years, never negative |
| User.AgeZeroOnBirthday | src/main/utils/user.py:61 | the age on the birthday itself is 0 |
| User.AgeMonotone | src/main/utils/user.py:61 | the age does not decrease as `today` moves forward |
| User.LeapDayBirthday | src/main/utils/user.py:61 | someone born on 29 February ages on 29 February in a leap year and on 1 March otherwise, not on 28 February |
| User.DateBasisAge | src/main/utils/user.py:85-89 | raises `ValueError` exactly when `today < birthday` and `OverflowError` at `date.max`; otherwise the age is the completed years as of the next day |
| User.DateBasisAgeBounds | src/main/utils/user.py:88-89 | the date-basis age is the time-basis age or one more |
| User.MarchFirstBirthday | src/main/utils/user.py:88-89 | someone born on 1 March ages by date basis on 29 February in a leap year and on 28 February otherwise |

## Left out

- `from_file` and `save`, in both revisions, read and write files. The model has only the
  parse/format step they wrap.
- `from_string` of `versioning.py` calls `parse_version`, which the module never defines, so it
  raises `NameError`. It is not modelled.
- `bump_to_release` and `bump_to_snapshot` of `versioning.py` call `self.bump_to_suffix`, which the
  class `Version` does not have, so they raise `AttributeError`. They are not modelled.
- The mechanics of `comparable.py` are not modelled: class mutation by the metaclass and the
  decorator, the lookup of a target method by name, and `NotImplemented`. The model is the six
  relations derived from a `compare` function.
- Python's runtime types are not modelled. Arguments of the wrong type, for example a non-int
  component or a non-str suffix, do not occur: the model's types exclude them.
- Collections.Flatten: set iteration order is an input, because the model receives a set as the
  sequence Python would iterate. Values that are not containers are kept opaque: ints, strings,
  `None`, dicts, and `Other` for anything else (floats, frozensets, bytes, objects).
- Collections.Flatten: Python's generator recurses through `yield from`. Nesting deeper than the
  interpreter's recursion limit raises `RecursionError`, and so does a list that contains itself.
  The model's values are finite trees with no depth limit, so it has neither error and always
  returns the leaves.
- Collections.Frequencies: `counts[value]` raises `TypeError` for an unhashable value such as a
  list. The model accepts any type with equality and does not raise that error.
- Collections.Chunked: returns the whole list of tuples rather than a lazy iterator.
- Collections.Frequencies: keys are compared with Dafny equality. Python's `hash`/`__eq__` corner
  cases, such as `1 == 1.0 == True`, are not modelled.
- The helper modules for files, modules, configuration, the MySQL example and task running are
  not part of this model. They do file-system walking, dynamic import, YAML parsing, a database
  connection and shell tasks.
- The test module `app/src/test/python/myapp/utilities/test_application_version.py` exercises a
  revision whose source is not part of this model. Its expectations are not modelled.
- ApplicationVersion.New: the default `suffix=None` is not a separate member. A caller that omits
  the suffix is modelled by passing `None`. The same holds for `ApplicationVersion.BuildVersionString`
  and for the constructor of the older revision (`Versioning.Version`).
- ApplicationVersion.ParseVersionString: CPython limits int/str conversion to `int_max_str_digits`
  (4300 digits by default on recent interpreters). A numeric group longer than that raises a plain
  `ValueError` in `int(...)`. The model reads it as an ordinary number and succeeds.
- ApplicationVersion.BumpMajor, ApplicationVersion.BumpMinor, ApplicationVersion.BumpPatch and
  ApplicationVersion.New: they build the version string, so under the same `int_max_str_digits`
  limit Python raises `ValueError` for a component too long to format (for example `bump_major` on
  a major number of 4300 nines). In the model they do not fail.
- ApplicationVersion.BuildVersionString: for the same limit, formatting a component of more than
  `int_max_str_digits` digits raises `ValueError` in Python. The model formats it.
- Versioning.ParseVersionString: the same `int_max_str_digits` limit applies, and the model ignores
  it in the same way.
- Versioning.BuildVersionString: the same `int_max_str_digits` limit applies, and the model ignores
  it in the same way.
- User.TimeBasisAge and User.DateBasisAge: dates before year 1 or after year 9999 cannot be built,
  as in `datetime.date`.
