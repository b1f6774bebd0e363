# filefinder in Dafny

A model of the core of *filefinder*, a Python library that finds files
matching a filename pattern and reads values (dates, parameters) out of
their names. A pattern such as `data_%(Y)_%(m:fmt=02d).nc` is called a
*pre-regex*; each `%(...)` is a *matcher* (one *group* of the pattern).

The model follows the package one source file at a time:

| Dafny module | source | what it holds |
|---|---|---|
| `Common` | — | Option / Result, the error kinds the source raises, Python values, `s[k]` with negative indices |
| `Strings` | — | the parts of Python's `str` and `re.escape` the core relies on |
| `Format` | `src/filefinder/format.py` | the format-spec grammar, `get_format`, the regex each format generates, `remove_special` and integer parsing |
| `Groups` | `src/filefinder/group.py` | definition parsing (duplicate check, defaults, `:fmt=`, `:rgx=`, `:bool=`, `:opt`, `:discard`), the `%L` shortcut expansion, `fix_value`, `unfix`, `get_regex` |
| `Util` | `src/filefinder/util.py` | `datetime_to_str`, `datetime_to_value`, `get_groups_indices`, `get_unique_name` |
| `Matching` | `src/filefinder/matches.py` | `Match` with its parse cache, `Matches` selection by key, discarded groups, first-value-wins lookup, `from_filename` |
| `Matchers` | `src/filefinder/matcher.py` | the older `Matcher` / `Match` API: matcher text parsing, regex building, key selection |
| `Library` | `src/filefinder/library.py` | `get_date`: recovering a date from matches, with calendar arithmetic for day-of-year and month names |
| `Finders` | `src/filefinder/finder.py` | the `Finder` class: scanning the pre-regex, fixing and unfixing matchers, building the regex, generating a filename, filtering walked files, nesting results by group |
| `Filters` | `src/filefinder/filters.py` | filters as records and the `FilterList` class: add, clear, remove by group or date, validation |

Code that works on values (format parsing, regex building, date
arithmetic) is written as functions with lemmas. Objects whose fields the
source updates (`Group`, `Match`, `Matches`, `Finder`, `FilterList`) are
classes whose methods are proved against specification functions. The
regex engine, `str.format`, `strftime`, a group's value parser, the
directory walk and user filter functions are parameters of the model.
`group.py` defines no `parse` method, although `matches.py:77` calls
`self.group.parse`; as written that call always raises AttributeError.
The parser parameter covers this: the parser that always fails is one of
its instances, so every property proved for all parsers holds of the
program as written, and `Matching.MissingParserFails` and
`Filters.MissingParserArgument` spell out what it then does.

Where the package's documentation and its code differ, the model follows
the code, with two exceptions recorded under "## Findings":
`Finders.Finder.GetFilename` raises TypeError for any unfixed matcher, the
first one included, and `Filters.FilterList.AddByGroup` keeps its keyword
arguments, as the code evidently intends. Elsewhere:

- the `:bool=A:B` alternation becomes the regex `A|B` without escaping, and
  the `%L` shortcut expansion is applied to it like to any other regex;
- the "no regex produced" check of `group.py` compares with None while the
  regex starts as the empty string, so a group that is neither a default
  nor given a format, a regex or options is accepted with an empty regex;
- no "dangerous" fill, align and sign combination is rejected:
  `format.py` has no such check;
- `get_date` does not check that date elements agree: later elements
  overwrite earlier ones in a fixed order.

## Model

| member | source | states |
|---|---|---|
| Format.MatchSpecIff | src/filefinder/format.py:30-38 | the hand-written reader of FORMAT_REGEX accepts a spec exactly when it is the rendering of a well-formed capture record, and then returns that record |
| Format.MatchSpecSound | src/filefinder/format.py:30-38 | what the reader captures is well formed and renders back to the spec it read |
| Format.MatchSpecComplete | src/filefinder/format.py:30-38 | every well-formed capture record is read back from its rendering |
| Format.MatchSpecWellFormed | src/filefinder/format.py:30-38 | captures are well formed: a fill only with an align, a width starting with '0' only after the zero flag |
| Format.SetDefaultsEffect | src/filefinder/format.py:300-306 | after the defaults every parameter is set; set ones are unchanged, unset ones hold their default |
| Format.SettledParams | src/filefinder/format.py:289-306 | the dictionary after the special case and the defaults holds exactly the parameters the resolved format uses |
| Format.ApplyDefaults | src/filefinder/format.py:304-306 | the defaults loop gives the same dictionary as applying every default in order |
| Format.GetFormat | src/filefinder/format.py:284-318 | the step-by-step `get_format` returns the format `FormatOf` describes, and the same errors |
| Format.WidthTextValue | src/filefinder/format.py:309 | `int(width)` reads the captured width digits, 0 when absent |
| Format.PrecisionTextValue | src/filefinder/format.py:310 | `int(precision.removeprefix("."))` reads the captured precision, 6 when absent |
| Format.FormatOfValueError | src/filefinder/format.py:286-288 | ValueError is raised exactly when no capture record renders to the spec |
| Format.FormatOfErrors | src/filefinder/format.py:312-317 | once a spec is in the grammar, the only failure is a KeyError for a type outside `sdfeE` |
| Groups.FormatOfErrorKinds | src/filefinder/format.py:286-317 | reading a spec can fail only with ValueError or KeyError |
| Format.ResolveFields | src/filefinder/format.py:291-310 | zero flag without align gives fill '0' and align '='; each other unset parameter takes its default (align '>', fill ' ', sign '-', width 0, precision 6, no grouping) |
| Format.FormatOfFields | src/filefinder/format.py:284-318 | the fields of a format read from a spec are those ResolveFields gives its captures |
| Format.FormatOfWellFormed | src/filefinder/format.py:296-306 | every resolved format has a sign in `-+ `, an align in `<>=^`, a non-negative width and precision, a type in `sdfeE` and a grouping of none, `,` or `_` |
| Format.FillRegexUnescapes | src/filefinder/format.py:91-93 | the fill regex is a pattern followed by `*` whose unescaping is exactly the fill character |
| Format.LeftOfDecimal | src/filefinder/format.py:168-177 | `\d+` without grouping; with grouping one to three digits, then any number of groups of the grouping character and three digits |
| Format.LeftOfDecimalGrouping | src/filefinder/format.py:168-177 | the digit run holds a grouping character exactly when the format groups its digits |
| Format.GroupedIntegerRegex | src/filefinder/format.py:168-177 | the regex of `,d` is `-?\d?\d?\d(?:,\d{3})*` |
| Format.AddOuterAlignment | src/filefinder/format.py:95-114 | the expression is wrapped between a prefix and a suffix, each either empty or the fill regex: both empty without a width or with '=' alignment, the prefix set only for '>' and '^', the suffix only for '<' and '^' |
| Format.SignRegex | src/filefinder/format.py:179-193 | '-' gives `-?`, '+' gives `[+-]`, ' ' gives `[\s-]`, any other sign KeyError; the fill regex follows with a width and '=' alignment |
| Format.RightOfDecimal | src/filefinder/format.py:226-237 | a decimal point when the precision is non-zero or alternate is set, then exactly `precision` digits |
| Format.GenerateExpression | src/filefinder/format.py:139-272 | the only error generating a regex can raise is the KeyError of an unknown sign |
| Format.GenerateExpressionTotal | src/filefinder/format.py:179-188 | a format read from a spec always yields a regex: the KeyError branch of the sign regex is unreachable |
| Format.FormatOfExample | src/filefinder/format.py:284-318 | reading a spec with given captures yields the format the resolution rules predict |
| Format.FormatOfRendered | src/filefinder/format.py:284-318 | a spec in the grammar builds exactly when its type has a Format class, and raises KeyError otherwise |
| Format.UnknownTypeFormat | src/filefinder/format.py:312-316 | `q` is in the grammar but has no Format class: KeyError |
| Format.ZeroPaddedFloatFormat | src/filefinder/format.py:295-298 | `05.3f` reads as fill '0', align '=', width 5, precision 3 |
| Format.ZeroPaddedFloatRegex | src/filefinder/format.py:253-262 | the regex of `05.3f` is `-?0*\d+\.\d{3}` |
| Format.CentredIntegerFormat | src/filefinder/format.py:284-310 | `a^5d` reads as fill 'a', centred, width 5 |
| Format.CentredIntegerRegex | src/filefinder/format.py:214-218 | the regex of `a^5d` is `a*-?\d+a*` |
| Format.ExponentFormat | src/filefinder/format.py:284-310 | `.2E` reads as an exponent format with precision 2 and no width |
| Format.ExponentRegex | src/filefinder/format.py:264-272 | the regex of `.2E` is `-?\d\.\d{2}E[+-]\d+` |
| Format.RemoveSpecial | src/filefinder/format.py:154-166 | the result is no longer than the input and holds no grouping character, nor the fill unless it is '0' |
| Format.RemoveSpecialKeeps | src/filefinder/format.py:154-166 | a string without removable characters is kept whole |
| Format.RemoveSpecialIdempotent | src/filefinder/format.py:154-166 | removing special characters twice is removing them once |
| Format.RemoveSpecialRepeat | src/filefinder/format.py:162-166 | a run of fill characters other than '0' disappears entirely |
| Format.ParseInteger | src/filefinder/format.py:201-212 | `int()` of the text once grouping and fill characters are removed: it succeeds exactly when that text is an optional sign followed by digits, fails only with ValueError, and is plain `int()` when nothing is removed |
| Format.ParseIntegerFillPadded | src/filefinder/format.py:201-212 | an integer padded on the left with a fill that is not '0', a digit or '-' parses back to itself |
| Format.ParseIntegerZeroPadded | src/filefinder/format.py:201-212 | a zero-padded integer parses back to itself |
| Groups.SortByStart | src/filefinder/group.py:175 | the stable sort by start is a permutation of the spans |
| Groups.SortByStartSorted | src/filefinder/group.py:175 | the sorted spans are ordered by start |
| Groups.CheckDuplicates | src/filefinder/group.py:155-192 | the duplicate check passes exactly when the sorted spans followed by `(n, n)` chain from 0 |
| Groups.ChainsCovers | src/filefinder/group.py:181-192 | passing the check leaves no position of the definition unaccounted for |
| Groups.ChainsDisjoint | src/filefinder/group.py:181-192 | the spans of a passing chain lie inside the definition, in order and pairwise disjoint |
| Groups.TilesChain | src/filefinder/group.py:181-192 | spans that tile the definition, sorted, pass the check |
| Groups.SortTiles | src/filefinder/group.py:175 | whether spans tile the definition does not depend on their order |
| Groups.CheckDuplicatesTiles | src/filefinder/group.py:155-192 | the check passes exactly when the non-empty captured spans tile the whole definition, so an overwritten duplicate spec is always reported |
| Groups.DefaultRegexShortcuts | src/filefinder/group.py:54-69 | the default regexes of `x`, `X` and `F` expand without nested shortcuts, and every other default regex holds no '%' |
| Groups.ReplaceIn | src/filefinder/group.py:194-218 | expanding `%L` shortcuts fails only with KeyError; what each shortcut gives is stated by the Replace lemmas below |
| Groups.ReplaceInPlain | src/filefinder/group.py:218 | a character other than `%` is copied through unchanged and the rest of the pattern is expanded on its own |
| Groups.ReplaceInShortcut | src/filefinder/group.py:208-215 | `%%` becomes a single `%`, and a known letter whose default regex has no `%` becomes that regex |
| Groups.ReplaceInNestedShortcut | src/filefinder/group.py:211-214 | a default regex that itself holds `%` is expanded recursively before being substituted |
| Groups.ReplaceEscapedPercent | src/filefinder/group.py:207-210 | writing every `%` as `%%` is undone by the expansion |
| Groups.ReplaceWithoutPercent | src/filefinder/group.py:218 | a regex without `%` is left unchanged |
| Groups.ReplaceDigitsAndPercent | src/filefinder/group.py:207-218 | `-100%%` expands to `-100%` |
| Groups.ReplaceYearAndPercent | src/filefinder/group.py:207-218 | `%Y-100%%` expands to `\d{4}-100%` |
| Groups.MonthDayExpands | src/filefinder/group.py:211-215 | `%m%d` expands to `\d\d\d\d` |
| Groups.DateDefaultExpands | src/filefinder/group.py:211-215 | `%Y%m%d` expands to `\d{4}\d\d\d\d` |
| Groups.ReplaceDateShortcut | src/filefinder/group.py:211-215 | `%x` expands through its default regex to `\d{4}\d\d\d\d` |
| Groups.ReplaceInLonePercent | src/filefinder/group.py:218 | a `%` followed by neither a letter nor `%`, or at the end, is copied through |
| Groups.ReplaceInUnknownLetter | src/filefinder/group.py:211-216 | `%` and any letter that names no default group raise KeyError, whatever follows |
| Groups.ReplaceUnknownShortcut | src/filefinder/group.py:216 | `%e` is an unknown shortcut: KeyError |
| Groups.InitialFormatOf | src/filefinder/group.py:85 | `get_format("s")` is the initial format of a group |
| Groups.ResolveSpecsErrors | src/filefinder/group.py:111-153 | resolving accepted specs fails only with the ValueError or KeyError of a format or a shortcut |
| Groups.ResolveErrors | src/filefinder/group.py:103-108 | GroupParseError is raised exactly when the definition is not accepted: it does not match PATTERN or holds a duplicate spec |
| Groups.RgxSpecWins | src/filefinder/group.py:147-153 | `:rgx=` wins over the default, `:fmt=` and `:bool=`: the regex is its expansion |
| Groups.FmtSpecReplaces | src/filefinder/group.py:132-135 | `:fmt=` replaces the format; without `:rgx=` and `:bool=` the regex is the one generated from it |
| Groups.DefaultSeeds | src/filefinder/group.py:114-117 | without specs the default group seeds the regex and format (or "" and `s` for an unknown name) |
| Groups.SplitOnceAt | src/filefinder/group.py:140 | `split(":", maxsplit=1)` of `a:b` is `[a, b]` when `a` holds no ':' |
| Groups.BoolOptions | src/filefinder/group.py:138-144 | `:bool=A:B` gives options `(B, A)` and regex `A|B`; a bare `:bool=A` gives `("", A)` and `A|` |
| Groups.EmptyRegexAccepted | src/filefinder/group.py:150-151 | the "no regex" check compares with None while the regex starts as "", so a name without default or specs is accepted with an empty regex |
| Groups.FixItems | src/filefinder/group.py:245-261 | a boolean picks one of the options (ValueError without them), a single value becomes a one-element list, an empty list is a ValueError |
| Groups.FixTexts | src/filefinder/group.py:263-271 | one text per value: strings verbatim, others formatted and, for a regex, escaped |
| Groups.FixedStringAlternatives | src/filefinder/group.py:263-277 | for a regex the fixed string is the alternation of the texts: splitting on `|` gives them back |
| Groups.FixedStringForFilename | src/filefinder/group.py:274-277 | for a filename only the first value counts, unescaped |
| Groups.FixedValueEscaped | src/filefinder/group.py:268-270 | a formatted value fixed in a regex unescapes to the formatted value |
| Groups.FixedBoolean | src/filefinder/group.py:248-250 | a boolean fix is the option it indexes, verbatim |
| Groups.Wrap | src/filefinder/group.py:297-300 | the regex in a capturing group, then `?` when optional; reading it back gives the regex and the flag |
| Groups.Group.constructor | src/filefinder/group.py:75-97 | a new group holds its definition, index and parser, with empty name and regex, format `s`, no options and nothing fixed |
| Groups.Group.ParseDefinition | src/filefinder/group.py:101-153 | from the initial attributes, the attributes become those ResolveDefinition gives the definition, or the error it names is raised |
| Groups.Group.ApplySpecs | src/filefinder/group.py:111-153 | the default, `:fmt=`, `:bool=` and `:rgx=` stages leave the attributes ResolveSpecs describes |
| Groups.Group.ApplyDefault | src/filefinder/group.py:114-117 | a known name seeds the regex and format from its default group |
| Groups.Group.ApplyFormat | src/filefinder/group.py:132-135 | `:fmt=` replaces the format, and the regex unless `:rgx=` is given |
| Groups.Group.ApplyOptions | src/filefinder/group.py:138-144 | `:bool=` sets the options and the regex to the alternation |
| Groups.Group.ApplyRegex | src/filefinder/group.py:147-153 | `:rgx=` replaces the regex, whose shortcuts are then expanded |
| Groups.Group.FixValue | src/filefinder/group.py:232-277 | the fixed value is recorded and the other attributes are unchanged; the fixed string becomes FixedStringOf of it and the group's regex is that string wrapped, or the error it names is raised and the fixed string keeps its old value |
| Groups.Group.Unfix | src/filefinder/group.py:279-282 | fixed value and fixed string are cleared, the other attributes are unchanged, and the group's regex is again its own regex, wrapped |
| Groups.Group.GetRegex | src/filefinder/group.py:284-302 | the fixed string when set, else the regex, wrapped as one capturing group, optional with `:opt` |
| Groups.NewGroup | src/filefinder/group.py:75-99 | `Group(definition, idx)` either holds the resolved attributes with nothing fixed, or raises the resolution's error |
| Util.DatetimeToStr | src/filefinder/util.py:11-28 | KeyError exactly for an element outside `YBmdjHMSFxX`; otherwise the date formatted with the element's directive (`x`, `X` and `F` expanded) |
| Util.DatetimeToValue | src/filefinder/util.py:31-38 | KeyError for an unknown element; a text value only for `x`, `X`, `F` and `B`, a numeric value only for the other elements |
| Util.DatetimeStringElements | src/filefinder/util.py:36-37 | a text element gives the formatted date verbatim |
| Util.DatetimeNumericElements | src/filefinder/util.py:38 | a numeric element gives the number its zero-padded text reads as |
| Util.DatetimeUnknownElement | src/filefinder/util.py:16-17 | an element outside the known keys raises KeyError in both functions |
| Util.SubstringElementAccepted | src/filefinder/util.py:16 | the membership test is a substring test, so `Bm` passes it and is formatted as `%Bm` |
| Util.IncreasingUnique | src/filefinder/util.py:68-72 | a strictly increasing index list is determined by the indices it holds |
| Util.SelectIndices | src/filefinder/util.py:68-72 | the selected indices are increasing and are exactly the groups whose name is the key (or a date element, for `date`) |
| Util.GroupsIndices | src/filefinder/util.py:51-78 | an integer key is returned alone, a non-string key is a TypeError, a name selects its groups in order, IndexError when none |
| Util.DateKeyIsSubstringTest | src/filefinder/util.py:67-72 | with date as first class, `date` selects the groups named `Bm` and `Y` but not `date`; without, only the group named `date` |
| Util.CandidateInjective | src/filefinder/util.py:84-87 | different counters give different candidate names |
| Util.CandidateNotBelow | src/filefinder/util.py:84-87 | a candidate is never one of those with a smaller counter |
| Util.CandidatesBelowIn | src/filefinder/util.py:85-87 | when every earlier candidate exists, the set of earlier candidates is inside the existing names |
| Util.UniqueName | src/filefinder/util.py:81-88 | the name returned is not among the existing ones, starts with the given name, and is the first candidate `name__i` that is free |
| Matching.Outcome | src/filefinder/matches.py:75-81 | parsing gives the parsed value, or PARSE_FAIL exactly when the parser raises; never NOT_PARSED |
| Matching.MissingParserFails | src/filefinder/matches.py:75-81 | with a parser that always raises AttributeError, as `group.parse` does as written, the outcome is PARSE_FAIL and asking for the parsed value gives ValueError when raising is on and the matched text otherwise |
| Matching.MatchValue | src/filefinder/matches.py:87-112 | ValueError exactly when a parse is asked, raising is on and the parse fails; a parsed value when asked and available; the matched text otherwise |
| Matching.Match.constructor | src/filefinder/matches.py:49-58 | a match holds its group, text and span, not yet parsed |
| Matching.Match.MatchParsed | src/filefinder/matches.py:68-81 | the cached outcome is the parse outcome of the text, and once cached it never changes |
| Matching.Match.CanParse | src/filefinder/matches.py:83-85 | true exactly when the group's parser accepts the matched text; the cache is filled |
| Matching.Match.GetMatch | src/filefinder/matches.py:87-112 | the value MatchValue gives the parse outcome; without parsing the cache is untouched |
| Matching.SubsequenceReflexive | src/filefinder/matches.py:273-274 | a list is a subsequence of itself |
| Matching.KeepUndiscarded | src/filefinder/matches.py:273-274 | the kept matches are, in order, exactly the matches whose group is not discarded; nothing is dropped when no group is discarded |
| Matching.ValuesOf | src/filefinder/matches.py:220 | one value per match, each the match's value, or ValueError when any match fails to parse |
| Matching.Matches.constructor | src/filefinder/matches.py:169-177 | the matches and groups are stored and date is a first-class key |
| Matching.Matches.GetMatches | src/filefinder/matches.py:257-275 | errors of the key lookup are passed on; the selected matches are picked by index (negative indices from the end, IndexError when out of range) and, unless discarded groups are kept, only the undiscarded ones remain, in order |
| Matching.Matches.Values | src/filefinder/matches.py:202-221 | the values of the selected matches, or the first error met |
| Matching.Matches.Value | src/filefinder/matches.py:223-255 | the first selected value; KeyError when no match is selected |
| Matching.Matches.GetValues | src/filefinder/matches.py:202-221 | the step-by-step method returns Values of the state before the call |
| Matching.Matches.GetValue | src/filefinder/matches.py:223-255 | the step-by-step method returns Value of the state before the call |
| Matching.Matches.GetItem | src/filefinder/matches.py:187-192 | `matches[key]` is the parsed first value, discarded groups skipped |
| Matching.ReadAll | src/filefinder/matches.py:220 | reading each match in turn gives ValuesOf the matches |
| Matching.DiscardedKeyMisses | src/filefinder/matches.py:243-249 | a key whose groups are all discarded raises KeyError through `matches[key]`, although matches exist for it |
| Matching.FirstValueWins | src/filefinder/matches.py:245-255 | when several matches are selected, the value is that of the first one, whatever the others hold |
| Matching.FromFilename | src/filefinder/matches.py:128-167 | no match gives None; a capture count other than the group count is an IndexError; otherwise a new Matches with one new unparsed match per group, holding its capture |
| Matchers.NewMatcher | src/filefinder/matcher.py:99-161 | InvalidMatcher without a fullmatch, NameError without a name, ValueError for an empty `:rgx=` or `:fmt=`, the error building the name's default format or the explicit format raises, then the error generating the regex from an explicit format when no regex is given, KeyError when no regex can be produced; otherwise every format it names was built and the matcher keeps its source, group, name and discard flag, takes an explicit format or the name's default one, `:opt=A:B` as the pair (A, B) with regex `A|B`, a bare `:opt` as True, an explicit regex over everything, and otherwise the regex generated from the explicit format or else the name's default regex; these are the format module's errors and regex when the format operations follow `get_format` (`Matchers.FollowsGetFormat`; see DefaultMatcher, ExplicitFormatFails and ExplicitFormatRegex) |
| Matchers.BuildError | src/filefinder/format.py:284-322 | `Format(spec)`, the alias of `get_format`, builds exactly when the format module reads a format from the spec, and otherwise raises that error |
| Matchers.Generate | src/filefinder/matcher.py:141-143 | `Format(spec).generate_expression()` raises the building error, or is the regex the format module generates for the format read |
| Matchers.GetFormatOps | src/filefinder/format.py:321-322 | the format operations built from `get_format` follow it, whatever parser and rendering they carry |
| Matchers.DefaultFormatBuilds | src/filefinder/matcher.py:51-66 | every default format of DEFAULT_ELTS builds and generates a regex |
| Matchers.ZeroPaddedIntegerBuilds | src/filefinder/matcher.py:51-66 | the zero-padded integer formats `0Nd` of the defaults build |
| Matchers.DefaultMatcher | src/filefinder/matcher.py:135-137 | with `get_format`, a known name without `:fmt=`, `:rgx=` or `:opt` always gives a matcher with the name's default regex and format |
| Matchers.YearMatcher | src/filefinder/matcher.py:51-66 | `%(Y)` is a matcher for `\d{4}` with format `04d` |
| Matchers.ExplicitFormatFails | src/filefinder/matcher.py:139-141 | with `get_format`, an explicit `:fmt=` that does not build makes the matcher raise exactly the format module's error |
| Matchers.UnknownTypeMatcher | src/filefinder/matcher.py:139-141 | `:fmt=q` raises KeyError, whatever the name |
| Matchers.ExplicitFormatRegex | src/filefinder/matcher.py:139-143 | with `get_format`, an explicit format that builds always generates a regex, and without `:rgx=` or `:opt=A:B` that regex is the matcher's |
| Matchers.ZeroPaddedFloatMatcher | src/filefinder/matcher.py:139-143 | `:fmt=05.3f` gives the regex `-?0*\d+\.\d{3}` |
| Matchers.Replacement | src/filefinder/matcher.py:179-188 | `%%` gives `%`; an unknown letter is a KeyError; a default regex holding `%` (`x`, `X`, `F`) makes the recursive call with an argument `get_regex` does not take, a TypeError |
| Matchers.Substitute | src/filefinder/matcher.py:190 | substituting the `%L` shortcuts fails only with KeyError or TypeError |
| Matchers.SubstituteWithoutPercent | src/filefinder/matcher.py:190 | a regex without `%` is unchanged |
| Matchers.SubstituteEscapedPercent | src/filefinder/matcher.py:179-190 | writing every `%` as `%%` is undone by the substitution |
| Matchers.CompositeReferenceFails | src/filefinder/matcher.py:183-186 | the first shortcut to `%x`, `%X` or `%F` makes the substitution fail with TypeError |
| Matchers.GetRegex | src/filefinder/matcher.py:166-198 | fails exactly when the substitution fails; otherwise the substituted regex in parentheses, followed by `?` exactly when the option is True |
| Matchers.NewOldMatch | src/filefinder/matcher.py:218-229 | a match holds its matcher, text and span; the parsed value is the format's parse of the text, None without a format or when parsing fails |
| Matchers.GetMatch | src/filefinder/matcher.py:237-245 | the parsed value when asked for and available, the matched text otherwise |
| Matchers.NewOldMatches | src/filefinder/matcher.py:266-278 | ValueError without a fullmatch, IndexError for a capture count other than the matcher count, otherwise one match per matcher from its capture |
| Matchers.KeyParts | src/filefinder/matcher.py:332-336 | a key without ':' is a bare name; otherwise the group is the text before the first ':' and the name the text up to the next ':' |
| Matchers.AnsweringIndices | src/filefinder/matcher.py:337-340 | the indices, increasing, of exactly the matchers with the name (and the group when one is given) |
| Matchers.MatchersIndices | src/filefinder/matcher.py:315-346 | an integer key is returned alone, a non-string key is a TypeError, a string key selects the answering matchers in order, IndexError when none answers |
| Matchers.GetMatchersIndices | src/filefinder/matcher.py:315-346 | the loop returns MatchersIndices |
| Matchers.GroupNameKey | src/filefinder/matcher.py:332-340 | `group:name` selects exactly the matchers with that group and name |
| Matchers.GetMatches | src/filefinder/matcher.py:295-312 | the matches picked by the selected indices (negative ones from the end, IndexError out of range), a single match directly when only one is selected |
| Library.AddDays | src/filefinder/library.py:61 | `datetime + timedelta(days=n)` on the proleptic Gregorian calendar: a valid day, or OverflowError past year 9999 or before year 1 |
| Library.AddDaysLast | src/filefinder/library.py:61 | adding one more day is one calendar step after the previous sum, OverflowError once the year passes 9999 |
| Library.NextDayInYear | src/filefinder/library.py:61 | a step within the year increases the day of the year by one |
| Library.AddDaysInYear | src/filefinder/library.py:61 | adding `k` days that stay in the year succeeds and advances the day of the year by `k` |
| Library.DaysBeforeMonotone | src/filefinder/library.py:61 | the days before a month grow by at least each month's length |
| Library.DayOfYearBound | src/filefinder/library.py:61 | the day of the year of a valid day lies between 1 and the year's length |
| Library.DayOfYearInjective | src/filefinder/library.py:61 | two days of one year with the same day of the year are the same day |
| Library.DaysInYearValue | src/filefinder/library.py:61 | a year has 366 days when leap, 365 otherwise |
| Library.DayOfYearFromJanuary | src/filefinder/library.py:60-62 | 1 January plus (day of the year - 1) days is the day itself |
| Library.AbbreviationsArePrefixes | src/filefinder/library.py:117-120 | twelve month names, each abbreviation the first three letters of its name |
| Library.FindMonthNumber | src/filefinder/library.py:111-128 | a month number exactly when the lower-cased name is a month name or abbreviation, and then the number of that month |
| Library.LowerIdempotent | src/filefinder/library.py:122 | lower-casing twice is lower-casing once |
| Library.FindMonthNumberIgnoresCase | src/filefinder/library.py:111-128 | the month number does not depend on the case of the name |
| Library.MonthNamesDistinct | src/filefinder/library.py:117-126 | month names are distinct, and so are abbreviations, so `index` finds the month |
| Library.LowerOfLower | src/filefinder/library.py:122 | a string without capitals is its own lower-case form |
| Library.MonthNameNumber | src/filefinder/library.py:123-124 | a month's full name in any case gives its number |
| Library.MonthAbbreviationNumber | src/filefinder/library.py:125-126 | a month's abbreviation in any case gives its number |
| Library.CapitalisedMonth | src/filefinder/library.py:111-128 | `March` is month 3 |
| Library.UnknownMonth | src/filefinder/library.py:127-128 | `smarch` is no month |
| Library.Elements | src/filefinder/library.py:71-73 | the elements are keyed by the names of the undiscarded matches of the group, each holding the text of the last such match of its name |
| Library.PendingFromSources | src/filefinder/library.py:84-101 | what the decomposition leaves for Y, m, d, H, M and S depends only on the x, F, X and those elements |
| Library.PendingWithoutComposites | src/filefinder/library.py:84-101 | without x, F and X the plain elements are left as they are |
| Library.IntOr | src/filefinder/library.py:51-52 | a present element is read with `int` (ValueError when it is no integer); an absent one keeps the current field |
| Library.DoyMonthDay | src/filefinder/library.py:60-62 | a year outside 1..9999 is a ValueError; otherwise the month and day are in range |
| Library.MakeDate | src/filefinder/library.py:64-108 | `datetime(**date)` succeeds exactly when every default key is a date field and the fields make a valid date: TypeError for an unknown key, ValueError for an invalid date |
| Library.DateOf | src/filefinder/library.py:17-108 | any date recovered is a valid calendar date |
| Library.SetField | src/filefinder/library.py:49 | updating one field sets it and leaves the others |
| Library.IntsOfStep | src/filefinder/library.py:45-52 | reading the integer elements pops the first name, sets its field, then goes on with the rest |
| Library.IntsOfThree | src/filefinder/library.py:104-106 | reading three names sets each field in order, stopping at the first element that is no integer |
| Library.GetInts | src/filefinder/library.py:45-52 | the loop computes the element-by-element reading |
| Library.PopMonthName | src/filefinder/library.py:54-81 | a month name sets the month when recognised, and is popped whatever it holds |
| Library.SplitF | src/filefinder/library.py:84-88 | `F` is popped and its slices `[:4]`, `[5:7]`, `[8:10]` replace Y, m and d; other elements are kept |
| Library.SplitDate | src/filefinder/library.py:90-94 | `x` is popped and its slices `[:4]`, `[4:6]`, `[6:8]` replace Y, m and d; other elements are kept |
| Library.SplitTime | src/filefinder/library.py:96-101 | `X` is popped and its slices give H and M, and S only when it is longer than four characters; other elements are kept |
| Library.Decompose | src/filefinder/library.py:83-101 | after F, x and X are decomposed in that order, Y, m, d, H, M and S hold what Pending predicts, and j is untouched |
| Library.ReadDay | src/filefinder/library.py:104-105 | Y, m, d then j give the calendar day DayFrom describes, the time untouched, H, M and S still pending |
| Library.ReadTime | src/filefinder/library.py:106 | H, M and S give the time TimeFrom describes, the day untouched |
| Library.PopNamesAndComposites | src/filefinder/library.py:80-101 | after the month name and the composites the day and time still to read are those the original elements determine |
| Library.GetDate | src/filefinder/library.py:17-108 | the step-by-step `get_date` returns DateOf of the elements the matches give |
| Library.PaddedField | src/filefinder/library.py:52 | a zero-padded number of `w` digits reads back as itself with `int` |
| Library.PaddedFields | src/filefinder/library.py:52 | each field of a valid date, zero-padded, reads back as itself |
| Library.ElementsRoundTrip | src/filefinder/library.py:17-108 | a date written as its Y, m, d, H, M and S elements is recovered |
| Library.CompositesRoundTrip | src/filefinder/library.py:90-101 | a date written as `%Y%m%d` and `%H%M%S` is recovered |
| Library.IsoDateRoundTrip | src/filefinder/library.py:81-88 | a date written as `%Y-%m-%d` with a time is recovered, whatever the month name element holds, since F overrides it |
| Library.MonthNameRoundTrip | src/filefinder/library.py:54-104 | a date written with a year, a month name and a day is recovered |
| Library.DayOfYearRoundTrip | src/filefinder/library.py:60-62 | the zero-padded day of the year gives back the month and day |
| Library.DayOfYearPastYearEnd | src/filefinder/library.py:60-62 | a day of the year one past the year's end rolls over to 1 January (the year itself is not changed) |
| Library.NoElements | src/filefinder/library.py:64-78 | without date elements the default date is returned, 1970-01-01 00:00:00 when no default is given |
| Library.UnknownDefaultKey | src/filefinder/library.py:69-108 | a default with a key that is not a date field makes `get_date` fail |
| Library.Priorities | src/filefinder/library.py:80-106 | j overrides the month and day, x overrides F, which overrides Y, m, d; X overrides H, M and S |
| Finders.PySet | src/filefinder/finder.py:347 | `segments[k] = v` succeeds exactly for an index in range (negative ones from the end), replacing that one element; IndexError otherwise |
| Finders.Put | src/filefinder/finder.py:217 | `fixed[k] = v` maps `k` to `v`, keeps the other entries and appends `k` to the insertion order only when it is new |
| Finders.Pop | src/filefinder/finder.py:259 | `fixed.pop(k, None)` removes `k` and only `k`, whether or not it was there |
| Finders.Without | src/filefinder/finder.py:259 | removing a key from the insertion order keeps every other key, without repeats |
| Finders.GetMatchers | src/filefinder/finder.py:554-576 | errors of the key lookup are passed on; an integer key gives the matcher at that index (negative from the end, IndexError out of range); a name key succeeds exactly when some matcher answers and gives only matchers that answer |
| Finders.PickOne | src/filefinder/finder.py:575 | picking one index gives the element there, IndexError out of range |
| Finders.NameKeySelectsAll | src/filefinder/finder.py:574-576 | every matcher answering a name key is among those returned |
| Finders.ReplaceMarker | src/filefinder/finder.py:413-414 | a replacement marker between text without `%` is replaced by its text and nothing else changes |
| Finders.StartsFrom | src/filefinder/finder.py:425-426 | the positions after each `%(` in the rest of the pre-regex, all of them, increasing |
| Finders.Starts | src/filefinder/finder.py:425-426 | the matcher starts are exactly the positions of the `(` of each `%(`, increasing |
| Finders.CloseFrom | src/filefinder/finder.py:431-440 | the first `)` that brings the nesting level to zero, the level staying positive before it; None when the level never reaches zero |
| Finders.FindMatcherEnd | src/filefinder/finder.py:431-440 | the loop finds the closing parenthesis MatcherEnd describes |
| Finders.ScanKeeps | src/filefinder/finder.py:430-454 | a successful scan from any point keeps the layout: the matchers built from each closed `%(...)`, in order, each with its pair of splits around its `%(...)` text |
| Finders.ScanEnds | src/filefinder/finder.py:431-448 | a successful scan found the closing parenthesis of every `%(` from its starting point on |
| Finders.SegmentsOf | src/filefinder/finder.py:456-457 | one segment per split: the text from that split to the next, the last one to the end |
| Finders.RegexSlotsFrom | src/filefinder/finder.py:459-461 | each matcher's segment is replaced by its regex, failing exactly when one of the regexes fails; the text segments are kept |
| Finders.ScanOfFound | src/filefinder/finder.py:456-461 | the segments cut at the found splits number twice the matchers plus one, and the scan is the found matchers with each slot's regex written in, or the error a matcher's regex raises |
| Finders.FoundLaysOut | src/filefinder/finder.py:419-454 | the matchers and splits found follow the layout of the pre-regex and every `%(` has an end |
| Finders.ScanSplits | src/filefinder/finder.py:419-461 | a successful scan's segments are the slices at the found splits with each matcher's slot replaced by its regex |
| Finders.ScanShape | src/filefinder/finder.py:419-461 | after a successful scan every `%(` is closed, there are two segments per matcher plus one, each matcher slot holds its regex, and the matchers come from distinct starts in increasing order |
| Finders.UnclosedMatcher | src/filefinder/finder.py:442-448 | a first `%(` that is never closed is a ValueError |
| Finders.LayoutRebuilds | src/filefinder/finder.py:450-457 | cutting the pre-regex at the splits of a layout without nested `%(` gives slices that join back to it, each odd slice being its matcher's `%(...)` text |
| Finders.FoundRebuilds | src/filefinder/finder.py:419-457 | the slices of a successful scan without nested matchers join to the pre-regex, with every matcher's `%(...)` in its odd slot |
| Finders.ScanRebuilds | src/filefinder/finder.py:451-457 | with each matcher slot put back to its `%(...)` text, the segments join to the pre-regex |
| Finders.ScanExtend | src/filefinder/finder.py:450-452 | a matcher built at the next start extends the layout by its two splits |
| Finders.ScanGoesOn | src/filefinder/finder.py:450-452 | the scan after a built matcher continues at the next start |
| Finders.ScanFails | src/filefinder/finder.py:442-454 | no end is a ValueError, an InvalidMatcher is skipped, any other error of the matcher is raised |
| Finders.ScanLoop | src/filefinder/finder.py:428-454 | the loop over the `%(` starts ends with the matchers and splits the scan function gives, or with its error |
| Finders.ScanAt | src/filefinder/finder.py:431-454 | one start of the loop either raises the error the scan raises there or leaves the rest of the scan unchanged |
| Finders.FindMatchers | src/filefinder/finder.py:425-454 | the step-by-step scan returns the matchers and splits Found gives, or its error |
| Finders.RegexSlotsInto | src/filefinder/finder.py:459-461 | the loop writes each matcher's regex into its slot as RegexSlotsFrom describes, or returns its error |
| Finders.Alternative | src/filefinder/finder.py:480-482 | a string value is used verbatim; any other needs the matcher's format (AttributeError without one, IndexError for a missing matcher), and its escaped text unescapes to the formatted value |
| Finders.Alternatives | src/filefinder/finder.py:478-482 | one alternative per value, failing exactly when one of them fails |
| Finders.SlotRegex | src/filefinder/finder.py:474-483 | a fixed slot is a capturing group of: a string verbatim, the strings of a list joined by `|`, a boolean's option when the matcher has a pair of options, or the escaped formatted value |
| Finders.SlotAlternatives | src/filefinder/finder.py:478-483 | the strings of a list fixed into a slot are recovered by splitting it on `|` |
| Finders.RegexWithoutFixes | src/filefinder/finder.py:463-485 | with nothing fixed the regex is the segments joined, text escaped unless regex is allowed outside matchers |
| Finders.FixSelected | src/filefinder/finder.py:213-217 | every selected matcher (discarded ones only when asked) is fixed to the value; other fixes are kept, and earlier keys keep their order |
| Finders.PopSelected | src/filefinder/finder.py:257-259 | the fixes of the selected matchers are removed and the others kept unchanged |
| Finders.FixEach | src/filefinder/finder.py:237-241 | applying the fixes in order keeps the earlier order and fails exactly when a key selects no matcher, with that key's error |
| Finders.FixEachLastWins | src/filefinder/finder.py:240-241 | a matcher fixed by several keys keeps the value of the last one |
| Finders.FixEachUntouched | src/filefinder/finder.py:240-241 | a matcher no key selects keeps its earlier fix, or stays unfixed |
| Finders.UnfixEach | src/filefinder/finder.py:256-259 | after the keys, exactly the fixes of matchers none of them selects remain, unchanged; failing when a key selects nothing, with that key's error |
| Finders.FirstValue | src/filefinder/finder.py:343-344 | a list gives its first item, IndexError when empty |
| Finders.FilenameValue | src/filefinder/finder.py:340-347 | the text written for a matcher: a string verbatim, a list's first item, a boolean's option (TypeError without a pair of options), a number formatted with the matcher's format |
| Finders.FilenameFitsRegex | src/filefinder/finder.py:340-347 | the text written into a filename is the one the regex of the same fix accepts: the option itself, the unescaped formatted value, or the first alternative |
| Finders.Overlay | src/filefinder/finder.py:323-329 | the filename's fixes are the finder's fixes with the call's fixes applied over them, discarded matchers included |
| Finders.FilenameAsWritten | src/filefinder/finder.py:319-354 | `get_filename` as written: regex outside the matchers is a ValueError; a matcher other than the first left unfixed is a TypeError |
| Finders.Filename | src/filefinder/finder.py:295-354 | `get_filename` as intended: regex outside the matchers is a ValueError, any matcher left unfixed is a TypeError, and a filename is built only when every matcher is fixed |
| Finders.FilenameAsWrittenAgrees | src/filefinder/finder.py:331-336 | the written and the intended unfixed tests give the same result whenever the first matcher is fixed |
| Finders.StringsWritten | src/filefinder/finder.py:340-347 | writing a string fix for every matcher puts each string in its matcher's odd slot and leaves the even segments as they were |
| Finders.FilenameOfStrings | src/filefinder/finder.py:338-349 | with every matcher fixed to a string the filename is the text around the matchers with the strings in their places |
| Finders.FirstMatcherNeverReported | src/filefinder/finder.py:331-336 | as written, `any(non_fixed)` is false for `[0]`: a finder whose only matcher is unfixed builds a filename with the matcher's regex in it |
| Finders.FirstMatcherReported | src/filefinder/finder.py:331-336 | with the intended test the same finder raises TypeError |
| Finders.GroupMatchSingle | src/filefinder/finder.py:144-146 | a single matcher of the group gives its raw match |
| Finders.Keyed | src/filefinder/finder.py:155-156 | one key per file: its group match |
| Finders.WithMatch | src/filefinder/finder.py:155-160 | the files with a given group match, none exactly when no file has it |
| Finders.Grouping | src/filefinder/finder.py:153-160 | one list of files per key, keys without repeats |
| Finders.KeyedSnoc | src/filefinder/finder.py:155-156 | the keys of one more file are the earlier keys and its own |
| Finders.GroupingSnoc | src/filefinder/finder.py:155-160 | one more file joins the list of its key, or opens a new list at the end when the key is new |
| Finders.GroupingKeys | src/filefinder/finder.py:157-159 | the keys of the grouping are exactly the group matches of the files |
| Finders.GroupingGroups | src/filefinder/finder.py:155-160 | each list holds exactly the files with its key, in file order |
| Finders.GroupingOrder | src/filefinder/finder.py:157-159 | lists come in the order their key is first seen |
| Finders.GroupingPermutes | src/filefinder/finder.py:153-160 | grouping neither loses nor duplicates a file |
| Finders.Nest | src/filefinder/finder.py:148-162 | no groups gives the flat list; otherwise one child per key of the first group |
| Finders.NestPermutes | src/filefinder/finder.py:148-162 | the nested lists hold every file exactly once |
| Finders.NestChild | src/filefinder/finder.py:162 | each child holds exactly the files with its key |
| Finders.FixInto | src/filefinder/finder.py:213-217 | the loop fixes what FixSelected describes |
| Finders.PopInto | src/filefinder/finder.py:258-259 | the loop removes what PopSelected describes |
| Finders.WriteSlots | src/filefinder/finder.py:340-347 | writing the fixes succeeds exactly when every fix renders and its slot index is in range; the result keeps the segment count and holds each fix's text at its matcher's slot, the other segments unchanged |
| Finders.WriteAt | src/filefinder/finder.py:340-347 | writing one fix either raises the error of the whole write or leaves the remaining writes to give the same result |
| Finders.WriteInto | src/filefinder/finder.py:340-347 | the loop writes each fix into its slot as WriteSlots describes |
| Finders.GroupFiles | src/filefinder/finder.py:153-160 | the loop groups the files as Grouping describes |
| Finders.NestFiles | src/filefinder/finder.py:148-162 | the recursive nesting builds Nest |
| Finders.Kept | src/filefinder/finder.py:535-542 | exactly the walked files the regex matches |
| Finders.GroupsOf | src/filefinder/finder.py:170 | the group of each matcher, in order |
| Finders.Finder.constructor | src/filefinder/finder.py:49-69 | an empty finder: no pre-regex, regex, matchers, segments or fixes, not scanned |
| Finders.Finder.Create | src/filefinder/finder.py:49-72 | the finder is built exactly when its stripped and replaced pre-regex can be scanned, raising the scan's error otherwise; it then holds the scan's matchers and segments, nothing fixed, and the regex of the segments with the text escaped unless regex is allowed |
| Finders.Finder.SetPregex | src/filefinder/finder.py:407-417 | the pre-regex is stripped and replaced; the matchers and segments are those of its scan and the regex is rebuilt with the current fixes, or the scan's or the regex's error is raised |
| Finders.Finder.ScanPregex | src/filefinder/finder.py:419-461 | the matchers and segments become those of the scan, or its error is raised; nothing else changes |
| Finders.Finder.UpdateRegex | src/filefinder/finder.py:463-487 | the regex becomes RegexFor of the segments and fixes and the scanned files are dropped, or the error is raised with the regex and files untouched |
| Finders.Finder.FixNoUpdate | src/filefinder/finder.py:213-217 | the selected matchers are fixed as FixSelected says, or the key's error is raised with nothing fixed |
| Finders.Finder.FixMatcher | src/filefinder/finder.py:186-211 | the selected matchers are fixed and the regex is rebuilt, or the key's error is raised with nothing changed |
| Finders.Finder.FixMatchers | src/filefinder/finder.py:219-242 | the fixes are applied in order as FixEach says and the regex is rebuilt; a key that selects nothing stops them with its error |
| Finders.Finder.PopKeys | src/filefinder/finder.py:257-259 | the fixes left after popping the matchers of each key are those UnfixEach gives, with its error, and nothing else of the finder changes |
| Finders.Finder.UnfixMatchers | src/filefinder/finder.py:244-260 | no keys clears every fix; otherwise the selected matchers are unfixed as UnfixEach says; the regex is then rebuilt |
| Finders.Finder.GetMatches | src/filefinder/finder.py:262-293 | AttributeError without a regex, ValueError when the filename does not match, IndexError for a capture count other than the matcher count, otherwise one match per matcher from its capture |
| Finders.Finder.GetFilename | src/filefinder/finder.py:295-354 | the step-by-step method returns Filename, with the intended unfixed test, of the finder's state |
| Finders.Finder.MatchWalked | src/filefinder/finder.py:535-541 | without error exactly the walked files the regex fully matches, in walk order, each with its matches; IndexError as soon as a matching file's matches cannot be built |
| Finders.Finder.MatchOne | src/filefinder/finder.py:536-541 | one walked file is added with its matches when the regex fully matches it and skipped when it does not, keeping the files so far equal to the kept prefix of the walk |
| Finders.Finder.FindFiles | src/filefinder/finder.py:489-552 | AttributeError without a regex, IndexError when a matching file has the wrong capture count; otherwise exactly the matching walked files, in walk order, each with its matches, and the finder is scanned |
| Finders.Finder.GetFiles | src/filefinder/finder.py:114-176 | files are scanned when they were not; the flat list, or the nesting by the requested groups, with KeyError exactly when a requested group is not a matcher's group |
| Filters.IndexStrings | src/filefinder/filters.py:142 | `map(str, indices)`: the decimal text of each index, in order |
| Filters.NewFilter | src/filefinder/filters.py:84-88 | a new filter keeps its function, kind and keyword arguments, and its name is the one its class gives it |
| Filters.GroupNameIndices | src/filefinder/filters.py:140-144 | a group filter's name splits on its first ':' into the comma-joined indices, each reading back as its index, and the function's name |
| Filters.DescribeReadsBack | src/filefinder/filters.py:90-91 | for every filter, the text between the angle brackets splits at its first `:` into the class name and the filter's name, from which GroupNameIndices recovers a group filter's indices and function name |
| Filters.DescribeGroupFilter | src/filefinder/filters.py:90-91 | a group filter on groups 0 and 1 of `group1` shows as `<FilterByGroup:0,1:group1>` |
| Filters.DescribeList | src/filefinder/filters.py:232-233 | a filter list shows its filters separated by spaces: `<FilterByDate:date1> <Filter:base1>` |
| Filters.ArgOf | src/filefinder/filters.py:156-160 | the value passed for a match is its parsed value; when parsing fails, the matched text if unparsed groups are passed, PARSE_FAIL otherwise |
| Filters.GroupArgs | src/filefinder/filters.py:154-160 | one value per index, each that of the match at that index (negative from the end); IndexError exactly when an index is out of range |
| Filters.GroupCheck | src/filefinder/filters.py:153-162 | a group filter fails exactly when an index is out of range, and keeps the file exactly when every index is in range and the function accepts every value; no indices keeps every file |
| Filters.MissingParserArgument | src/filefinder/filters.py:156-160 | with the parser missing as written, a group filter is given the matched text when unparsed groups are passed and PARSE_FAIL otherwise, never a parsed value |
| Filters.UnparsedArgument | src/filefinder/filters.py:157-160 | a match that cannot be parsed is passed as its text when unparsed groups are passed, and as PARSE_FAIL otherwise |
| Filters.AllPass | src/filefinder/filters.py:240 | the filters keep a file exactly when each of them does |
| Filters.AllPassStops | src/filefinder/filters.py:240 | `all` stops at the first filter that does not keep the file, and its answer, or its error, is the result |
| Filters.GroupFilter | src/filefinder/filters.py:129-138 | the intended group filter of `add_by_group` keeps its indices, option, function and keyword arguments, and is named by its class |
| Filters.GroupKwargsIgnored | src/filefinder/filters.py:256 | as written, a group filter added with keyword arguments judges every file as the one without them, and is not the filter asked for |
| Filters.GroupKwargsPassed | src/filefinder/filters.py:248-258 | with the keyword arguments kept, the user function is asked about each collected value together with them |
| Filters.Without | src/filefinder/filters.py:285 | the indices that are not dropped, and all of them when none is dropped |
| Filters.RemovedGroups | src/filefinder/filters.py:282-291 | no filter is added; every group filter left has indices, none of them dropped; filter names stay those their class gives |
| Filters.RemovedGroupsAppend | src/filefinder/filters.py:283-290 | each filter is treated on its own, in list order: the result for a list is the results for its parts, concatenated |
| Filters.RemovedGroupsOne | src/filefinder/filters.py:283-290 | a group filter with indices left survives, renamed, with exactly those indices, its function, keyword arguments and unparsed option; one with none left is removed; any other filter is kept as it is |
| Filters.RemovedGroupsKeepsOthers | src/filefinder/filters.py:283-290 | the filters that are not group filters stay, in order |
| Filters.RemovedGroupsNothingToDrop | src/filefinder/filters.py:282-291 | when no group filter holds a dropped index the list is unchanged |
| Filters.RemovedGroupsIdempotent | src/filefinder/filters.py:275-291 | removing the same groups twice is removing them once |
| Filters.EmptyGroupFilterRemoved | src/filefinder/filters.py:286-287 | a group filter with no indices is removed even when nothing is dropped |
| Filters.WithoutDates | src/filefinder/filters.py:293-297 | the filters kept are exactly those that are not date filters, unchanged when there is none |
| Filters.WithoutDatesIdempotent | src/filefinder/filters.py:293-297 | removing date filters twice is removing them once |
| Filters.RemovalsCommute | src/filefinder/filters.py:275-297 | removing groups and removing date filters can be done in either order |
| Filters.FilterList.constructor | src/filefinder/filters.py:217-218 | a new list holds no filter |
| Filters.FilterList.IsValid | src/filefinder/filters.py:235-240 | the list keeps a file exactly when every filter keeps it; an empty list keeps every file |
| Filters.FilterList.Add | src/filefinder/filters.py:242-246 | a plain filter with the keyword arguments is appended and returned |
| Filters.FilterList.AddByGroup | src/filefinder/filters.py:248-258 | a group filter on the indices, holding the keyword arguments, is appended and returned |
| Filters.FilterList.AddByDate | src/filefinder/filters.py:260-269 | a date filter with its default date and keyword arguments is appended and returned |
| Filters.FilterList.Clear | src/filefinder/filters.py:271-273 | the list is emptied |
| Filters.FilterList.RemoveByGroup | src/filefinder/filters.py:275-291 | the list becomes RemovedGroups of the old one: filter by filter, in order, as RemovedGroupsAppend and RemovedGroupsOne state |
| Filters.FilterList.RemoveByDate | src/filefinder/filters.py:293-297 | the list becomes the old one without its date filters |

## Left out

- The directory walk of `find_files` (`os.walk`, the depth count, pruning
  directories by the regex of each path component, sorting) is file-system
  I/O: `Finders.Finder.FindFiles` and `GetFiles` take the walked relative
  paths, already sorted, as a parameter.
- Relative and absolute paths (`root`, `get_relative`, `get_absolute`, the
  `relative` flags of `get_files`, `get_matches` and `get_filename`): every
  filename in the model is relative to the root.
- `get_func_process_filename` builds a callback for another library and is
  not part of this model.
- The regex engine (`re.fullmatch`, `re.finditer`, `re.sub`): the matches of
  a group definition against `PATTERN`, of a matcher against `REGEX`, and of
  a filename against the finder's regex are inputs (records of captures and
  spans); only the spec grammar of `get_format` and the `%(` search are
  written out.
- `str.format` of a value, `Format.parse` (which uses `float()` for float
  formats), a group's value parser, and `strftime` are parameters.
- `Group.parse`: `group.py` defines no such method, so as written
  `match_parsed` catches an AttributeError on every call and caches
  PARSE_FAIL, `get_value(parse=True)` always raises ValueError (or gives the
  text when raising is off), and a group filter only ever sees PARSE_FAIL or
  the matched text. The model keeps the parser as a parameter; the
  always-failing parser is one instance, so the proved properties cover the
  program as written (`Matching.MissingParserFails`,
  `Filters.MissingParserArgument`).
- `int()` is modelled for an optional sign followed by decimal digits;
  underscores, surrounding whitespace and other bases are not.
- Digits and letters are ASCII only: `\d` in FORMAT_REGEX and `int()` accept
  any Unicode decimal digit in the source (`٣d` reads as width 3), and
  `str.lower` folds any cased character; the model accepts `0`-`9` and folds
  `A`-`Z`. `str.strip` removes every character `str.isspace` accepts.
- FromFilename (`Matching.FromFilename`): a capture is always a string. In the source a group of an
  optional `(...)?` that takes no part in the match captures None; the model
  cannot express that match, nor the TypeError that `''.join` then raises
  when nesting files by group.
- NewOldMatches (`Matchers.NewOldMatches`): likewise, a None capture of an optional matcher is not
  expressed; every old-style match holds a string.
- Elements (`Library.Elements`): likewise, the element a None match would leave out, and the
  None branch of `get_date`'s integer reading, are not reached.
- FixTexts (`Groups.FixTexts`): `str.format` of a value is a total
  parameter, so the ValueError Python raises when a value does not fit the
  format's type (a number given to an `s` format) is not modelled; the model
  writes a text where the source raises.
- SlotRegex (`Finders.SlotRegex`): the same failing `str.format` is not
  modelled when a fixed value is written into the regex.
- FilenameValue (`Finders.FilenameValue`): the same failing `str.format` is
  not modelled when a fixed value is written into a filename.
- Alternative (`Finders.Alternative`): the same failing `str.format` is not
  modelled for one alternative of a fixed matcher's regex.
- Matchers.NewMatcher: building the format object and generating its regex
  are the parameters `construct` and `generate` of `FormatOps`, so that
  proofs about the finder's scan do not unfold the format grammar; its
  contract holds for any such parameters. `Matchers.FollowsGetFormat`
  states that they are `Format(spec)` (the alias of `get_format`) and its
  `generate_expression`, and the lemmas on the defaults and on `:fmt=`
  (`Matchers.DefaultMatcher`, `Matchers.ExplicitFormatFails`,
  `Matchers.ExplicitFormatRegex` and their examples) are proved under it.
- `datetime` beyond the proleptic Gregorian calendar of six integer fields
  (no time zones, microseconds or locale month names).
- Logging, and the `__repr__` / `__str__` of `Finder`, `Matcher`, `Match`,
  `Matches`, `Group` and `Sentinel`.
- User filter functions are predicates given with the file; a user function
  that raises is not modelled, and `functools.partial` is replaced by storing
  the keyword arguments with the filter.
- `FilterList.__getitem__`, `__len__`, `__iter__` and `__contains__`:
  plain sequence access. `__contains__` compares filter objects by identity,
  which values cannot express.
- Filters.FilterList.RemoveByGroup: the source updates the indices of the
  surviving group filter objects in place, so a caller holding one of them
  sees the change; the model replaces them by new values and does not model
  that aliasing.
- The parse cache that `can_parse` fills while a group filter reads its
  matches is not updated by `Filters.Check`; the verdict is the same.
- `Matches.get_date` hands new-style matches to `library.get_date`, which
  reads the older `Match.matcher`; date filters receive the recovered date
  as a parameter of the file instead.
- Finders.Finder.SetPregex: after an error during the scan the matchers and
  segments are left unspecified; the source leaves them half built.
- Finders.Finder.FindFiles: after an IndexError the stored files are those
  of before the call; the source has not stored any of the new ones either.
- `find_files` calls a `create_regex` method that does not exist when the
  regex is None; the regex is never None in the model, as in the source.

## Findings

| source | as written | input that shows it | evidently intended | confidence | as-written member | corrected member |
|---|---|---|---|---|---|---|
| src/filefinder/finder.py:331-336 | `if any(non_fixed)` tests the truth of the unfixed indices, and index 0 is false | a finder with one matcher and nothing fixed: `non_fixed == [0]`, no TypeError, and the filename holds the matcher's regex | raise TypeError whenever `non_fixed` is not empty | not executed; high | Finders.FirstMatcherNeverReported | Finders.FirstMatcherReported |
| src/filefinder/filters.py:256 | `FilterByGroup(func, indices, pass_unparsed=pass_unparsed)` leaves out `**kwargs` | `add_by_group(f, [0], threshold=3)`: `f` is never given `threshold` | pass the keyword arguments on, as `add` and `add_by_date` do | not executed; high | Filters.GroupKwargsIgnored | Filters.GroupKwargsPassed |

The rest of the model follows the corrected behaviour: `Finders.Finder.GetFilename`
uses the intended unfixed test and `Filters.FilterList.AddByGroup` keeps the
keyword arguments.
