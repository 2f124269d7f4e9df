# firestone-lib CLI helpers in Dafny

This project models the command-line helpers of `firestone_lib`: the two custom
click parameter types and the display-name helper.

- `CommaDelimitedList` turns `"a,b,c"` into a list and converts each item with an
  item type, such as click.STRING or click.INT.
- `KeyValue` turns `"k1=v1,k2=v2"` into a dict. Its item type and its inner and
  outer separators can be configured. A string starting with `{` is first
  offered to the JSON/YAML parser.
- The modelled exported instances are `StrList`, `IntList` and `StrDict`; `PathList` and `AnyDict` are left out (see below).
- `split_capitalize` turns `foo_bar` into `Foo Bar`.

Python values, exceptions and the outcome of a call (a returned value or a
raised exception) are datatypes in `python.dfy`. The Python string operations
the code relies on are functions in `pystr.dfy`: `str.split` with a literal
separator, `str.join` and ASCII `str.capitalize`. `Split` is built on `Find`, a
leftmost search for the separator. `KeyValue`'s `re.split` is modelled by the
same literal `Split`. The click item
converters are in `click.dfy`. Both parameter types are in `cli.dfy`, and the
string helper is in `utils.dfy`.

The `convert` methods and the helper differ in form:

- `CommaDelimitedList.convert` is a single list comprehension, so it is a
  function.
- `KeyValue.convert` and `split_capitalize` build their result in a loop. Each
  is a method whose loop is proved against a specification function:
  `KeyValue.Converted` and `Utils.Prettified`.

`split_capitalize` with `sep=""` raises ValueError, as `str.split` does, and
`Utils.SplitCapitalize` returns that error.

The JSON/YAML parser that `KeyValue.convert` consults is a parameter
`loader: string -> Option<PyValue>`. `None` stands for "the parser raised", an
exception that `KeyValue.convert` swallows.

## Model

| member | source | states |
|---|---|---|
| `Py.FailOnAttributeError` | firestone_lib/cli.py:65-66 | the `except AttributeError: self.fail(...)` clause: an AttributeError becomes a BadParameter; every other exception passes through unchanged |
| `PyStr.FindFrom` | firestone_lib/cli.py:63 | the search behind `str.split`: it finds the first occurrence at or after `from`, or reports that there is none |
| `PyStr.Find` | firestone_lib/cli.py:63 | the leftmost occurrence of the separator; `None` exactly when the separator occurs nowhere |
| `PyStr.FindIsFirst` | firestone_lib/cli.py:63 | any occurrence with no earlier occurrence is the one `Find` returns |
| `PyStr.Split` | firestone_lib/cli.py:63 | `str.split(sep)` always yields at least one piece, even for the empty string |
| `PyStr.JoinCons` | firestone_lib/utils.py:32 | joining a head piece with a non-empty rest puts the separator between the head and the join of the rest |
| `PyStr.JoinSplit` | firestone_lib/cli.py:63 | `sep.join(s.split(sep)) == s` for every string and every non-empty separator |
| `PyStr.SplitUnfold` | firestone_lib/cli.py:63 | a split is the piece before the first occurrence of the separator followed by the split of what comes after it, and the input is those parts around the separator |
| `PyStr.SplitPiecesFree` | firestone_lib/utils.py:26 | no piece of a split contains the separator |
| `PyStr.OccursAtChar` | firestone_lib/utils.py:26 | a one-character separator occurs at `j` exactly when `s[j]` is that character |
| `PyStr.FreeChar` | firestone_lib/utils.py:26 | a one-character separator is absent in the `Find` sense exactly when the character is not in the string |
| `PyStr.SplitCount` | firestone_lib/cli.py:63 | splitting on a one-character separator yields one piece more than the number of separator characters, empty pieces included |
| `PyStr.SplitJoin` | firestone_lib/cli.py:63 | the converse round trip: splitting the join of separator-free pieces gives back exactly those pieces, in order |
| `PyStr.Upper` | firestone_lib/utils.py:30 | an upper-cased character is never an ASCII lower-case letter |
| `PyStr.Lower` | firestone_lib/utils.py:30 | a lower-cased character is never an ASCII upper-case letter |
| `PyStr.LowerAll` | firestone_lib/utils.py:30 | `str.lower` keeps the length |
| `PyStr.CaseChar` | firestone_lib/utils.py:30 | upper- and lower-casing are idempotent; lower-casing after upper-casing equals lower-casing alone; each leaves non-letters of its case alone |
| `PyStr.CapitalizeProperties` | firestone_lib/utils.py:30 | `word.capitalize()` keeps the length, gives a capitalized word, changes only letter case, is idempotent, and leaves an already capitalized word alone |
| `Click.ParamType.Convert` | firestone_lib/cli.py:47-49 | click.STRING returns the item as is; click.INT returns an int exactly when the item parses as a signed decimal, and raises BadParameter otherwise |
| `Click.DigitChar` | firestone_lib/cli.py:183 | the digit character for `d` has value `d` |
| `Click.ShowNat` | firestone_lib/cli.py:183 | the decimal text of a natural number is a non-empty run of digits |
| `Click.DigitsOfShowNat` | firestone_lib/cli.py:183 | reading back the decimal text of `n` gives `n` |
| `Click.IntTypeRoundTrip` | firestone_lib/cli.py:183 | click.INT converts the text `str(n)` of any int `n` back to `n` |
| `Cli.ConvertEach` | firestone_lib/cli.py:61-64 | the comprehension succeeds exactly when every item converts; its list has one value per piece, in order, each the converted piece |
| `Cli.ConvertEachFirstFailure` | firestone_lib/cli.py:61-64 | the comprehension raises the exception of the first item that fails |
| `Cli.CommaDelimitedList.Convert` | firestone_lib/cli.py:52-66 | `-` comes back as `-`; None gives `[]`; a list passes through; a value without `split` is a BadParameter; a string gives a list exactly when every comma piece converts, one item per piece in order; no AttributeError escapes |
| `Cli.CommaListLength` | firestone_lib/cli.py:63 | a converted list has the number of commas plus one items |
| `Cli.CommaListFirstFailure` | firestone_lib/cli.py:61-66 | all or nothing: the first piece that fails decides the exception, and an AttributeError becomes a BadParameter |
| `Cli.StrListRoundTrip` | firestone_lib/cli.py:187 | `StrList` converts every string other than `-` to a list of strings whose comma join is the input |
| `Cli.StrListOfJoin` | firestone_lib/cli.py:187 | a non-empty list of comma-free strings, other than `["-"]`, comes back from `StrList` after being joined with commas |
| `Cli.IntListExample` | test/test_cli.py:140-144 | `IntList` converts `"1,2,3"` to `[1, 2, 3]` |
| `Cli.SplitExample` | test/test_cli.py:144 | `"1,2,3".split(",")` is `["1", "2", "3"]` |
| `Cli.IntItemsExample` | test/test_cli.py:144 | click.INT converts the items `"1"`, `"2"` and `"3"` to 1, 2 and 3 |
| `Cli.KeyValue.Entry` | firestone_lib/cli.py:153-154 | one piece gives its key and converted value exactly when it has two parts and the value converts; any other number of parts is a ValueError from the tuple unpacking; a two-part piece whose value the item converter rejects fails with the converter's exception |
| `Cli.KeyValue.Convert` | firestone_lib/cli.py:133-158 | the loop method returns or raises exactly what the specification function `Converted` says |
| `Cli.KeyValue.CollectStep` | firestone_lib/cli.py:152-154 | one more loop iteration adds that piece's entry to the dict, or ends in that piece's exception |
| `Cli.KeyValue.CollectKeepsFailure` | firestone_lib/cli.py:150-156 | once a prefix of the pieces raises, the whole loop raises the same exception |
| `Cli.KeyValue.CollectSucceeds` | firestone_lib/cli.py:150-156 | the loop builds a dict exactly when every piece gives an entry |
| `Cli.KeyValue.CollectFirstFailure` | firestone_lib/cli.py:150-156 | the first piece that fails decides the exception |
| `Cli.KeyValue.CollectRaisesEntryError` | firestone_lib/cli.py:150-156 | the exception that ends the loop is one raised by some piece |
| `Cli.KeyValue.CollectHasKey` | firestone_lib/cli.py:153-154 | every piece's key is in the dict |
| `Cli.KeyValue.CollectKeyFromPiece` | firestone_lib/cli.py:153-154 | every key in the dict is the key of some piece |
| `Cli.KeyValue.CollectLastWins` | firestone_lib/cli.py:154 | a key holds the value converted from its last occurrence |
| `Cli.SentinelsFirst` | firestone_lib/cli.py:54-59 | for both types and any item type, separators or loader: `-` comes back as `-`, None as an empty list or dict, and an existing list or dict passes through |
| `Cli.LoaderOnlyForBraces` | firestone_lib/cli.py:135-141 | only a string starting with `{` reaches the JSON/YAML parser; what the parser returns is the result; when it raises, the string is treated like any other |
| `Cli.ConvertedString` | firestone_lib/cli.py:143-158 | a string other than `-` that the parser does not take is split on the outer separator and its dict is built by the loop; an AttributeError becomes a BadParameter |
| `Cli.KeyValueAllOrNothing` | firestone_lib/cli.py:150-158 | such a string gives a dict exactly when every piece gives an entry |
| `Cli.KeyValueKeys` | firestone_lib/cli.py:150-156 | the dict's keys are exactly the keys of the pieces |
| `Cli.KeyValueLastWins` | firestone_lib/cli.py:154 | for a repeated key, the value comes from the key's last occurrence |
| `Cli.KeyValueValueError` | firestone_lib/cli.py:153 | a piece that does not split into exactly two parts, after good pieces, raises a ValueError, not a BadParameter |
| `Cli.KeyValueItemError` | firestone_lib/cli.py:150-158 | a well-formed piece whose value the item converter rejects, after good pieces, raises that converter's exception, an AttributeError becoming a BadParameter |
| `Cli.StrValuesValueError` | firestone_lib/cli.py:150-158 | with string values, the result is a ValueError exactly when some piece is not `key<inner_sep>value` |
| `Cli.SplitPair` | firestone_lib/cli.py:153 | `key<c>value`, with neither part containing `c`, splits into exactly `[key, value]` |
| `Cli.StrDictExample` | test/test_cli.py:52-57 | `StrDict` converts `"foo=bar"` to `{"foo": "bar"}` |
| `Cli.TwoPairs` | firestone_lib/cli.py:150-156 | two pairs joined by one-character separators give the dict of both pairs |
| `Cli.OneMalformedPiece` | firestone_lib/cli.py:153 | a string with no outer separator whose single piece does not have two parts raises a ValueError |
| `Cli.StrDictTwoPairsExample` | test/test_cli.py:59-60 | `"foo=bar,baz=blah"` converts to `{"foo": "bar", "baz": "blah"}` |
| `Cli.StrDictMissingValueExample` | test/test_cli.py:211-216 | `"foo"` raises a ValueError |
| `Cli.StrDictTooManyPartsExample` | firestone_lib/cli.py:153 | `"a=b=c"` raises a ValueError |
| `Cli.CustomSeparatorsExample` | test/test_cli.py:235-239 | with click.INT and the separators `:` and `;`, `"foo:1;bar:2"` converts to `{"foo": 1, "bar": 2}` |
| `Cli.BrokenItemTypeExample` | test/test_cli.py:241-255 | an item type that raises AttributeError makes `"foo=bar"` a BadParameter |
| `Cli.BraceStringExample` | test/test_cli.py:218-229 | `'{"foo": "bar"}'` is whatever the parser returns; when the parser raises, the string falls back to splitting and raises a ValueError |
| `Utils.PrettyWords` | firestone_lib/utils.py:26-30 | one word per piece of `input.split(sep)`, each the capitalized piece, in order |
| `Utils.SplitCapitalize` | firestone_lib/utils.py:21-32 | a missing separator means `_`; an empty one raises a ValueError; otherwise the result is the capitalized words joined by spaces |
| `Utils.WordsCapitalized` | firestone_lib/utils.py:29-30 | every output word is capitalized and differs from its piece only in letter case |
| `Utils.WordCount` | firestone_lib/utils.py:26 | with a one-character separator there is one word more than there are separators; empty words are kept |
| `Utils.NoSeparator` | firestone_lib/utils.py:26-32 | an input without the separator comes out as the input capitalized |
| `Utils.JoinLength` | firestone_lib/utils.py:32 | joins of pointwise equally long pieces, with equally long separators, have equal lengths |
| `Utils.SameLength` | firestone_lib/utils.py:21-32 | with a one-character separator the display name is exactly as long as the input |
| `Utils.Respaced` | firestone_lib/utils.py:32 | replacing the separator character by a space keeps the length |
| `Utils.LowerAllJoinCapitalized` | firestone_lib/utils.py:29-32 | lower-casing a space join of capitalized words equals lower-casing the join of the original words |
| `Utils.RespacedJoin` | firestone_lib/utils.py:26-32 | re-joining the separator-free pieces with a space is the input with each separator turned into a space |
| `Utils.CaseOnlyChange` | firestone_lib/utils.py:21-32 | with a one-character separator the display name is the input with each separator turned into a space, up to letter case |
| `Utils.TwoWords` | firestone_lib/utils.py:21-32 | `a<c>b`, with neither word containing `c`, becomes `Capitalize(a) + " " + Capitalize(b)` |
| `Utils.FooBar` | firestone_lib/utils.py:21-32 | `foo<c>bar`, for any separator character `c` not in either word, becomes `"Foo Bar"` |
| `Utils.DefaultSeparatorExample` | test/test_utils.py:14-18 | `"foo_bar"` with the default separator `_` becomes `"Foo Bar"` |
| `Utils.CustomSeparatorExample` | test/test_utils.py:20-24 | `"foo-bar"` with separator `-` becomes `"Foo Bar"` |
| `Utils.NoSeparatorExample` | test/test_utils.py:26-30 | `"foobar"` becomes `"Foobar"` |

## Left out

- `KeyValue.Valid`: the separators are regular expressions handed to `re.split`. The model treats them as non-empty literal strings. An empty pattern, or a pattern that is not a literal (such as `.` or `|`), is outside the model. `KeyValue.Convert` requires non-empty separators for this reason.
- The piece-count and round-trip properties of splitting (`SplitCount`, `SplitJoin`, `WordCount`, `SameLength`, `CaseOnlyChange`) are proved for one-character separators only. `JoinSplit` holds for any non-empty separator.
- `FromJsonOrYaml`, `SlurpStrOrFile` and the Jinja2 templating are not modelled. Neither are `json.loads` and `yaml.load`. `KeyValue.convert` reaches them through the `loader` parameter, whose `None` stands for any exception they raise.
- `PathList` is not modelled: click.Path consults the file system. Any other item converter is a `CustomType` that returns or raises for each string.
- `RegexValidator`, `AnyDict`, `init_logging` and `click_coro` are not modelled. They deal with regular expressions, JSON/YAML parsing after Jinja2 templating (`AnyDict` is a `FromJsonOrYaml()`), logging configuration files and the asyncio event loop. None of them is part of the conversion logic modelled here.
- `Click.ParamType.Convert`: click.INT is modelled as an optional `+` or `-` sign followed by ASCII digits. Python's `int()` also accepts surrounding whitespace, `_` between digits and non-ASCII digits; these are not modelled.
- `PyStr.Capitalize` maps case for the ASCII letters only. Python's `str.capitalize` also maps other Unicode letters, including title-case and multi-character mappings.
- Error message texts, and the `param` and `ctx` arguments, are not modelled. An exception is represented by its class alone.
- Dict keys are strings. `PyObject` stands only for objects that are not a str, None, a list or a dict and that have no `split` method; `CommaDelimitedList.convert` of such an object, or of an int or a dict, raises BadParameter. Objects that do have a `split` method, such as `bytes` (whose `split(",")` raises a TypeError that escapes the `except AttributeError`), are not modelled. `KeyValue.convert` of any non-string value that is not `-`, None or a dict raises TypeError from `re.split`, which the code does not catch.
- `KeyValue.Converted`, `KeyValue.Convert` and `CommaDelimitedList.Convert`: a Dafny `map` has no order, so the insertion order of the dict's keys (first occurrence first, a later duplicate updating the value in place) is not modelled. Results are values: that the pass-through branches return the caller's own list or dict object, so the caller and the result alias, is not modelled either.
