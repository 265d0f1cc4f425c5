# UriDispatcher, modelled in Dafny

`UriDispatcher` (Dispatcher.php) turns a request URI such as
`/42/resize/100x200/crop/10-20` into an id and a list of filter requests.

- **Path splitting.** The constructor percent-decodes the URI with `rawurldecode`. It cuts the
  leading character and splits the rest on `/`. The first segment is the `id`; the others are
  the raw filters.
- **Filter dispatch.** `parseFilters` reads the raw filters two at a time, as a filter token and
  its parameter string. It returns `false` when there are no raw filters, and a lone
  `Not enough info` entry when there is exactly one.
- **Filter lookup.** `parseFilterData` looks a token up in the filter registry (token ⇒ title
  and pattern). The entry is `Filter syntax error` for an unknown token, `Not enough info to
  <title>` for an empty parameter string, and otherwise `Ok` with the title and the parsed
  parameters.
- **Parameter parsing.** `parseParamsData` splits the filter's pattern (for example
  `{width|integer}x{height|integer}`) on runs of braces. It drops the first and last pieces and
  walks the remaining parts as placeholder blocks `name|type` alternating with delimiters.
  `getParamData` cuts each placeholder's text at the first occurrence of its delimiter and
  coerces it with `settype`. The cursor then moves one character past where the delimiter
  starts. The last placeholder takes what is left. The values go into a PHP array keyed by
  variable name.

The Dafny project has five modules, one file each:

| file | module | what it holds |
|---|---|---|
| `php_strings.dfy` | `PhpStrings` | `explode`/`implode`, `strpos`/`strstr`, `substr($s, 1)`, `preg_split("/[{}]+/")` |
| `coercion.dfy` | `Coercion` | the raw value (string or `false`), `settype` for the modelled types, `(int)` parsing, rendering values back to text |
| `url_codec.dfy` | `UrlCodec` | `rawurldecode`, and the `rawurlencode` it inverts |
| `param_parsing.dfy` | `ParamParsing` | `getParamData` and the meaning of `parseParamsData` as functions, plus PHP's ordered arrays |
| `dispatcher.dfy` | `Dispatcher` | class `UriDispatcher` with the constructor, `parseFilters` and `parseFilterData`; the loop of `parseParamsData` |

The class keeps the source's fields (`path`, `filterList`, `id`, `pathParts`, `rawFilters`).
The source's two loops are methods with loop invariants:

- the loop of `parseFilters` (`Dispatcher.UriDispatcher.ParseFilters`);
- the loop of `parseParamsData`, which only reads the fields and so runs over the looked-up
  pattern and parameter string (`Dispatcher.ReadParams`).

They are proved against the functions `ParamParsing.ParseParams`,
`Dispatcher.UriDispatcher.FilterDataAt` and `Dispatcher.UriDispatcher.PairEntries`. Everything
proved about those functions therefore holds for what the methods return.

Edge behaviour of `Dispatcher.php` that the model keeps:

- **Missing delimiter.** When a delimiter does not occur, `strstr(..., true)` returns `false`.
  The placeholder therefore gets `false` coerced to its type, not the rest of the string. The
  cursor becomes "" (`ParamParsing.RawValueRead`, `ParamParsing.MissingDelimiterStarves`).
- **Cursor advance.** The cursor moves ONE character past the start of the delimiter, not past
  the whole delimiter (`ParamParsing.AdvancePast`, `ParamParsing.LongDelimiterLeavesTail`).
- **Coercion failures.** Coercion is PHP's lenient one: `"100px"` reads as integer 100 and
  `"abc"` as 0. Nothing fails (`Coercion.IntValueLenient`).
- **Extra `|`.** A block with more than one `|` is not rejected. Its name is the text before the
  first `|`, and its type is the text up to the next `|` (`ParamParsing.BlockLayout`).
- **Delimiter `"0"`.** The delimiter `"0"` is falsy, so its placeholder takes the whole remaining
  string (`ParamParsing.ZeroDelimiterTakesAll`).
- **Repeated names.** A variable name that occurs twice yields one key, holding the last value
  (`ParamParsing.ParamsKeys`, `ParamParsing.ParamsLastWins`). So N placeholders do not always
  give N entries.

## Model

| member | source | states |
|---|---|---|
| PhpStrings.ImplodeExplode | Dispatcher.php:23 | joining the pieces of `explode('/', s)` with `/` gives `s` back |
| PhpStrings.ExplodeImplode | Dispatcher.php:23 | splitting segments joined by a separator none of them contains gives exactly those segments |
| PhpStrings.ExplodePieces | Dispatcher.php:23 | no piece of `explode(d, s)` contains `d` |
| PhpStrings.ExplodeHead | Dispatcher.php:40 | when `d` occurs, piece 0 is free of `d` and followed in the text by `d`, so it is the text before the first `d` |
| PhpStrings.ExplodeSecond | Dispatcher.php:41 | when `d` occurs, piece 1 is the text after the first `d`, up to the next `d` or the end |
| PhpStrings.StrposFirst | Dispatcher.php:43 | the result is where the first occurrence of the needle begins, every first occurrence is that one, and the result is `false` exactly when the needle does not occur |
| PhpStrings.BraceSplitNoBrace | Dispatcher.php:64 | no piece of the brace split contains `{` or `}` |
| PhpStrings.BraceSplitFirst | Dispatcher.php:64 | the first piece is empty exactly when the pattern is empty or starts with a brace |
| PhpStrings.BraceSplitInner | Dispatcher.php:64 | every piece strictly between two brace runs is non-empty, since a run is maximal |
| PhpStrings.BraceSplitRun | Dispatcher.php:64 | a run of braces in front of text that does not start with one opens an empty piece and is then dropped |
| PhpStrings.BraceSplitPlain | Dispatcher.php:64 | brace-free text is glued onto the first piece of what follows |
| UrlCodec.RawUrlDecode | Dispatcher.php:21 | decoding never makes the path longer |
| UrlCodec.DecodeEncode | Dispatcher.php:21 | decoding the `rawurlencode` of any byte string gives it back |
| UrlCodec.DecodePlain | Dispatcher.php:21 | a path without `%` is left unchanged |
| UrlCodec.DecodeAppend | Dispatcher.php:21 | decoding splits at any point not followed by a hex digit; an escape never straddles it |
| UrlCodec.EncodedSlash | Dispatcher.php:21-23 | `%2F` decodes to `/`, which the split then treats as a segment separator |
| Dispatcher.PathSegments | Dispatcher.php:23-26 | a path `/` + segments joined by `/`, with no `/` inside a segment, splits back into exactly those segments |
| Dispatcher.UriDispatcher.constructor | Dispatcher.php:19-29 | `path` is the decoded URI; `[id] + rawFilters` is the split of the path minus its first character; joining them with `/` gives that text back; no segment contains `/`; the registry is stored |
| Coercion.SettypeRender | Dispatcher.php:48 | coercing the text of a string, integer, boolean or null value to its type, its name written in any ASCII case, gives the value back |
| Coercion.SettypeIgnoresCase | Dispatcher.php:48 | type names that differ only in ASCII case request the same coercion |
| Coercion.SettypeMixedCase | Dispatcher.php:48 | `"7"` set to `Integer` is the integer 7 |
| Coercion.SettypeFalseAsEmpty | Dispatcher.php:48 | on every modelled type, `false` coerces exactly as "" does |
| Coercion.IntValueDecimalString | Dispatcher.php:48 | `(int)` of the decimal text of any integer, negative ones included, is that integer |
| Coercion.IntValueLenient | Dispatcher.php:48 | `(int)` ignores whatever follows the leading digits (`"100px"` is 100) |
| ParamParsing.BlockPieces | Dispatcher.php:40-41 | neither a block's name nor its type contains `\|` |
| ParamParsing.BlockLayout | Dispatcher.php:40-41 | a block with `\|` is its name, a `\|`, then its type up to the next `\|` or the end |
| ParamParsing.RawValueRead | Dispatcher.php:42-46 | a missing or falsy delimiter (`""`, `"0"`) takes the whole string; a truthy one takes the text before its first occurrence, and gives `false` exactly when it does not occur |
| ParamParsing.AdvancePast | Dispatcher.php:80 | the new cursor starts one character after where the delimiter's first occurrence begins, and is "" when the delimiter does not occur |
| ParamParsing.Assign | Dispatcher.php:81-87 | an existing key keeps its place and gets the new value, a new key is appended, and every other key keeps its value |
| ParamParsing.AssignAllKeys | Dispatcher.php:81-87 | after a run of assignments the keys are the old ones followed by the new names in order of first assignment |
| ParamParsing.AssignAllUntouched | Dispatcher.php:81-87 | a key that no assignment names keeps its value |
| ParamParsing.LastAssignmentWins | Dispatcher.php:81-87 | the last assignment to a key decides its value |
| ParamParsing.AssignAllFresh | Dispatcher.php:81-87 | assigning distinct new keys appends them in order |
| ParamParsing.PlaceholderNames | Dispatcher.php:64-67 | one name per placeholder block, the k-th being the name in the k-th block |
| ParamParsing.ExtractNames | Dispatcher.php:72-87 | the variables getParamData returns are the placeholder names, in pattern order |
| ParamParsing.ParamsKeys | Dispatcher.php:64-87 | the keys of the parsed parameters are exactly the placeholder names, each once, in order of first appearance |
| ParamParsing.ParamsLastWins | Dispatcher.php:72-87 | when a name repeats, the value read at its last placeholder wins |
| ParamParsing.CoerceAt | Dispatcher.php:48-49 | the k-th pair is the k-th block's name with the k-th raw read coerced to that block's type |
| ParamParsing.ExtractCoerces | Dispatcher.php:72-87 | the pairs the loop produces are the raw reads, each coerced by its own block |
| ParamParsing.EmptyCursor | Dispatcher.php:42-46 | an empty cursor reads `false` or "" and stays empty after a delimiter |
| ParamParsing.ReadsEmpty | Dispatcher.php:72-87 | once the cursor is empty every later placeholder reads `false` or "", and the last one reads "" (PHP 8's `substr`) |
| ParamParsing.MissingDelimiterStarves | Dispatcher.php:72-87 | a truthy delimiter that does not occur gives its placeholder `false`, and every later placeholder reads `false` or "", the last one "" |
| ParamParsing.ReadOne | Dispatcher.php:72-80 | a value followed by a one-character delimiter it does not contain is read back exactly, and the cursor lands right after the delimiter |
| ParamParsing.TemplateParamsParts | Dispatcher.php:64-67 | a pattern written from non-empty brace-free parts splits back into exactly those parts |
| ParamParsing.ExtractRoundTrip | Dispatcher.php:72-87 | reading the text of values joined by one-character delimiters, none occurring in the value before it, gives back exactly those (name, value) pairs |
| ParamParsing.ParseParamsRoundTrip | Dispatcher.php:58-89 | for the pattern declaring distinct names, the types of the values and such delimiters, the parsed parameters are exactly those name ⇒ value pairs in order |
| ParamParsing.ZeroDelimiterTakesAll | Dispatcher.php:42-46 | the delimiter `"0"` is falsy: its placeholder takes the whole remaining string while the cursor still skips past the first `0` |
| ParamParsing.LongDelimiterLeavesTail | Dispatcher.php:80 | with a delimiter of two or more characters, the next placeholder's text starts with the rest of the delimiter |
| ParamParsing.AdjacentParts | Dispatcher.php:64-67 | the pattern `{a}{b}` has the two parts `[a, b]`: no delimiter between the blocks |
| ParamParsing.AdjacentPlaceholders | Dispatcher.php:72-87 | with adjacent placeholders, block `b` serves as `a`'s delimiter; when that text is missing, `a` gets `false` and `b` gets "" |
| ParamParsing.ResizeParams | Dispatcher.php:58-89 | `100x200` under `{width\|integer}x{height\|integer}` parses to `width ⇒ 100, height ⇒ 200` |
| Dispatcher.ParamsStep | Dispatcher.php:72-82 | one turn of the loop assigns the pair read at `it` and leaves the parts two further on and the advanced cursor |
| Dispatcher.ParamsEnd | Dispatcher.php:84-87 | after the loop only the last part is left, read without a delimiter |
| Dispatcher.ReadParams | Dispatcher.php:64-88 | the loop over the pattern's parts returns exactly `ParseParams(pattern, paramString)`, whose keys and values the lemmas above describe |
| Dispatcher.UriDispatcher.ParseParamsData | Dispatcher.php:58-89 | the parameters are those the filter's pattern reads from the raw filter after the token |
| Dispatcher.UriDispatcher.FilterDataCases | Dispatcher.php:95-117 | `Filter syntax error` iff the token is unknown; `Not enough info to <title>` iff known with an empty parameter string; otherwise `Ok` with the title and the parsed parameters, whose keys are the pattern's placeholder names |
| Dispatcher.UriDispatcher.ParseFilterData | Dispatcher.php:95-117 | the method returns the entry `FilterDataAt` describes |
| Dispatcher.UriDispatcher.PairEntriesAt | Dispatcher.php:138-143 | the i-th of the entries for the first n pairs is the entry for raw filters 2i and 2i+1 |
| Dispatcher.UriDispatcher.ParseFilters | Dispatcher.php:124-147 | `false` iff there are no raw filters; one raw filter gives the single `Not enough info` entry; otherwise the entries of the first `count / 2` pairs, so an odd trailing token is ignored |

## Left out

- `settype` to `float`/`double`, `array`, `object` or an unknown type name is not interpreted. The value is kept as `VOther(type, raw)`. Floating point is out of scope, and PHP raises an error for unknown names. Type names are compared after lower-casing their ASCII letters, as PHP does.
- Coercion.IntValue: does not model PHP's saturation at `PHP_INT_MAX`/`PHP_INT_MIN`, or numeric strings with a fraction or exponent (`"1e3"` reads as 1000 in PHP). Integers here are unbounded and only the leading decimal digits are read.
- PHP turns integer-like string keys (`"5"`) into integer keys. The array here keeps every key as a string. Order and overwriting are unaffected.
- Strings are sequences of characters, each standing for one byte. Multi-byte encodings are not modelled.
- Malformed patterns make PHP emit warnings and continue with `null`s. Examples are a block without `|`, or a pattern without braces, which has no parts. Such patterns are excluded by preconditions instead.
- Dispatcher.UriDispatcher.ParseFilters: requires every known filter that is given a non-empty parameter string to have a well-formed pattern (`AllResolvable`). On other patterns the PHP code emits warnings.
- Dispatcher.UriDispatcher.FilterDataCases: requires `Resolvable` for the same reason.
- Dispatcher.UriDispatcher.ParseParamsData: requires the token to be known and its pattern well formed, which is how `parseFilterData` calls it.
- Dispatcher.ReadParams: requires a well-formed pattern for the same reason.
- A missing `rawFilters[filterId + 1]` (PHP's undefined index, read as `null`) is modelled as "". `parseFilters` never reads one, because its loop stops at `count - 1`.
- The registry's contents and lifecycle are not modelled. Neither is the fact that the public fields (`path`, `filterList`, `id`) can be changed from outside the class. The methods here only read the fields.
- `substr` follows PHP 8, where `substr("", 1)` and `substr(false, 1)` give "". Under PHP 7 they give `false`. A later `strstr` then finds no delimiter, as on "", and the last placeholder, which takes the cursor as it is (line 45), gets `false` instead of "". On every modelled type `false` coerces exactly as "" does (`Coercion.SettypeFalseAsEmpty`), so only `VOther` values differ.
